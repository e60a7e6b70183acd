/**
 * KeyMatch: Controller::satisfiesKeys, the test of whether the pressed keys satisfy a chord. The
 * required inputs must either occur in the key buffer in the order they are listed, or, when a time
 * window is given, be pressed close enough together in time in any order.
 */
module KeyMatch {
  import opened Wrappers
  import opened QtUtil

  /** KeyPress: an input and the time it was pressed, in milliseconds. */
  datatype KeyPress = KeyPress(key: Input, timeMs: int)

  /** The default time window of satisfiesKeys (DEFAULT_KEY_INPUT_THRESHOLD_MS). */
  const DefaultKeyInputThresholdMs: int := 100

  /** The tokens of the required inputs. */
  function Tokens(s: seq<Input>): (ts: seq<nat>)
    ensures |ts| == |s| && forall k | 0 <= k < |s| :: ts[k] == KeyToken(s[k])
  {
    seq(|s|, k requires 0 <= k < |s| => KeyToken(s[k]))
  }

  /** The tokens of the buffered presses, in buffer order. */
  function PressTokens(b: seq<KeyPress>): (ts: seq<nat>)
    ensures |ts| == |b| && forall k | 0 <= k < |b| :: ts[k] == KeyToken(b[k].key)
  {
    seq(|b|, k requires 0 <= k < |b| => KeyToken(b[k].key))
  }

  // ---- the ordered path ----

  /**
   * The search of the fast path: each required token is matched with its first occurrence after
   * the previous match.
   */
  function InOrder(req: seq<nat>, buf: seq<nat>): bool
    decreases |buf|
  {
    if req == [] then true
    else if buf == [] then false
    else if buf[0] == req[0] then InOrder(req[1..], buf[1..])
    else InOrder(req, buf[1..])
  }

  /** idx places the k-th required token at position idx[k] of the buffer, positions increasing. */
  predicate Embeds(idx: seq<nat>, req: seq<nat>, buf: seq<nat>)
  {
    |idx| == |req| &&
    (forall k | 0 <= k < |idx| :: idx[k] < |buf| && buf[idx[k]] == req[k]) &&
    (forall a, b | 0 <= a < b < |idx| :: idx[a] < idx[b])
  }

  /** req is a subsequence of buf. */
  ghost predicate IsSubsequence(req: seq<nat>, buf: seq<nat>)
  {
    exists idx :: Embeds(idx, req, buf)
  }

  function Up(idx: seq<nat>): (r: seq<nat>)
    ensures |r| == |idx| && forall k | 0 <= k < |idx| :: r[k] == idx[k] + 1
  {
    seq(|idx|, k requires 0 <= k < |idx| => idx[k] + 1)
  }

  function Down(idx: seq<nat>): (r: seq<nat>)
    requires forall k | 0 <= k < |idx| :: idx[k] > 0
    ensures |r| == |idx| && forall k | 0 <= k < |idx| :: r[k] == idx[k] - 1
  {
    seq(|idx|, k requires 0 <= k < |idx| => idx[k] - 1)
  }

  /** When the greedy search succeeds, the positions it matched embed the required tokens. */
  lemma {:induction false} InOrderEmbeds(req: seq<nat>, buf: seq<nat>)
    requires InOrder(req, buf)
    ensures IsSubsequence(req, buf)
    decreases |buf|
  {
    if req == [] {
      assert Embeds([], req, buf);
    } else {
      var tail := buf[1..];
      if buf[0] == req[0] {
        InOrderEmbeds(req[1..], tail);
        var idx :| Embeds(idx, req[1..], tail);
        var whole := [0] + Up(idx);
        assert Embeds(whole, req, buf);
      } else {
        InOrderEmbeds(req, tail);
        var idx :| Embeds(idx, req, tail);
        assert Embeds(Up(idx), req, buf);
      }
    }
  }

  /** Any embedding of the required tokens lets the greedy search succeed. */
  lemma {:induction false} EmbedsInOrder(idx: seq<nat>, req: seq<nat>, buf: seq<nat>)
    requires Embeds(idx, req, buf)
    ensures InOrder(req, buf)
    decreases |buf|
  {
    if req != [] {
      assert idx[0] < |buf|;
      var tail := buf[1..];
      if buf[0] == req[0] {
        assert forall k | 0 <= k < |idx[1..]| :: idx[1..][k] > idx[0];
        var rest := Down(idx[1..]);
        assert Embeds(rest, req[1..], tail);
        EmbedsInOrder(rest, req[1..], tail);
      } else {
        assert idx[0] != 0;
        assert forall k | 0 <= k < |idx| :: idx[k] >= idx[0];
        assert Embeds(Down(idx), req, tail);
        EmbedsInOrder(Down(idx), req, tail);
      }
    }
  }

  /** The greedy search succeeds exactly when the required tokens are a subsequence of the buffer's. */
  lemma InOrderIsSubsequence(req: seq<nat>, buf: seq<nat>)
    ensures InOrder(req, buf) <==> IsSubsequence(req, buf)
  {
    if InOrder(req, buf) {
      InOrderEmbeds(req, buf);
    }
    if IsSubsequence(req, buf) {
      var idx :| Embeds(idx, req, buf);
      EmbedsInOrder(idx, req, buf);
    }
  }

  /** A buffer token that is not the next required one is skipped. */
  lemma InOrderSkip(req: seq<nat>, buf: seq<nat>, r: nat, j: nat)
    requires r < |req| && j < |buf| && buf[j] != req[r]
    ensures InOrder(req[r..], buf[j..]) == InOrder(req[r..], buf[j + 1..])
  {
    assert buf[j..][1..] == buf[j + 1..];
  }

  /** A buffer token that is the next required one is matched. */
  lemma InOrderMatch(req: seq<nat>, buf: seq<nat>, r: nat, j: nat)
    requires r < |req| && j < |buf| && buf[j] == req[r]
    ensures InOrder(req[r..], buf[j..]) == InOrder(req[r + 1..], buf[j + 1..])
  {
    assert buf[j..][1..] == buf[j + 1..] && req[r..][1..] == req[r + 1..];
  }

  /** Every buffer token before j that is not the next required one is skipped. */
  lemma {:induction false} InOrderSkipAll(req: seq<nat>, buf: seq<nat>, r: nat, pos: nat, j: nat)
    requires r < |req| && pos <= j <= |buf|
    requires forall k | pos <= k < j :: buf[k] != req[r]
    ensures InOrder(req[r..], buf[pos..]) == InOrder(req[r..], buf[j..])
    decreases j - pos
  {
    if pos < j {
      InOrderSkip(req, buf, r, pos);
      InOrderSkipAll(req, buf, r, pos + 1, j);
    }
  }

  /** std::find_if from pos: the first position at or after pos whose press has token t, or the end. */
  method FindFrom(buf: seq<KeyPress>, t: nat, pos: nat) returns (j: nat)
    requires pos <= |buf|
    ensures pos <= j <= |buf|
    ensures forall k | pos <= k < j :: KeyToken(buf[k].key) != t
    ensures j < |buf| ==> KeyToken(buf[j].key) == t
  {
    j := pos;
    while j < |buf| && KeyToken(buf[j].key) != t
      invariant pos <= j <= |buf|
      invariant forall k | pos <= k < j :: KeyToken(buf[k].key) != t
    {
      j := j + 1;
    }
  }

  /** The fast path: find each required token after the previous match. */
  method OrderedMatch(req: seq<Input>, buf: seq<KeyPress>) returns (found: bool)
    ensures found == InOrder(Tokens(req), PressTokens(buf))
  {
    ghost var rt, bt := Tokens(req), PressTokens(buf);
    var pos := 0;
    var r := 0;
    while r < |req|
      invariant 0 <= r <= |req| && 0 <= pos <= |buf|
      invariant InOrder(rt, bt) == InOrder(rt[r..], bt[pos..])
    {
      var j := FindFrom(buf, KeyToken(req[r]), pos);
      InOrderSkipAll(rt, bt, r, pos, j);
      if j == |buf| {
        assert bt[j..] == [];
        return false;
      }
      InOrderMatch(rt, bt, r, j);
      pos := j + 1;
      r := r + 1;
    }
    assert rt[r..] == [];
    return true;
  }

  // ---- the timed path ----

  /** How often t occurs in s. */
  function Count(s: seq<nat>, t: nat): nat
  {
    if s == [] then 0 else Count(s[..|s| - 1], t) + (if s[|s| - 1] == t then 1 else 0)
  }

  lemma CountSnoc(s: seq<nat>, x: nat, t: nat)
    ensures Count(s + [x], t) == Count(s, t) + (if x == t then 1 else 0)
  {
    assert (s + [x])[..|s|] == s;
  }

  /** A value occurs in s exactly when it is counted there. */
  lemma {:induction false} CountPositive(s: seq<nat>, t: nat)
    ensures Count(s, t) > 0 <==> t in s
  {
    if s != [] {
      var init := s[..|s| - 1];
      assert s == init + [s[|s| - 1]];
      CountPositive(init, t);
    }
  }

  /** reqCounts: every required token with its multiplicity. */
  function CountsOf(ts: seq<nat>): map<nat, int>
  {
    map t | t in ts :: Count(ts, t)
  }

  /** A map lookup that reads a missing key as 0, as the source's find-or-zero does. */
  function Got(m: map<nat, int>, t: nat): int
  {
    if t in m then m[t] else 0
  }

  /** A map with the keys of ts that holds each one's count is the counts of ts. */
  lemma CountsExtensional(m: map<nat, int>, ts: seq<nat>)
    requires forall u :: u in m <==> u in ts
    requires forall u | u in m :: m[u] == Count(ts, u)
    ensures m == CountsOf(ts)
  {
  }

  /** Builds reqCounts, incrementing one entry per required input. */
  method RequiredCounts(req: seq<Input>) returns (m: map<nat, int>)
    ensures m == CountsOf(Tokens(req))
  {
    ghost var ts := Tokens(req);
    m := map[];
    var i := 0;
    while i < |req|
      invariant 0 <= i <= |req|
      invariant forall u :: u in m <==> u in ts[..i]
      invariant forall u | u in m :: m[u] == Count(ts[..i], u)
    {
      var t := KeyToken(req[i]);
      ghost var before := ts[..i];
      assert ts[..i + 1] == before + [t];
      forall u ensures Count(before + [t], u) == Count(before, u) + (if t == u then 1 else 0) {
        CountSnoc(before, t, u);
      }
      CountPositive(before, t);
      m := m[t := (if t in m then m[t] else 0) + 1];
      i := i + 1;
    }
    assert ts[..i] == ts;
    CountsExtensional(m, ts);
  }

  /** Tiny: a buffered press reduced to its token and time. */
  datatype Event = Event(token: nat, timeMs: int)

  /** The buffered presses whose token is required, in buffer order. */
  function Filtered(buf: seq<KeyPress>, m: map<nat, int>): seq<Event>
  {
    if buf == [] then []
    else
      var last := buf[|buf| - 1];
      Filtered(buf[..|buf| - 1], m) +
        (if KeyToken(last.key) in m then [Event(KeyToken(last.key), last.timeMs)] else [])
  }

  /** The events are exactly the buffered presses with a required token. */
  lemma {:induction false} FilteredMembers(buf: seq<KeyPress>, m: map<nat, int>, e: Event)
    ensures e in Filtered(buf, m) <==>
              e.token in m && exists k | 0 <= k < |buf| :: e == Event(KeyToken(buf[k].key), buf[k].timeMs)
  {
    if buf != [] {
      var init := buf[..|buf| - 1];
      FilteredMembers(init, m, e);
      if exists k | 0 <= k < |buf| :: e == Event(KeyToken(buf[k].key), buf[k].timeMs) {
        var k :| 0 <= k < |buf| && e == Event(KeyToken(buf[k].key), buf[k].timeMs);
        if k < |init| {
          assert init[k] == buf[k];
        }
      }
      if exists k | 0 <= k < |init| :: e == Event(KeyToken(init[k].key), init[k].timeMs) {
        var k :| 0 <= k < |init| && e == Event(KeyToken(init[k].key), init[k].timeMs);
        assert buf[k] == init[k];
      }
    }
  }

  /** Keeps the events whose token is required. */
  method FilterEvents(buf: seq<KeyPress>, m: map<nat, int>) returns (events: seq<Event>)
    ensures events == Filtered(buf, m)
  {
    events := [];
    var i := 0;
    while i < |buf|
      invariant 0 <= i <= |buf| && events == Filtered(buf[..i], m)
    {
      assert buf[..i + 1][..i] == buf[..i];
      var t := KeyToken(buf[i].key);
      if t in m {
        events := events + [Event(t, buf[i].timeMs)];
      }
      i := i + 1;
    }
    assert buf[..i] == buf;
  }

  predicate SortedByTime(e: seq<Event>)
  {
    forall a, b | 0 <= a < b < |e| :: e[a].timeMs <= e[b].timeMs
  }

  /** An event no earlier than every event of a sorted sequence can follow them. */
  lemma SortedSnoc(r: seq<Event>, last: Event)
    requires SortedByTime(r) && forall a | 0 <= a < |r| :: r[a].timeMs <= last.timeMs
    ensures SortedByTime(r + [last])
  {
  }

  /** Every event of r is one of s or x, so none is later than a bound they all keep. */
  lemma BoundedByParts(r: seq<Event>, s: seq<Event>, x: Event, bound: int)
    requires multiset(r) == multiset(s) + multiset{x}
    requires x.timeMs <= bound && forall a | 0 <= a < |s| :: s[a].timeMs <= bound
    ensures forall a | 0 <= a < |r| :: r[a].timeMs <= bound
  {
    forall a | 0 <= a < |r| ensures r[a].timeMs <= bound {
      assert r[a] in multiset(r);
      if r[a] != x {
        assert r[a] in multiset(s);
        var b :| 0 <= b < |s| && s[b] == r[a];
      }
    }
  }

  /** Inserts x after every event that is not later than it. */
  function InsertByTime(s: seq<Event>, x: Event): (r: seq<Event>)
    requires SortedByTime(s)
    ensures SortedByTime(r) && multiset(r) == multiset(s) + multiset{x}
    decreases |s|
  {
    if s == [] || s[|s| - 1].timeMs <= x.timeMs then s + [x]
    else
      var init, last := s[..|s| - 1], s[|s| - 1];
      assert s == init + [last];
      var r := InsertByTime(init, x);
      BoundedByParts(r, init, x, last.timeMs);
      SortedSnoc(r, last);
      r + [last]
  }

  /**
   * std::sort by time. The arrangement of events with equal times is unspecified in the source; the
   * model keeps them in buffer order.
   */
  function SortByTime(e: seq<Event>): (r: seq<Event>)
    ensures SortedByTime(r) && multiset(r) == multiset(e)
  {
    if e == [] then []
    else
      assert e == e[..|e| - 1] + [e[|e| - 1]];
      InsertByTime(SortByTime(e[..|e| - 1]), e[|e| - 1])
  }

  /** Every required token has been seen at least as often as it is required. */
  predicate Full(have: map<nat, int>, m: map<nat, int>)
  {
    forall t | t in m :: Got(have, t) >= m[t]
  }

  /**
   * The greedy chain from position j, with the counts seen so far and the time of the last accepted
   * event: it succeeds once every count is reached, and fails at the end of the events or at the
   * first event more than gap after the last accepted one. An event is accepted while its token is
   * still short of its count. (reqCounts[tok] on a missing token would insert a zero count, which
   * every test of fullness accepts; Got reads it as 0 without inserting it.)
   */
  function Chain(ev: seq<Event>, m: map<nat, int>, gap: int, j: nat, have: map<nat, int>, prev: int): bool
    requires j <= |ev|
    decreases |ev| - j
  {
    if Full(have, m) then true
    else if j == |ev| || ev[j].timeMs - prev > gap then false
    else
      var tok := ev[j].token;
      if Got(have, tok) < Got(m, tok) then Chain(ev, m, gap, j + 1, have[tok := Got(have, tok) + 1], ev[j].timeMs)
      else Chain(ev, m, gap, j + 1, have, prev)
  }

  /** The chain that starts at event s, counting that event once. */
  function StartsAt(ev: seq<Event>, m: map<nat, int>, gap: int, s: nat): bool
    requires s < |ev|
  {
    Chain(ev, m, gap, s + 1, map[ev[s].token := 1], ev[s].timeMs)
  }

  /** Some chain starting at s or later succeeds. */
  function AnyStart(ev: seq<Event>, m: map<nat, int>, gap: int, s: nat): bool
    requires s <= |ev|
    decreases |ev| - s
  {
    s < |ev| && (StartsAt(ev, m, gap, s) || AnyStart(ev, m, gap, s + 1))
  }

  /** The timed path: some greedy chain over the required events, sorted by time, succeeds. */
  function Timed(req: seq<Input>, buf: seq<KeyPress>, gap: int): bool
  {
    var m := CountsOf(Tokens(req));
    AnyStart(SortByTime(Filtered(buf, m)), m, gap, 0)
  }

  /** satisfiesKeys: the ordered path, or, when a window is given, the timed path. */
  function Satisfies(req: seq<Input>, buf: seq<KeyPress>, maxGapMs: Option<int>): bool
  {
    InOrder(Tokens(req), PressTokens(buf)) || (maxGapMs.Some? && Timed(req, buf, maxGapMs.value))
  }

  /** The fullness test: every entry of reqCounts is reached; stops at the first one that is not. */
  method IsFull(have: map<nat, int>, m: map<nat, int>) returns (full: bool)
    ensures full == Full(have, m)
  {
    var rest := m.Keys;
    while rest != {}
      invariant rest <= m.Keys
      invariant forall t | t in m && t !in rest :: Got(have, t) >= m[t]
      decreases rest
    {
      var t :| t in rest;
      var got := if t in have then have[t] else 0;
      if got < m[t] {
        return false;
      }
      rest := rest - {t};
    }
    return true;
  }

  /** The inner loop: follow the chain from event s until it is full, hits a gap or runs out. */
  method ChainFrom(ev: seq<Event>, m: map<nat, int>, gap: int, s: nat) returns (found: bool)
    requires s < |ev|
    ensures found == StartsAt(ev, m, gap, s)
  {
    var have: map<nat, int> := map[ev[s].token := 1];
    var prev := ev[s].timeMs;
    var full := IsFull(have, m);
    if full {
      return true;
    }
    var j := s + 1;
    while j < |ev|
      invariant s + 1 <= j <= |ev|
      invariant StartsAt(ev, m, gap, s) == Chain(ev, m, gap, j, have, prev)
      invariant !Full(have, m)
    {
      var g := ev[j].timeMs - prev;
      if g > gap {
        return false;
      }
      var tok := ev[j].token;
      var needed := if tok in m then m[tok] else 0;
      var haveNow := if tok in have then have[tok] else 0;
      if haveNow < needed {
        have := have[tok := haveNow + 1];
        prev := ev[j].timeMs;
      }
      var done := IsFull(have, m);
      if done {
        return true;
      }
      j := j + 1;
    }
    return false;
  }

  /** The timed path: counts, the required events sorted by time, and a chain from every start. */
  method TimedMatch(req: seq<Input>, buf: seq<KeyPress>, gap: int) returns (found: bool)
    ensures found == Timed(req, buf, gap)
  {
    var m := RequiredCounts(req);
    var events := FilterEvents(buf, m);
    if events == [] {
      return false;
    }
    var ev := SortByTime(events);
    var s := 0;
    while s < |ev|
      invariant 0 <= s <= |ev| && Timed(req, buf, gap) == AnyStart(ev, m, gap, s)
    {
      var ok := ChainFrom(ev, m, gap, s);
      if ok {
        return true;
      }
      s := s + 1;
    }
    return false;
  }

  /** satisfiesKeys over a buffer: the ordered path first, then the timed one when a window is given. */
  method SatisfiesKeys(req: seq<Input>, buf: seq<KeyPress>, maxGapMs: Option<int>) returns (b: bool)
    ensures b == Satisfies(req, buf, maxGapMs)
  {
    b := OrderedMatch(req, buf);
    if b {
      return;
    }
    if maxGapMs.None? {
      return false;
    }
    b := TimedMatch(req, buf, maxGapMs.value);
  }

  // ---- what satisfiesKeys promises ----

  /** An empty requirement is always satisfied. */
  lemma EmptyRequirement(buf: seq<KeyPress>, maxGapMs: Option<int>)
    ensures Satisfies([], buf, maxGapMs)
  {
  }

  /** Without a window the answer is exactly whether the required inputs occur in order. */
  lemma UntimedIsSubsequence(req: seq<Input>, buf: seq<KeyPress>)
    ensures Satisfies(req, buf, None) <==> IsSubsequence(Tokens(req), PressTokens(buf))
  {
    InOrderIsSubsequence(Tokens(req), PressTokens(buf));
  }

  /** Inputs that occur in order are accepted whatever the window. */
  lemma InOrderAccepted(req: seq<Input>, buf: seq<KeyPress>, maxGapMs: Option<int>)
    requires IsSubsequence(Tokens(req), PressTokens(buf))
    ensures Satisfies(req, buf, maxGapMs)
  {
    InOrderIsSubsequence(Tokens(req), PressTokens(buf));
  }

  /** The event tokens. */
  function EventTokens(ev: seq<Event>): (ts: seq<nat>)
    ensures |ts| == |ev| && forall k | 0 <= k < |ev| :: ts[k] == ev[k].token
  {
    seq(|ev|, k requires 0 <= k < |ev| => ev[k].token)
  }

  lemma CountPrefix(s: seq<nat>, i: nat, t: nat)
    requires i < |s|
    ensures Count(s[..i + 1], t) == Count(s[..i], t) + (if s[i] == t then 1 else 0)
  {
    assert s[..i + 1][..i] == s[..i];
  }

  lemma {:induction false} CountPrefixBound(s: seq<nat>, i: nat, t: nat)
    requires i <= |s|
    ensures Count(s[..i], t) <= Count(s, t)
    decreases |s| - i
  {
    if i < |s| {
      CountPrefix(s, i, t);
      CountPrefixBound(s, i + 1, t);
    } else {
      assert s[..i] == s;
    }
  }

  /**
   * A chain only succeeds with enough events: when it started with counts bounded by the first j
   * events, success means every required token occurs among the events at least as often as it is
   * required.
   */
  lemma {:induction false} ChainSound(ev: seq<Event>, m: map<nat, int>, gap: int, j: nat, have: map<nat, int>, prev: int)
    requires j <= |ev|
    requires forall t :: Got(have, t) <= Count(EventTokens(ev)[..j], t)
    ensures Chain(ev, m, gap, j, have, prev) ==> forall t | t in m :: m[t] <= Count(EventTokens(ev), t)
    decreases |ev| - j
  {
    var ts := EventTokens(ev);
    if Full(have, m) {
      forall t | t in m ensures m[t] <= Count(ts, t) {
        CountPrefixBound(ts, j, t);
      }
    } else if j == |ev| || ev[j].timeMs - prev > gap {
    } else {
      var tok := ev[j].token;
      forall t ensures Count(ts[..j], t) <= Count(ts[..j + 1], t) {
        CountPrefix(ts, j, t);
      }
      if Got(have, tok) < Got(m, tok) {
        var next := have[tok := Got(have, tok) + 1];
        forall t ensures Got(next, t) <= Count(ts[..j + 1], t) {
          CountPrefix(ts, j, t);
        }
        ChainSound(ev, m, gap, j + 1, next, ev[j].timeMs);
      } else {
        ChainSound(ev, m, gap, j + 1, have, prev);
      }
    }
  }

  /** The timed path accepts only events that hold every required token as often as it is required. */
  lemma TimedSound(ev: seq<Event>, m: map<nat, int>, gap: int, s: nat)
    requires s <= |ev|
    ensures AnyStart(ev, m, gap, s) ==> forall t | t in m :: m[t] <= Count(EventTokens(ev), t)
    decreases |ev| - s
  {
    if s < |ev| {
      var ts := EventTokens(ev);
      var start := map[ev[s].token := 1];
      forall t ensures Got(start, t) <= Count(ts[..s + 1], t) {
        CountPrefix(ts, s, t);
        assert Count(ts[..s], t) >= 0;
      }
      ChainSound(ev, m, gap, s + 1, start, ev[s].timeMs);
      TimedSound(ev, m, gap, s + 1);
    }
  }

  function Min(a: int, b: int): int
  {
    if a <= b then a else b
  }

  /**
   * Along the chain from the first event, over events pressed at one instant, every required
   * token's count is the smaller of its requirement and its occurrences so far.
   */
  lemma {:induction false} SimultaneousChain(ev: seq<Event>, m: map<nat, int>, gap: int, j: nat, have: map<nat, int>)
    requires 0 < j <= |ev| && gap >= 0
    requires forall k | 0 <= k < |ev| :: ev[k].timeMs == ev[0].timeMs && ev[k].token in m
    requires forall t | t in m :: 1 <= m[t] <= Count(EventTokens(ev), t)
    requires forall t | t in m :: Got(have, t) == Min(m[t], Count(EventTokens(ev)[..j], t))
    ensures Chain(ev, m, gap, j, have, ev[0].timeMs)
    decreases |ev| - j
  {
    var ts := EventTokens(ev);
    if j == |ev| {
      assert ts[..j] == ts;
      assert Full(have, m);
    } else if !Full(have, m) {
      var tok := ev[j].token;
      assert ts[j] == tok;
      CountedStep(ts, m, j, have);
      var next := if Got(have, tok) < Got(m, tok) then have[tok := Got(have, tok) + 1] else have;
      SimultaneousChain(ev, m, gap, j + 1, next);
    }
  }

  /** Accepting the next token while it is short of its count keeps every count at that minimum. */
  lemma CountedStep(ts: seq<nat>, m: map<nat, int>, j: nat, have: map<nat, int>)
    requires j < |ts|
    requires forall t | t in m :: Got(have, t) == Min(m[t], Count(ts[..j], t))
    ensures var next := if Got(have, ts[j]) < Got(m, ts[j]) then have[ts[j] := Got(have, ts[j]) + 1] else have;
      forall t | t in m :: Got(next, t) == Min(m[t], Count(ts[..j + 1], t))
  {
    forall t | t in m {
      CountPrefix(ts, j, t);
    }
  }

  /**
   * Required inputs pressed at the same instant are accepted by the timed path with any window
   * that is not negative, as long as each occurs as often as it is required.
   */
  lemma SimultaneousAccepted(ev: seq<Event>, m: map<nat, int>, gap: int)
    requires ev != [] && gap >= 0
    requires forall k | 0 <= k < |ev| :: ev[k].timeMs == ev[0].timeMs && ev[k].token in m
    requires forall t | t in m :: 1 <= m[t] <= Count(EventTokens(ev), t)
    ensures AnyStart(ev, m, gap, 0)
  {
    var ts := EventTokens(ev);
    var start := map[ev[0].token := 1];
    forall t | t in m ensures Got(start, t) == Min(m[t], Count(ts[..1], t)) {
      CountPrefix(ts, 0, t);
      assert ts[..0] == [];
    }
    SimultaneousChain(ev, m, gap, 1, start);
  }
}
