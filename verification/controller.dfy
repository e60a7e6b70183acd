/**
 * Controllers: the part of the input controller that keeps state between events. Every press is
 * buffered as a KeyPress in a duplicate-free deque and every release removes the presses of that
 * input again; mouse presses are also counted into double and triple clicks; and satisfiesKeys asks
 * whether the buffer holds a chord.
 */
module Controllers {
  import opened Wrappers
  import opened QtUtil
  import opened UniqueDeques
  import opened KeyMatch

  /** Common::doubleClickInterval, in milliseconds. */
  const DoubleClickIntervalMs: int := 300

  /** What a mouse press hands on to the current tool. */
  datatype Dispatch = ToolPress | DoubleClick | TripleClick | Nothing

  /** The click-counting state: m_lastClickTime, m_clickCount and m_mouseMoved. */
  datatype Clicks = Clicks(lastClickMs: int, count: nat, moved: bool)

  /** A press continues the click run when it is quick, the mouse has not moved and no chord is held. */
  predicate Continues(c: Clicks, nowMs: int, occupied: bool)
  {
    nowMs - c.lastClickMs <= DoubleClickIntervalMs && !c.moved && !occupied
  }

  /**
   * The click-counting part of mousePressed. A press at the origin is ignored. A press that
   * continues the run raises the count and is a double click at 2, a triple click at 3 and nothing
   * otherwise; any other press starts a new run of one, clears the moved flag and reaches the tool
   * unless a chord is held. The press time becomes the last click time in both cases.
   */
  function PressStep(c: Clicks, nowMs: int, atOrigin: bool, occupied: bool): (r: (Clicks, Dispatch))
    ensures atOrigin ==> r == (c, Nothing)
    ensures !atOrigin ==> r.0.lastClickMs == nowMs && r.0.count >= 1
    ensures !atOrigin && !Continues(c, nowMs, occupied) ==> r.0.count == 1 && !r.0.moved
    ensures r.1 == ToolPress <==> !atOrigin && !Continues(c, nowMs, occupied) && !occupied
    ensures r.1 == DoubleClick <==> !atOrigin && Continues(c, nowMs, occupied) && c.count == 1
    ensures r.1 == TripleClick <==> !atOrigin && Continues(c, nowMs, occupied) && c.count == 2
  {
    if atOrigin then (c, Nothing)
    else if Continues(c, nowMs, occupied) then
      var n := c.count + 1;
      (Clicks(nowMs, n, c.moved), if n == 2 then DoubleClick else if n == 3 then TripleClick else Nothing)
    else (Clicks(nowMs, 1, false), if occupied then Nothing else ToolPress)
  }

  /** The state after a run of presses away from the origin with no chord held and no move between them. */
  function Run(c: Clicks, times: seq<int>): Clicks
    decreases |times|
  {
    if times == [] then c
    else Run(PressStep(c, times[0], false, false).0, times[1..])
  }

  /** Every press of the run comes at most the double-click interval after the one before it. */
  predicate Quick(lastMs: int, times: seq<int>)
  {
    (times != [] ==> times[0] - lastMs <= DoubleClickIntervalMs)
    && forall k | 0 < k < |times| :: times[k] - times[k - 1] <= DoubleClickIntervalMs
  }

  /** A run of quick presses after an unmoved state adds one to the count per press. */
  lemma {:induction false} QuickRunCounts(c: Clicks, times: seq<int>)
    requires !c.moved && Quick(c.lastClickMs, times)
    ensures Run(c, times).count == c.count + |times| && !Run(c, times).moved
    ensures times != [] ==> Run(c, times).lastClickMs == times[|times| - 1]
    decreases |times|
  {
    if times != [] {
      var next := PressStep(c, times[0], false, false).0;
      assert next == Clicks(times[0], c.count + 1, false);
      var rest := times[1..];
      if rest != [] {
        assert rest[0] == times[1];
      }
      forall k | 0 < k < |rest| ensures rest[k] - rest[k - 1] <= DoubleClickIntervalMs {
        assert rest[k] == times[k + 1] && rest[k - 1] == times[k];
      }
      QuickRunCounts(next, rest);
      if rest != [] {
        assert rest[|rest| - 1] == times[|times| - 1];
      }
    }
  }

  /**
   * A slow press reaches the tool and starts a run; a second press within the interval is a double
   * click and a third one a triple click; a fourth dispatches nothing.
   */
  lemma DoubleThenTriple(c: Clicks, t0: int, t1: int, t2: int, t3: int)
    requires t0 - c.lastClickMs > DoubleClickIntervalMs
    requires t1 - t0 <= DoubleClickIntervalMs && t2 - t1 <= DoubleClickIntervalMs && t3 - t2 <= DoubleClickIntervalMs
    ensures var (c0, d0) := PressStep(c, t0, false, false);
      var (c1, d1) := PressStep(c0, t1, false, false);
      var (c2, d2) := PressStep(c1, t2, false, false);
      var (c3, d3) := PressStep(c2, t3, false, false);
      d0 == ToolPress && d1 == DoubleClick && d2 == TripleClick && d3 == Nothing && c3.count == 4
  {
  }

  /** After a move the next press is never a double or triple click, and it starts a new run. */
  lemma MoveBreaksRun(c: Clicks, nowMs: int, occupied: bool)
    requires c.moved
    ensures var (c', d) := PressStep(c, nowMs, false, occupied);
      d != DoubleClick && d != TripleClick && c'.count == 1 && !c'.moved
  {
  }

  /** While a chord is held no press reaches the tool, and none counts as a double or triple click. */
  lemma OccupiedDispatchesNothing(c: Clicks, nowMs: int, atOrigin: bool)
    ensures PressStep(c, nowMs, atOrigin, true).1 == Nothing
  {
  }

  /** The erase_if predicate of a release: the buffered press has the released input's token. */
  function Releases(input: Input): KeyPress -> bool
  {
    (v: KeyPress) => KeyToken(v.key) == KeyToken(input)
  }

  /** For inputs Qt can produce, a release removes exactly the press of that input and keeps the rest in order. */
  lemma ReleasedEntries(s: seq<KeyPress>, key: KeyPress -> Input, input: Input)
    requires KeyDistinct(s, key) && InRange(input)
    requires forall x | x in s :: InRange(x.key)
    ensures forall x | x in Kept(s, Releases(input)) :: x in s && x.key != input
    ensures forall x | x in s && x.key != input :: x in Kept(s, Releases(input))
  {
    KeptMembers(s, Releases(input), key);
    forall x | x in s
      ensures Releases(input)(x) <==> x.key == input
    {
      TokenInjective(x.key, input);
    }
  }

  /** Releasing a mouse button never removes a buffered keyboard key, whatever the two values. */
  lemma ButtonReleaseKeepsKeys(s: seq<KeyPress>, key: KeyPress -> Input, b: nat)
    requires KeyDistinct(s, key)
    ensures forall x | x in s && x.key.Key? :: x in Kept(s, Releases(Button(b)))
  {
    KeptMembers(s, Releases(Button(b)), key);
    forall x | x in s && x.key.Key?
      ensures !Releases(Button(b))(x)
    {
      KeyNeverButton(x.key.code, b);
    }
  }

  /** Controller: the key buffer and the click-counting fields. */
  class Controller {
    const keyBuffer: UniqueDeque<KeyPress, Input>   // m_keyBuffer
    var lastClickTime: int                          // m_lastClickTime
    var clickCount: nat                             // m_clickCount
    var mouseMoved: bool                            // m_mouseMoved

    /** The buffer is keyed by the pressed input, and holds only inputs Qt can produce. */
    ghost predicate Valid()
      reads this, keyBuffer
    {
      keyBuffer.Valid() && (forall kp :: keyBuffer.key(kp) == kp.key)
      && (forall kp | kp in keyBuffer.items :: InRange(kp.key))
    }

    function ClickState(): Clicks
      reads this
    {
      Clicks(lastClickTime, clickCount, mouseMoved)
    }

    constructor ()
      ensures Valid() && fresh(keyBuffer) && keyBuffer.items == [] && ClickState() == Clicks(0, 0, false)
    {
      keyBuffer := new UniqueDeque((kp: KeyPress) => kp.key);
      lastClickTime, clickCount, mouseMoved := 0, 0, false;
    }

    /** push_back of a press: added unless a press of the same input is already buffered. */
    method Buffer(input: Input, nowMs: int)
      requires Valid() && InRange(input)
      modifies keyBuffer
      ensures Valid()
      ensures input in old(keyBuffer.keys) ==> keyBuffer.items == old(keyBuffer.items)
      ensures input !in old(keyBuffer.keys) ==> keyBuffer.items == old(keyBuffer.items) + [KeyPress(input, nowMs)]
    {
      var kp := KeyPress(input, nowMs);
      assert keyBuffer.key(kp) == input;
      var _ := keyBuffer.PushBack(kp);
    }

    /** erase_if on the released input's token: removes exactly the buffered press of that input. */
    method Release(input: Input)
      requires Valid() && InRange(input)
      modifies keyBuffer
      ensures Valid() && keyBuffer.items == Kept(old(keyBuffer.items), Releases(input))
      ensures forall x :: x in keyBuffer.items <==> x in old(keyBuffer.items) && x.key != input
    {
      ReleasedEntries(keyBuffer.items, keyBuffer.key, input);
      keyBuffer.EraseIf(Releases(input));
    }

    /**
     * mousePressed, for the button pressed at nowMs: the press is buffered, then counted. atOrigin
     * says the event came at (0, 0); occupied says a chord is held after the press was matched
     * against the actions. The result is what reaches the current tool.
     */
    method MousePressed(b: nat, nowMs: int, atOrigin: bool, occupied: bool) returns (d: Dispatch)
      requires Valid() && InRange(Button(b))
      modifies this, keyBuffer
      ensures Valid()
      ensures Button(b) in old(keyBuffer.keys) ==> keyBuffer.items == old(keyBuffer.items)
      ensures Button(b) !in old(keyBuffer.keys) ==> keyBuffer.items == old(keyBuffer.items) + [KeyPress(Button(b), nowMs)]
      ensures (ClickState(), d) == PressStep(old(ClickState()), nowMs, atOrigin, occupied)
    {
      Buffer(Button(b), nowMs);
      if atOrigin {
        return Nothing;
      }
      var lastTime := lastClickTime;
      lastClickTime := nowMs;
      if lastClickTime - lastTime <= DoubleClickIntervalMs && !mouseMoved && !occupied {
        clickCount := clickCount + 1;
        if clickCount == 2 {
          return DoubleClick;
        } else if clickCount == 3 {
          return TripleClick;
        }
        return Nothing;
      } else {
        clickCount := 1;
        mouseMoved := false;
      }
      d := if occupied then Nothing else ToolPress;
    }

    /** mouseMoved: remembers the move, which ends the click run. */
    method MouseMoved()
      requires Valid()
      modifies this
      ensures Valid() && mouseMoved && lastClickTime == old(lastClickTime) && clickCount == old(clickCount)
    {
      mouseMoved := true;
    }

    /** mouseReleased: removes the buffered press of the released button. */
    method MouseReleased(b: nat)
      requires Valid() && InRange(Button(b))
      modifies keyBuffer
      ensures Valid() && keyBuffer.items == Kept(old(keyBuffer.items), Releases(Button(b)))
      ensures forall x :: x in keyBuffer.items <==> x in old(keyBuffer.items) && x.key != Button(b)
    {
      Release(Button(b));
    }

    /** keyPressed: buffers the key pressed at nowMs. */
    method KeyPressed(k: nat, nowMs: int)
      requires Valid() && InRange(Key(k))
      modifies keyBuffer
      ensures Valid()
      ensures Key(k) in old(keyBuffer.keys) ==> keyBuffer.items == old(keyBuffer.items)
      ensures Key(k) !in old(keyBuffer.keys) ==> keyBuffer.items == old(keyBuffer.items) + [KeyPress(Key(k), nowMs)]
    {
      Buffer(Key(k), nowMs);
    }

    /** keyReleased: ignores auto-repeat; otherwise removes the buffered press of the key. */
    method KeyReleased(k: nat, autoRepeat: bool)
      requires Valid() && InRange(Key(k))
      modifies keyBuffer
      ensures Valid()
      ensures autoRepeat ==> keyBuffer.items == old(keyBuffer.items)
      ensures !autoRepeat ==> keyBuffer.items == Kept(old(keyBuffer.items), Releases(Key(k)))
    {
      if autoRepeat {
        return;
      }
      Release(Key(k));
    }

    /** satisfiesKeys on the key buffer, with the default window unless one is given; the buffer is left alone. */
    method SatisfiesKeys(required: seq<Input>, maxGapMs: Option<int> := Some(DefaultKeyInputThresholdMs)) returns (b: bool)
      requires Valid()
      ensures b == Satisfies(required, keyBuffer.items, maxGapMs)
    {
      b := KeyMatch.SatisfiesKeys(required, keyBuffer.items, maxGapMs);
    }
  }
}
