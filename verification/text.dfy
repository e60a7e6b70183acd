/**
 * TextItem editing: the text of a text box as a sequence of characters, a caret between
 * characters, and a selection given by a start and an end index, either of which may be INVALID
 * (-1). The QString primitives the item calls (lastIndexOf, indexOf, mid, insert) are modelled
 * with Qt's rules for negative and out-of-range arguments. Font metrics and the bounding box are
 * not part of this model.
 */
module TextItems {

  /** TextItem::INVALID */
  const Invalid: int := -1

  /** The word separators: ASCII whitespace and punctuation. */
  const WordSeparators: seq<char> := [
    '\t', '\n', '\U{B}', '\U{C}', '\r', ' ',
    '!', '\"', '#', '$', '%', '&', '\'', '(', ')', '*', '+', ',', '-', '.', '/', ':',
    ';', '<', '=', '>', '?', '@', '[', '\\', ']', '^', '_', '`', '{', '|', '}', '~']

  /** A separator by character code: the list above is the control characters 9 to 13, the space and the punctuation ranges of ASCII. */
  predicate IsSeparator(c: char)
  {
    var n := c as int;
    9 <= n <= 13 || 32 <= n <= 47 || 58 <= n <= 64 || 91 <= n <= 96 || 123 <= n <= 126
  }

  /** The code ranges are exactly the listed separators. */
  lemma SeparatorsByCode(c: char)
    ensures IsSeparator(c) <==> c in WordSeparators
  {
  }

  function Min(a: int, b: int): int { if a <= b then a else b }
  function Max(a: int, b: int): int { if a <= b then b else a }

  // ---- the QString primitives ----

  /** The last index at or below i that holds c, or -1. */
  function LastAtOrBefore(s: string, c: char, i: int): (r: int)
    requires i < |s|
    ensures r == -1 || (0 <= r <= i && s[r] == c)
    ensures forall k | r < k <= i && 0 <= k :: s[k] != c
    decreases i + 1
  {
    if i < 0 then -1 else if s[i] == c then i else LastAtOrBefore(s, c, i - 1)
  }

  /** Where lastIndexOf starts: a negative start counts from the end, one past the end is clamped. */
  function BackStart(from: int, n: int): int
  {
    if from < 0 then from + n else if from >= n then n - 1 else from
  }

  /** QString::lastIndexOf for one character. */
  function LastIndexOf(s: string, c: char, from: int): (r: int)
    ensures r == -1 || (0 <= r <= BackStart(from, |s|) && r < |s| && s[r] == c)
    ensures forall k | r < k <= BackStart(from, |s|) && 0 <= k :: s[k] != c
  {
    LastAtOrBefore(s, c, BackStart(from, |s|))
  }

  /** The first index at or above i that holds c, or -1. */
  function FirstAtOrAfter(s: string, c: char, i: nat): (r: int)
    ensures r == -1 || (i <= r < |s| && s[r] == c)
    ensures forall k | i <= k < (if r == -1 then |s| else r) :: s[k] != c
    decreases |s| - i
  {
    if i >= |s| then -1 else if s[i] == c then i else FirstAtOrAfter(s, c, i + 1)
  }

  /** Where indexOf starts: a negative start counts from the end, and at least 0. */
  function ForwardStart(from: int, n: int): nat
  {
    if from >= 0 then from else if from + n < 0 then 0 else from + n
  }

  /** QString::indexOf for one character. */
  function IndexOf(s: string, c: char, from: int): (r: int)
    ensures r == -1 || (ForwardStart(from, |s|) <= r < |s| && s[r] == c)
    ensures forall k | ForwardStart(from, |s|) <= k < (if r == -1 then |s| else r) :: s[k] != c
  {
    FirstAtOrAfter(s, c, ForwardStart(from, |s|))
  }

  /**
   * QString::mid(pos, n): the n characters from pos; a negative n, or one reaching past the end,
   * means "to the end"; a negative pos first shortens n by the characters before the start.
   */
  function Mid(s: string, pos: int, n: int): (r: string)
    ensures 0 <= pos <= |s| && 0 <= n ==> r == s[pos..Min(pos + n, |s|)]
    ensures 0 <= pos <= |s| && n < 0 ==> r == s[pos..]
    ensures pos > |s| ==> r == []
    ensures |r| <= |s|
  {
    if pos > |s| then []
    else if pos < 0 then
      (if n < 0 || n + pos >= |s| then s else if n + pos <= 0 then [] else s[..n + pos])
    else if n < 0 || n > |s| - pos then s[pos..]
    else s[pos..pos + n]
  }

  /** QString::insert(i, s): at a position past the end the text is first padded with spaces. */
  function Inserted(t: string, i: nat, s: string): (r: string)
    ensures |r| == Max(|t|, i) + |s| && r[i..i + |s|] == s
    ensures i <= |t| ==> r[..i] == t[..i] && r[i + |s|..] == t[i..]
    ensures i > |t| ==> r[..|t|] == t && forall k | |t| <= k < i :: r[k] == ' '
  {
    var padded := if i > |t| then t + seq(i - |t|, _ => ' ') else t;
    padded[..i] + s + padded[i..]
  }

  /**
   * deleteSubStr(a, b): nothing unless both indices lie in [0, |t|); then the inclusive range
   * between them, in either order, is erased.
   */
  function Erased(t: string, a: int, b: int): (r: string)
    ensures !(0 <= a < |t| && 0 <= b < |t|) ==> r == t
    ensures 0 <= a < |t| && 0 <= b < |t| ==>
      |r| == |t| - (Max(a, b) - Min(a, b) + 1) && r[..Min(a, b)] == t[..Min(a, b)] && r[Min(a, b)..] == t[Max(a, b) + 1..]
  {
    if !(0 <= a < |t| && 0 <= b < |t|) then t
    else t[..Min(a, b)] + t[Max(a, b) + 1..]
  }

  /** Erasing what was just inserted at a position inside the text gives the text back. */
  lemma InsertThenErase(t: string, i: nat, s: string)
    requires i <= |t| && s != []
    ensures Erased(Inserted(t, i, s), i, i + |s| - 1) == t
  {
    var r := Inserted(t, i, s);
    assert r == t[..i] + s + t[i..];
    assert r[..i] + r[i + |s|..] == t;
  }

  /** deleteSubStr does not care in which order its two indices come. */
  lemma ErasedSymmetric(t: string, a: int, b: int)
    ensures Erased(t, a, b) == Erased(t, b, a)
  {
  }

  // ---- the caret's column ----

  /**
   * setCaret's caretPosInLine: the caret minus the index of the last newline before it. At the
   * start of the text the search starts at index -1, which QString reads as the last character.
   */
  function PosInLine(t: string, caret: int): int
  {
    caret - LastIndexOf(t, '\n', caret - 1)
  }

  /**
   * Inside the text the column is at least 1; the characters between the line's newline (or the
   * text's start) and the caret hold no newline.
   */
  lemma PosInLineCounts(t: string, caret: int)
    requires 1 <= caret <= |t|
    ensures var p := PosInLine(t, caret);
      1 <= p <= caret + 1 && (p == caret + 1 || t[caret - p] == '\n') &&
      forall k | caret - p < k < caret :: t[k] != '\n'
  {
  }

  /**
   * At the start of a text that holds a newline, the search wraps around to the text's last
   * newline, so the column is not positive.
   */
  lemma PosInLineAtStart(t: string, k: int)
    requires 0 <= k < |t| && t[k] == '\n'
    ensures PosInLine(t, 0) <= -k
  {
  }

  // ---- lines ----

  /** The indices of the newlines of s, in increasing order. */
  function Newlines(s: string): (ns: seq<nat>)
    ensures |ns| <= |s|
  {
    if s == [] then []
    else Newlines(s[..|s| - 1]) + (if s[|s| - 1] == '\n' then [|s| - 1] else [])
  }

  /** Newlines lists exactly the newline positions, each once, in increasing order. */
  lemma {:induction false} NewlinesExact(s: string)
    ensures forall k | 0 <= k < |Newlines(s)| :: Newlines(s)[k] < |s| && s[Newlines(s)[k]] == '\n'
    ensures forall k, m | 0 <= k < m < |Newlines(s)| :: Newlines(s)[k] < Newlines(s)[m]
    ensures forall i | 0 <= i < |s| && s[i] == '\n' :: i in Newlines(s)
  {
    if s != [] {
      var t := s[..|s| - 1];
      NewlinesExact(t);
      var nt := Newlines(t);
      var ns := Newlines(s);
      assert ns == nt + (if s[|s| - 1] == '\n' then [|s| - 1] else []);
      forall k | 0 <= k < |nt| ensures nt[k] < |t| && ns[k] == nt[k] && s[nt[k]] == '\n' {
        assert t[nt[k]] == '\n';
      }
      if s[|s| - 1] == '\n' {
        assert ns[|nt|] == |s| - 1;
      }
    }
  }

  /** The newlines of a prefix are a prefix of the newlines: those below its length. */
  lemma {:induction false} NewlinesPrefix(s: string, j: nat)
    requires j <= |s|
    ensures var ns, ps := Newlines(s), Newlines(s[..j]);
      |ps| <= |ns| && ps == ns[..|ps|] &&
      (forall k | 0 <= k < |ps| :: ns[k] < j) && (forall k | |ps| <= k < |ns| :: ns[k] >= j)
    decreases |s|
  {
    if j < |s| {
      var t := s[..|s| - 1];
      assert t[..j] == s[..j];
      NewlinesPrefix(t, j);
      NewlinesExact(t);
    } else {
      assert s[..j] == s;
      NewlinesExact(s);
    }
  }

  /** The index just after the last of the given newlines, or 0 when there is none. */
  function After(ns: seq<nat>): nat
  {
    if ns == [] then 0 else ns[|ns| - 1] + 1
  }

  /**
   * getLineRange(lineNumber)'s start: just after the (lineNumber-1)-th newline; for a line number
   * below 1 or past the last line, just after the last newline.
   */
  function LineStart(t: string, lineNumber: int): nat
  {
    var ns := Newlines(t);
    if 1 <= lineNumber <= |ns| + 1 then After(ns[..lineNumber - 1]) else After(ns)
  }

  /** Line n starts at the text's start or right after a newline, with n-1 newlines before it. */
  lemma LineStartCounts(t: string, n: int)
    requires 1 <= n <= |Newlines(t)| + 1
    ensures var st := LineStart(t, n);
      st <= |t| && (st == 0 || t[st - 1] == '\n') && |Newlines(t[..st])| == n - 1
  {
    var ns := Newlines(t);
    NewlinesExact(t);
    var st := LineStart(t, n);
    NewlinesPrefix(t, st);
    var ps := Newlines(t[..st]);
    if n > 1 {
      assert st == ns[n - 2] + 1;
      if n - 1 < |ns| {
        assert ns[n - 2] < ns[n - 1];
      }
    } else {
      assert t[..0] == [];
    }
  }

  // ---- the selection as written and as intended ----

  /** hasSelection: start and end differ and neither is INVALID. */
  predicate HasSelectionOf(selStart: int, selEnd: int)
  {
    selStart != selEnd && selStart != Invalid && selEnd != Invalid
  }

  /** selectedText as written: mid(min(start, end), end - start + 1). */
  function SelectedTextOf(t: string, selStart: int, selEnd: int): (r: string)
    ensures !HasSelectionOf(selStart, selEnd) ==> r == []
    ensures |r| <= |t|
  {
    if !HasSelectionOf(selStart, selEnd) then [] else Mid(t, Min(selStart, selEnd), selEnd - selStart + 1)
  }

  /** The selected characters as deleteSelection removes them: those from min up to, not including, max. */
  function SelectionOf(t: string, selStart: int, selEnd: int): (r: string)
    ensures !HasSelectionOf(selStart, selEnd) ==> r == []
    ensures HasSelectionOf(selStart, selEnd) && 0 <= Min(selStart, selEnd) && Max(selStart, selEnd) <= |t| ==>
      r == t[Min(selStart, selEnd)..Max(selStart, selEnd)]
  {
    if !HasSelectionOf(selStart, selEnd) then []
    else Mid(t, Min(selStart, selEnd), Max(selStart, selEnd) - Min(selStart, selEnd))
  }

  /** Forward selection: selectedText has one character more than the selection. */
  lemma SelectedTextForward(t: string, selStart: nat, selEnd: nat)
    requires selStart < selEnd < |t|
    ensures SelectedTextOf(t, selStart, selEnd) == SelectionOf(t, selStart, selEnd) + [t[selEnd]]
  {
  }

  /**
   * Backward selection: selectedText is empty when the ends are adjacent and otherwise runs to
   * the end of the text.
   */
  lemma SelectedTextBackward(t: string, selStart: nat, selEnd: nat)
    requires selEnd < selStart <= |t|
    ensures selStart == selEnd + 1 ==> SelectedTextOf(t, selStart, selEnd) == []
    ensures selStart > selEnd + 1 ==> SelectedTextOf(t, selStart, selEnd) == t[selEnd..]
  {
  }

  /** On "abcd" with the selection from 0 to 2, selectedText is "abc" while "ab" is what is selected. */
  lemma SelectedTextOneTooMany()
    ensures SelectedTextOf("abcd", 0, 2) == "abc" && SelectionOf("abcd", 0, 2) == "ab"
  {
    SelectedTextForward("abcd", 0, 2);
  }

  /**
   * For a selection within the text, deleteSelection's erase removes exactly SelectionOf: the old
   * text is the new one with the selection put back at min.
   */
  lemma SelectionIsWhatIsDeleted(t: string, selStart: int, selEnd: int)
    requires HasSelectionOf(selStart, selEnd) && 0 <= Min(selStart, selEnd) && Max(selStart, selEnd) <= |t|
    ensures var lo, r := Min(selStart, selEnd), Erased(t, Min(selStart, selEnd), Max(selStart, selEnd) - 1);
      lo <= |r| && t == r[..lo] + SelectionOf(t, selStart, selEnd) + r[lo..]
  {
    var lo, hi := Min(selStart, selEnd), Max(selStart, selEnd);
    assert t == t[..lo] + t[lo..hi] + t[hi..];
  }

  // ---- word breaks ----

  /** In [lo, hi] the characters form a run of non-separators followed by a run of separators. */
  ghost predicate WordThenSeparators(t: string, lo: int, hi: int)
    requires 0 <= lo && hi < |t|
  {
    forall a, b | lo <= a < b <= hi :: IsSeparator(t[a]) ==> IsSeparator(t[b])
  }

  /** A run of non-separators up to p and of separators after it forms a word then separators. */
  lemma RunsMakeWord(t: string, r: int, p: int, hi: int)
    requires 0 <= r <= p <= hi < |t|
    requires forall k | r <= k < p :: !IsSeparator(t[k])
    requires !IsSeparator(t[p]) || r == p
    requires forall k | p < k <= hi :: IsSeparator(t[k])
    ensures WordThenSeparators(t, r, hi)
  {
  }

  // ---- the item ----

  class TextItem {
    var text: string          // m_text
    var caret: int            // m_caretIndex
    var selStart: int         // m_selectionStart
    var selEnd: int           // m_selectionEnd
    var caretPosInLine: int   // m_caretPosInLine

    /** The caret is never negative: setCaret refuses negative indices. */
    ghost predicate Valid()
      reads this
    {
      0 <= caret
    }

    /** A new text item: empty, caret at 0, no selection. */
    constructor ()
      ensures Valid() && text == [] && caret == 0 && selStart == Invalid && selEnd == Invalid
    {
      text, caret := [], 0;
      selStart, selEnd := Invalid, Invalid;
      caretPosInLine := 0;
    }

    /**
     * setCaret(index): an index outside [0, |text|] is ignored; otherwise the caret moves there,
     * the selection collapses to start at it, and the column is recomputed when asked.
     */
    method SetCaret(index: int, updatePosInLine: bool)
      requires Valid()
      modifies this
      ensures Valid() && text == old(text)
      ensures index < 0 || index > |text| ==>
        caret == old(caret) && selStart == old(selStart) && selEnd == old(selEnd) && caretPosInLine == old(caretPosInLine)
      ensures 0 <= index <= |text| ==>
        caret == index && selStart == index && selEnd == Invalid &&
        caretPosInLine == if updatePosInLine then PosInLine(text, index) else old(caretPosInLine)
    {
      if index < 0 || index > |text| {
        return;
      }
      selStart := index;
      selEnd := Invalid;
      caret := index;
      if updatePosInLine {
        var firstCharOfCurLine := LastIndexOf(text, '\n', caret - 1);
        caretPosInLine := caret - firstCharOfCurLine;
      }
    }

    /**
     * hasSelection: the two ends differ and both are set, so a selection that lies inside the text
     * covers at least one character.
     */
    predicate HasSelection(): (b: bool)
      reads this
      ensures b ==> selStart != Invalid && selEnd != Invalid
      ensures b && 0 <= Min(selStart, selEnd) && Max(selStart, selEnd) <= |text| ==>
                |SelectionOf(text, selStart, selEnd)| >= 1
    {
      HasSelectionOf(selStart, selEnd)
    }

    function SelectedText(): (r: string)
      reads this
      ensures !HasSelection() ==> r == []
      ensures HasSelection() && 0 <= selStart < selEnd < |text| ==> r == text[selStart..selEnd + 1]
    {
      SelectedTextOf(text, selStart, selEnd)
    }

    /**
     * insertText(s): nothing for an empty s; otherwise s goes in at the caret and the caret moves
     * past it, collapsing the selection.
     */
    method InsertText(s: string)
      requires Valid()
      modifies this
      ensures Valid()
      ensures s == [] ==> text == old(text) && caret == old(caret) && selStart == old(selStart) && selEnd == old(selEnd)
      ensures s != [] ==>
        text == Inserted(old(text), old(caret), s) && caret == old(caret) + |s| &&
        selStart == caret && selEnd == Invalid && caretPosInLine == PosInLine(text, caret)
    {
      if s == [] {
        return;
      }
      var cur := caret;
      text := Inserted(text, cur, s);
      SetCaret(cur + |s|, true);
    }

    /** deleteSubStr(a, b): erases the inclusive range when both ends lie inside the text. */
    method DeleteSubStr(a: int, b: int)
      requires Valid()
      modifies this
      ensures Valid() && text == Erased(old(text), a, b)
      ensures caret == old(caret) && selStart == old(selStart) && selEnd == old(selEnd) && caretPosInLine == old(caretPosInLine)
    {
      text := Erased(text, a, b);
    }

    /**
     * deleteSelection: without a selection nothing happens. Otherwise the selection is cleared,
     * the characters from min up to max-1 are erased (if both lie inside the text) and the caret
     * is set to min.
     */
    method DeleteSelection()
      requires Valid()
      modifies this
      ensures Valid()
      ensures !old(HasSelection()) ==>
        text == old(text) && caret == old(caret) && selStart == old(selStart) && selEnd == old(selEnd)
      ensures old(HasSelection()) ==>
        var lo, hi := Min(old(selStart), old(selEnd)), Max(old(selStart), old(selEnd));
        text == Erased(old(text), lo, hi - 1) &&
        (0 <= lo <= |text| ==> caret == lo && selStart == lo && selEnd == Invalid && caretPosInLine == PosInLine(text, lo)) &&
        (!(0 <= lo <= |text|) ==> caret == old(caret) && selStart == Invalid && selEnd == Invalid)
    {
      if !HasSelection() {
        return;
      }
      var lo, hi := selStart, selEnd;
      if lo > hi {
        lo, hi := hi, lo;
      }
      selStart, selEnd := Invalid, Invalid;
      DeleteSubStr(lo, hi - 1);
      SetCaret(lo, true);
    }

    /**
     * getLineRange(position): the index of the last newline before the position (the newline's
     * own index, not the line's first character), or 0; and the first newline at or after the
     * position, or the last index.
     */
    function LineRangeAt(position: int): (r: (int, int))
      reads this
      ensures 0 <= position <= |text| ==>
        0 <= r.0 && (r.0 == 0 || (r.0 < position && text[r.0] == '\n')) &&
        forall k | r.0 < k < position :: text[k] != '\n'
      ensures 0 <= position ==>
        (r.1 == |text| - 1 || (position <= r.1 < |text| && text[r.1] == '\n')) &&
        forall k | position <= k < r.1 :: text[k] != '\n'
    {
      var start := LastIndexOf(text, '\n', position - 1);
      var end := IndexOf(text, '\n', position);
      (if start == -1 || position == 0 then 0 else start, if end == -1 then |text| - 1 else end)
    }

    /**
     * getLineRange(lineNumber): scans for the line's first character, then takes the first newline
     * from there, or the last index, as the end.
     */
    method LineRangeOf(lineNumber: int) returns (start: int, end: int)
      ensures start == LineStart(text, lineNumber)
      ensures end == (var e := IndexOf(text, '\n', start); if e == -1 then |text| - 1 else e)
    {
      var n := lineNumber;
      start := 0;
      var pos := 0;
      while pos < |text|
        invariant 0 <= pos <= |text|
        invariant n == lineNumber - |Newlines(text[..pos])|
        invariant start == After(Newlines(text[..pos]))
        invariant lineNumber >= 1 ==> |Newlines(text[..pos])| <= lineNumber - 1
      {
        if n == 1 {
          break;
        }
        assert text[..pos + 1][..pos] == text[..pos];
        if text[pos] == '\n' {
          start := pos + 1;
          n := n - 1;
        }
        pos := pos + 1;
      }
      NewlinesPrefix(text, pos);
      if pos == |text| {
        assert text[..pos] == text;
      }
      var e := IndexOf(text, '\n', start);
      end := if e == -1 then |text| - 1 else e;
    }

    /**
     * getNextBreak(position): the first index after the position that holds a separator, or the
     * text's length.
     */
    method GetNextBreak(position: int) returns (r: int)
      requires -1 <= position
      ensures r == |text| || (position < r < |text| && IsSeparator(text[r]))
      ensures forall k | position < k < r :: !IsSeparator(text[k])
    {
      var pos := position + 1;
      while pos < |text|
        invariant position + 1 <= pos
        invariant forall k | position < k < pos && k < |text| :: !IsSeparator(text[k])
      {
        if IsSeparator(text[pos]) {
          return pos;
        }
        pos := pos + 1;
      }
      return |text|;
    }

    /**
     * getPrevBreak(position): steps back over separators at the position, then returns the start
     * of the word there: 0, or an index right after a separator. From r to the position the text
     * is that word followed by the separators stepped over.
     */
    method GetPrevBreak(position: int) returns (r: int)
      requires position < |text|
      ensures 0 <= r <= Max(position, 0)
      ensures r == 0 || IsSeparator(text[r - 1])
      ensures r > 0 ==> !IsSeparator(text[r])
      ensures 0 <= position ==> WordThenSeparators(text, r, position)
    {
      var p := position;
      while p > 0 && IsSeparator(text[p])
        invariant p <= position && (0 <= position ==> 0 <= p)
        invariant forall k | p < k <= position && 0 <= k :: IsSeparator(text[k])
      {
        p := p - 1;
      }
      var pos := p - 1;
      while pos >= 0
        invariant pos < p
        invariant forall k | pos < k < p && 0 <= k :: !IsSeparator(text[k])
      {
        if IsSeparator(text[pos]) {
          if 0 <= position {
            RunsMakeWord(text, pos + 1, p, position);
          }
          return pos + 1;
        }
        pos := pos - 1;
      }
      if 0 <= position {
        RunsMakeWord(text, 0, p, position);
      }
      return 0;
    }
  }
}
