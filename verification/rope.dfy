/**
 The text buffer of a window, modelled as a flat sequence of characters.

 The editor keeps its text in a rope; here the rope is a `seq<char>` and the
 rope queries the window uses (`len_lines`, `line_to_char`,
 `line(i).len_chars()`, `char_to_line`) are functions over it. A line ends
 after a terminator character; the last line is the (possibly empty)
 remainder after the last terminator, so a buffer always has at least one
 line. Everything is phrased over offsets into one sequence, counting
 terminators in a prefix.
 */
module Rope {

  /** The single-character line terminators the window's `is_newline` lists. */
  const Terminator: set<char> :=
    {'\n', '\U{000B}', '\U{000C}', '\r', '\U{0085}', '\U{2028}', '\U{2029}'}

  predicate IsTerminator(c: char) {
    c in Terminator
  }

  /** Number of terminators among the first `k` characters of `s`. */
  function Count(s: seq<char>, k: nat): (r: nat)
    requires k <= |s|
    ensures r <= k
  {
    if k == 0 then 0 else Count(s, k - 1) + (if IsTerminator(s[k - 1]) then 1 else 0)
  }

  /** `len_lines`: one more than the number of terminators. */
  function LineCount(s: seq<char>): (r: nat)
    ensures 1 <= r <= |s| + 1
  {
    Count(s, |s|) + 1
  }

  /** `char_to_line`: the line holding offset `k`, i.e. the number of
      terminators before it (the last line for `k == |s|`). */
  function CharToLine(s: seq<char>, k: nat): (r: nat)
    requires k <= |s|
    ensures r < LineCount(s)
  {
    CountMonotone(s, k, |s|);
    Count(s, k)
  }

  /** The first offset at or after `p` with `i` terminators before it. */
  function FindLineStart(s: seq<char>, i: nat, p: nat): (r: nat)
    requires p <= |s| && Count(s, p) <= i < LineCount(s)
    ensures p <= r <= |s| && Count(s, r) == i
    ensures r > p ==> Count(s, r - 1) < i && IsTerminator(s[r - 1])
    decreases |s| - p
  {
    if Count(s, p) == i then p else FindLineStart(s, i, p + 1)
  }

  /** `line_to_char`: offset of the first character of line `i`. */
  function LineStart(s: seq<char>, i: nat): (r: nat)
    requires i < LineCount(s)
    ensures r <= |s| && Count(s, r) == i
    ensures r == 0 || IsTerminator(s[r - 1])
  {
    FindLineStart(s, i, 0)
  }

  /** The first terminator at or after `p`, or the end of the buffer. */
  function ContentEnd(s: seq<char>, p: nat): (r: nat)
    requires p <= |s|
    ensures p <= r <= |s|
    ensures r == |s| || IsTerminator(s[r])
    ensures forall j :: p <= j < r ==> !IsTerminator(s[j])
    decreases |s| - p
  {
    if p == |s| || IsTerminator(s[p]) then p else ContentEnd(s, p + 1)
  }

  /** Number of characters of line `i` before its terminator (all of them on the last line). */
  function ContentLen(s: seq<char>, i: nat): (r: nat)
    requires i < LineCount(s)
    ensures LineStart(s, i) + r <= |s|
  {
    ContentEnd(s, LineStart(s, i)) - LineStart(s, i)
  }

  /** `line(i).len_chars()`: the line's characters including its terminator, if it has one. */
  function LineLen(s: seq<char>, i: nat): nat
    requires i < LineCount(s)
  {
    ContentLen(s, i) + (if i + 1 < LineCount(s) then 1 else 0)
  }

  /** `line(i)`: the characters of line `i`, terminator included. */
  function Line(s: seq<char>, i: nat): seq<char>
    requires i < LineCount(s)
  {
    LineLayout(s, i);
    s[LineStart(s, i)..LineStart(s, i) + LineLen(s, i)]
  }

  /** The rightmost column the window's cursor may occupy on line `i`: one less
      than the line length for any non-empty line, whether or not the line ends
      in a terminator. */
  function LastCol(s: seq<char>, i: nat): (r: nat)
    requires i < LineCount(s)
    ensures r <= ContentLen(s, i)
    ensures r <= LineLen(s, i)
    ensures LineLen(s, i) > 0 ==> r == LineLen(s, i) - 1
  {
    if LineLen(s, i) > 0 then LineLen(s, i) - 1 else 0
  }

  /** `insert_char(p, c)`. */
  function InsertAt(s: seq<char>, p: nat, c: char): (r: seq<char>)
    requires p <= |s|
    ensures |r| == |s| + 1 && r[p] == c
    ensures forall j :: 0 <= j < p ==> r[j] == s[j]
    ensures forall j :: p < j < |r| ==> r[j] == s[j - 1]
  {
    s[..p] + [c] + s[p..]
  }

  /** `remove(p..p + 1)`. */
  function RemoveAt(s: seq<char>, p: nat): (r: seq<char>)
    requires p < |s|
    ensures |r| == |s| - 1
    ensures forall j :: 0 <= j < p ==> r[j] == s[j]
    ensures forall j :: p <= j < |r| ==> r[j] == s[j + 1]
  {
    s[..p] + s[p + 1..]
  }

  // ---------------------------------------------------------------------------
  // Counting terminators

  lemma {:induction false} CountMonotone(s: seq<char>, a: nat, b: nat)
    requires a <= b <= |s|
    ensures Count(s, a) <= Count(s, b) <= Count(s, a) + (b - a)
    decreases b
  {
    if a < b {
      CountMonotone(s, a, b - 1);
    }
  }

  /** A stretch without terminators does not change the count. */
  lemma {:induction false} CountFlat(s: seq<char>, a: nat, b: nat)
    requires a <= b <= |s|
    requires forall j :: a <= j < b ==> !IsTerminator(s[j])
    ensures Count(s, b) == Count(s, a)
    decreases b
  {
    if a < b {
      CountFlat(s, a, b - 1);
    }
  }

  /** Counts over a common prefix agree. */
  lemma {:induction false} CountPrefix(s: seq<char>, t: seq<char>, k: nat)
    requires k <= |s| && k <= |t|
    requires forall j :: 0 <= j < k ==> s[j] == t[j]
    ensures Count(s, k) == Count(t, k)
    decreases k
  {
    if k > 0 {
      CountPrefix(s, t, k - 1);
    }
  }

  /** After inserting `c` at `p`, every prefix reaching past `p` holds one more
      terminator exactly when `c` is one. */
  lemma {:induction false} CountInsert(s: seq<char>, p: nat, c: char, k: nat)
    requires p <= k <= |s|
    ensures Count(InsertAt(s, p, c), k + 1) == Count(s, k) + (if IsTerminator(c) then 1 else 0)
    decreases k
  {
    var t := InsertAt(s, p, c);
    if k == p {
      CountPrefix(s, t, p);
    } else {
      CountInsert(s, p, c, k - 1);
      assert t[k] == s[k - 1];
    }
  }

  /** After removing the character at `p`, every prefix reaching past `p` holds
      one terminator fewer exactly when that character was one. */
  lemma {:induction false} CountRemove(s: seq<char>, p: nat, k: nat)
    requires p <= k < |s|
    ensures Count(RemoveAt(s, p), k) + (if IsTerminator(s[p]) then 1 else 0) == Count(s, k + 1)
    decreases k
  {
    var t := RemoveAt(s, p);
    if k == p {
      CountPrefix(s, t, p);
    } else {
      CountRemove(s, p, k - 1);
      assert t[k - 1] == s[k];
    }
  }

  lemma LineCountInsert(s: seq<char>, p: nat, c: char)
    requires p <= |s|
    ensures LineCount(InsertAt(s, p, c)) == LineCount(s) + (if IsTerminator(c) then 1 else 0)
  {
    CountInsert(s, p, c, |s|);
  }

  lemma LineCountRemove(s: seq<char>, p: nat)
    requires p < |s|
    ensures LineCount(RemoveAt(s, p)) + (if IsTerminator(s[p]) then 1 else 0) == LineCount(s)
  {
    CountRemove(s, p, |s| - 1);
  }

  // ---------------------------------------------------------------------------
  // Line layout

  /** `FindLineStart` returns the first offset from `p` on with `i` terminators before it. */
  lemma {:induction false} FindLineStartFirst(s: seq<char>, i: nat, p: nat, q: nat)
    requires p <= |s| && Count(s, p) <= i < LineCount(s)
    requires p <= q < FindLineStart(s, i, p)
    ensures Count(s, q) < i
    decreases |s| - p
  {
    if q > p {
      FindLineStartFirst(s, i, p + 1, q);
    }
  }

  /** Offsets before the start of line `i` have fewer than `i` terminators before them. */
  lemma BeforeLineStart(s: seq<char>, i: nat, q: nat)
    requires i < LineCount(s)
    requires q < LineStart(s, i)
    ensures Count(s, q) < i
  {
    FindLineStartFirst(s, i, 0, q);
  }

  /** An offset that is zero or just after a terminator, with `i` terminators
      before it, is where line `i` starts. */
  lemma LineStartUnique(s: seq<char>, i: nat, q: nat)
    requires q <= |s| && Count(s, q) == i
    requires q == 0 || IsTerminator(s[q - 1])
    ensures i < LineCount(s) && LineStart(s, i) == q
  {
    CountMonotone(s, q, |s|);
    var r := LineStart(s, i);
    if r < q {
      CountMonotone(s, r, q - 1);
    } else if q < r {
      BeforeLineStart(s, i, q);
    }
  }

  /** Each non-last line is its content followed by one terminator and is
      immediately followed by the next line. */
  lemma NextLine(s: seq<char>, i: nat)
    requires i + 1 < LineCount(s)
    ensures LineStart(s, i + 1) == LineStart(s, i) + ContentLen(s, i) + 1
    ensures IsTerminator(s[LineStart(s, i) + ContentLen(s, i)])
  {
    var e := ContentEnd(s, LineStart(s, i));
    CountFlat(s, LineStart(s, i), e);
    if e == |s| {
      assert false;
    }
    LineStartUnique(s, i + 1, e + 1);
  }

  /** The last line runs to the end of the buffer. */
  lemma LastLine(s: seq<char>, i: nat)
    requires i + 1 == LineCount(s)
    ensures LineStart(s, i) + ContentLen(s, i) == |s|
  {
    var e := ContentEnd(s, LineStart(s, i));
    CountFlat(s, LineStart(s, i), e);
    if e < |s| {
      CountMonotone(s, e + 1, |s|);
    }
  }

  /** Lines tile the buffer. */
  lemma LineLayout(s: seq<char>, i: nat)
    requires i < LineCount(s)
    ensures LineStart(s, i) + LineLen(s, i) <= |s|
    ensures i + 1 < LineCount(s) ==>
              LineStart(s, i + 1) == LineStart(s, i) + LineLen(s, i)
              && IsTerminator(s[LineStart(s, i) + ContentLen(s, i)])
    ensures i + 1 == LineCount(s) ==> LineStart(s, i) + LineLen(s, i) == |s|
  {
    if i + 1 < LineCount(s) {
      NextLine(s, i);
    } else {
      LastLine(s, i);
    }
  }

  /** Every offset from the start of line `i` to the end of its content lies on line `i`. */
  lemma CharToLineWithin(s: seq<char>, i: nat, m: nat)
    requires i < LineCount(s)
    requires m <= ContentLen(s, i)
    ensures CharToLine(s, LineStart(s, i) + m) == i
  {
    CountFlat(s, LineStart(s, i), LineStart(s, i) + m);
  }

  /** Every offset lies between the start and the content end of the line `CharToLine` names. */
  lemma CharToLineBounds(s: seq<char>, k: nat)
    requires k <= |s|
    ensures LineStart(s, CharToLine(s, k)) <= k
    ensures k <= LineStart(s, CharToLine(s, k)) + ContentLen(s, CharToLine(s, k))
  {
    var j := CharToLine(s, k);
    var r := LineStart(s, j);
    var e := ContentEnd(s, r);
    CountFlat(s, r, e);
    if k < r {
      BeforeLineStart(s, j, k);
    }
    if k > e {
      CountMonotone(s, e + 1, k);
    }
  }

  /** The character before a line start (other than the first) is the previous line's terminator. */
  lemma TerminatorBeforeLine(s: seq<char>, i: nat)
    requires 0 < i < LineCount(s)
    ensures LineStart(s, i) - 1 == LineStart(s, i - 1) + ContentLen(s, i - 1)
    ensures IsTerminator(s[LineStart(s, i) - 1])
    ensures CharToLine(s, LineStart(s, i) - 1) == i - 1
  {
    var h := i - 1;
    NextLine(s, h);
    var k := LineStart(s, h) + ContentLen(s, h);
    assert k == LineStart(s, i) - 1;
    CharToLineWithin(s, h, ContentLen(s, h));
    assert CharToLine(s, k) == h;
  }

  /** Line starts depend only on the text before them: an edit at or after
      line `i`'s start leaves that start where it was. */
  lemma LineStartOfPrefix(s: seq<char>, t: seq<char>, i: nat)
    requires i < LineCount(s)
    requires LineStart(s, i) <= |t|
    requires forall j :: 0 <= j < LineStart(s, i) ==> t[j] == s[j]
    ensures i < LineCount(t) && LineStart(t, i) == LineStart(s, i)
  {
    var p := LineStart(s, i);
    CountPrefix(s, t, p);
    if p > 0 {
      assert t[p - 1] == s[p - 1];
    }
    LineStartUnique(t, i, p);
  }

  // ---------------------------------------------------------------------------
  // Edits undo each other

  /** Removing the character just inserted gives the buffer back. */
  lemma RemoveAfterInsert(s: seq<char>, p: nat, c: char)
    requires p <= |s|
    ensures RemoveAt(InsertAt(s, p, c), p) == s
  {
    var t := RemoveAt(InsertAt(s, p, c), p);
    assert |t| == |s|;
    forall j | 0 <= j < |s|
      ensures t[j] == s[j]
    {
    }
  }

  // ---------------------------------------------------------------------------
  // Edits inside one line

  /** `ContentEnd` is the first terminator (or the end) at or after `p`. */
  lemma {:induction false} ContentEndUnique(s: seq<char>, p: nat, q: nat)
    requires p <= q <= |s|
    requires forall j :: p <= j < q ==> !IsTerminator(s[j])
    requires q == |s| || IsTerminator(s[q])
    ensures ContentEnd(s, p) == q
    decreases q - p
  {
    if p < q {
      ContentEndUnique(s, p + 1, q);
    }
  }

  /** Inserting an ordinary character into line `i`, anywhere from its start
      to the end of its content, lengthens that line's content by one and
      leaves where it starts alone. */
  lemma InsertInLine(s: seq<char>, i: nat, p: nat, c: char)
    requires i < LineCount(s) && LineStart(s, i) <= p <= LineStart(s, i) + ContentLen(s, i)
    requires !IsTerminator(c)
    ensures p <= |s|
    ensures i < LineCount(InsertAt(s, p, c))
    ensures LineStart(InsertAt(s, p, c), i) == LineStart(s, i)
    ensures ContentLen(InsertAt(s, p, c), i) == ContentLen(s, i) + 1
  {
    var a := LineStart(s, i);
    var e := ContentEnd(s, a);
    var t := InsertAt(s, p, c);
    LineStartOfPrefix(s, t, i);
    InsertKeepsFlat(s, p, c, a, e);
    ContentEndUnique(t, a, e + 1);
  }

  /** An ordinary character inserted into a stretch without terminators
      lengthens the stretch by one, up to the same terminator (or the end). */
  lemma InsertKeepsFlat(s: seq<char>, p: nat, c: char, a: nat, e: nat)
    requires a <= p <= e <= |s| && !IsTerminator(c)
    requires forall j :: a <= j < e ==> !IsTerminator(s[j])
    requires e == |s| || IsTerminator(s[e])
    ensures forall j :: a <= j < e + 1 ==> !IsTerminator(InsertAt(s, p, c)[j])
    ensures e + 1 == |InsertAt(s, p, c)| || IsTerminator(InsertAt(s, p, c)[e + 1])
  {
    var t := InsertAt(s, p, c);
    forall j | a <= j < e + 1
      ensures !IsTerminator(t[j])
    {
      if j > p {
        assert t[j] == s[j - 1];
      }
    }
    if e < |s| {
      assert t[e + 1] == s[e];
    }
  }

  /** Inserting a terminator into line `i` ends the line there: the next line
      starts just after it. */
  lemma InsertBreak(s: seq<char>, i: nat, p: nat, c: char)
    requires i < LineCount(s) && LineStart(s, i) <= p <= LineStart(s, i) + ContentLen(s, i)
    requires IsTerminator(c)
    ensures p <= |s|
    ensures i + 1 < LineCount(InsertAt(s, p, c))
    ensures LineStart(InsertAt(s, p, c), i) == LineStart(s, i)
    ensures LineStart(InsertAt(s, p, c), i + 1) == p + 1
    ensures ContentLen(InsertAt(s, p, c), i) == p - LineStart(s, i)
  {
    var a := LineStart(s, i);
    var t := InsertAt(s, p, c);
    LineStartOfPrefix(s, t, i);
    CharToLineWithin(s, i, p - a);
    CountInsert(s, p, c, p);
    LineStartUnique(t, i + 1, p + 1);
    ContentEndUnique(t, a, p);
  }

  /** Removing a content character of line `i` keeps its offset on line `i`
      and leaves where the line starts alone. */
  lemma RemoveInLine(s: seq<char>, i: nat, k: nat)
    requires i < LineCount(s)
    requires LineStart(s, i) <= k < LineStart(s, i) + ContentLen(s, i)
    ensures k < |s| && !IsTerminator(s[k])
    ensures CharToLine(RemoveAt(s, k), k) == i
    ensures LineCount(RemoveAt(s, k)) == LineCount(s)
    ensures LineStart(RemoveAt(s, k), i) == LineStart(s, i)
    ensures ContentLen(RemoveAt(s, k), i) + 1 == ContentLen(s, i)
  {
    var a := LineStart(s, i);
    var e := ContentEnd(s, a);
    var t := RemoveAt(s, k);
    LineStartOfPrefix(s, t, i);
    CountPrefix(s, t, k);
    CharToLineWithin(s, i, k - a);
    LineCountRemove(s, k);
    RemoveKeepsFlat(s, k, a, e);
    ContentEndUnique(t, a, e - 1);
  }

  /** Removing a character from a stretch without terminators shortens the
      stretch by one, up to the same terminator (or the end). */
  lemma RemoveKeepsFlat(s: seq<char>, k: nat, a: nat, e: nat)
    requires a <= k < e <= |s|
    requires forall j :: a <= j < e ==> !IsTerminator(s[j])
    requires e == |s| || IsTerminator(s[e])
    ensures forall j :: a <= j < e - 1 ==> !IsTerminator(RemoveAt(s, k)[j])
    ensures e - 1 == |RemoveAt(s, k)| || IsTerminator(RemoveAt(s, k)[e - 1])
  {
    var t := RemoveAt(s, k);
    forall j | a <= j < e - 1
      ensures !IsTerminator(t[j])
    {
      if j >= k {
        assert t[j] == s[j + 1];
      }
    }
    if e < |s| {
      assert t[e - 1] == s[e];
    }
  }

  /** Removing the terminator before line `i` joins it to line `i - 1`: the
      offset of the removed terminator now lies on line `i - 1`. */
  lemma RemoveLineBreak(s: seq<char>, i: nat, k: nat)
    requires 0 < i < LineCount(s) && k + 1 == LineStart(s, i)
    ensures k == LineStart(s, i - 1) + ContentLen(s, i - 1)
    ensures IsTerminator(s[k])
    ensures LineCount(RemoveAt(s, k)) + 1 == LineCount(s)
    ensures CharToLine(RemoveAt(s, k), k) == i - 1
    ensures LineStart(RemoveAt(s, k), i - 1) == LineStart(s, i - 1)
  {
    TerminatorBeforeLine(s, i);
    var t := RemoveAt(s, k);
    CountRemove(s, k, k);
    LineCountRemove(s, k);
    LineStartOfPrefix(s, t, i - 1);
  }

  /** Removing a character at or after the start of line `i` keeps line `i`
      and its start. */
  lemma RemoveAfterLineStart(s: seq<char>, i: nat, k: nat)
    requires i < LineCount(s) && LineStart(s, i) <= k < |s|
    ensures i < LineCount(RemoveAt(s, k))
    ensures LineStart(RemoveAt(s, k), i) == LineStart(s, i)
  {
    LineStartOfPrefix(s, RemoveAt(s, k), i);
  }
}
