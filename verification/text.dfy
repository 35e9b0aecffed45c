/** String primitives of the JavaScript runtime that the binding and the
    coverage checker lean on: `Array.prototype.join`, `String.prototype.split`
    with a one-character separator, `indexOf`, `slice` and `trim`. */
module Text {

  /** Number of occurrences of `c` in `s`. */
  function CountChar(s: string, c: char): nat
  {
    if |s| == 0 then 0 else (if s[0] == c then 1 else 0) + CountChar(s[1..], c)
  }

  lemma CountCharAppend(a: string, b: string, c: char)
    ensures CountChar(a + b, c) == CountChar(a, c) + CountChar(b, c)
  {
    if |a| > 0 {
      assert (a + b)[1..] == a[1..] + b;
      CountCharAppend(a[1..], b, c);
    } else {
      assert a + b == b;
    }
  }

  lemma CountCharZero(s: string, c: char)
    ensures CountChar(s, c) == 0 <==> c !in s
  {
    if |s| > 0 {
      CountCharZero(s[1..], c);
      assert s == [s[0]] + s[1..];
    }
  }

  /** `s.indexOf(c, from)`: the first position at or after `from` holding `c`,
      or -1. A negative `from` searches from the start. */
  function IndexOf(s: string, c: char, from: int): (r: int)
    ensures r == -1 || (0 <= from <= r < |s| || (from < 0 <= r < |s|))
    ensures r == -1 <==> forall k | 0 <= k < |s| && from <= k :: s[k] != c
    ensures r != -1 ==> s[r] == c && forall k | 0 <= k < r && from <= k :: s[k] != c
    decreases |s| - from
  {
    if from < 0 then IndexOf(s, c, 0)
    else if from >= |s| then -1
    else if s[from] == c then from
    else IndexOf(s, c, from + 1)
  }

  /** `s.slice(a, b)` for non-negative bounds: both are clamped to the length,
      and an empty string results when the end does not exceed the start. */
  function Slice(s: string, a: nat, b: nat): (t: string)
    ensures a <= b <= |s| ==> t == s[a..b]
    ensures b <= a ==> t == ""
    ensures |t| <= |s|
  {
    var lo := if a < |s| then a else |s|;
    var hi := if b < |s| then b else |s|;
    if hi <= lo then "" else s[lo..hi]
  }

  /** `cells.join([sep])`; an empty array joins to the empty string. */
  function Join(cells: seq<string>, sep: char): string
  {
    if |cells| == 0 then ""
    else if |cells| == 1 then cells[0]
    else cells[0] + [sep] + Join(cells[1..], sep)
  }

  /** `s.split([sep])`: the pieces between consecutive separators, always at
      least one piece (the empty string splits to `[""]`). */
  function Split(s: string, sep: char): (parts: seq<string>)
    ensures |parts| == CountChar(s, sep) + 1
    ensures forall k | 0 <= k < |parts| :: sep !in parts[k]
    ensures Join(parts, sep) == s
    decreases |s|
  {
    var i := IndexOf(s, sep, 0);
    if i == -1 then
      CountCharZero(s, sep);
      [s]
    else
      var rest := Split(s[i + 1..], sep);
      assert s == s[..i] + [sep] + s[i + 1..];
      CountCharAppend(s[..i] + [sep], s[i + 1..], sep);
      CountCharAppend(s[..i], [sep], sep);
      CountCharZero(s[..i], sep);
      assert sep !in s[..i];
      [s[..i]] + rest
  }

  /** Joining `n` cells puts exactly `n - 1` separators between them, on top
      of any the cells carry themselves. */
  lemma {:induction false} JoinSeparatorCount(cells: seq<string>, sep: char)
    requires |cells| >= 1
    ensures CountChar(Join(cells, sep), sep)
            == |cells| - 1 + SumCount(cells, sep)
  {
    if |cells| == 1 {
      assert SumCount(cells, sep) == CountChar(cells[0], sep) + SumCount(cells[1..], sep);
    } else {
      JoinSeparatorCount(cells[1..], sep);
      CountCharAppend(cells[0] + [sep], Join(cells[1..], sep), sep);
      CountCharAppend(cells[0], [sep], sep);
    }
  }

  /** Total number of `c` across all cells. */
  function SumCount(cells: seq<string>, c: char): nat
  {
    if |cells| == 0 then 0 else CountChar(cells[0], c) + SumCount(cells[1..], c)
  }

  lemma {:induction false} SumCountZero(cells: seq<string>, c: char)
    requires forall k | 0 <= k < |cells| :: c !in cells[k]
    ensures SumCount(cells, c) == 0
  {
    if |cells| > 0 {
      CountCharZero(cells[0], c);
      SumCountZero(cells[1..], c);
    }
  }

  /** Splitting a join recovers the cells, provided there is at least one cell
      and no cell contains the separator. */
  lemma {:induction false} SplitJoin(cells: seq<string>, sep: char)
    requires |cells| >= 1
    requires forall k | 0 <= k < |cells| :: sep !in cells[k]
    ensures Split(Join(cells, sep), sep) == cells
  {
    if |cells| > 1 {
      var s := Join(cells, sep);
      var head := cells[0];
      assert s == head + [sep] + Join(cells[1..], sep);
      var i := IndexOf(s, sep, 0);
      assert s[|head|] == sep;
      assert forall k | 0 <= k < |head| :: s[k] == head[k];
      assert i == |head|;
      assert s[..i] == head;
      assert s[i + 1..] == Join(cells[1..], sep);
      SplitJoin(cells[1..], sep);
    } else {
      var s := cells[0];
      CountCharZero(s, sep);
      assert IndexOf(s, sep, 0) == -1;
    }
  }

  /** The empty list and the single empty cell travel as the same text, so
      the round trip cannot cover zero cells. */
  lemma JoinEmptyAmbiguous(sep: char)
    ensures Join([], sep) == Join([""], sep)
    ensures Split(Join([], sep), sep) == [""]
  {
    assert IndexOf("", sep, 0) == -1;
  }

  /** The characters `String.prototype.trim` and the regular-expression class
      `\s` treat as white space: the ECMAScript WhiteSpace and LineTerminator
      code points. */
  predicate IsJsSpace(c: char)
  {
    c == ' ' || c == '\t' || c == '\n' || c == '\r' || c == '\U{0B}' || c == '\U{0C}'
    || c == '\U{A0}' || c == '\U{1680}' || ('\U{2000}' <= c <= '\U{200A}')
    || c == '\U{2028}' || c == '\U{2029}' || c == '\U{202F}' || c == '\U{205F}'
    || c == '\U{3000}' || c == '\U{FEFF}'
  }

  predicate AllSpace(s: string)
  {
    forall k | 0 <= k < |s| :: IsJsSpace(s[k])
  }

  function TrimStart(s: string): (t: string)
    ensures |t| <= |s| && t == s[|s| - |t|..]
    ensures AllSpace(s[..|s| - |t|])
    ensures t == [] || !IsJsSpace(t[0])
  {
    if |s| > 0 && IsJsSpace(s[0]) then
      var t := TrimStart(s[1..]);
      assert s[1..][..|s| - 1 - |t|] == s[1..|s| - |t|];
      t
    else s
  }

  function TrimEnd(s: string): (t: string)
    ensures |t| <= |s| && t == s[..|t|]
    ensures AllSpace(s[|t|..])
    ensures t == [] || !IsJsSpace(t[|t| - 1])
  {
    if |s| > 0 && IsJsSpace(s[|s| - 1]) then
      var t := TrimEnd(s[..|s| - 1]);
      t
    else s
  }

  /** `s.trim()`: `s` without its leading and trailing white space. */
  function Trim(s: string): (t: string)
    ensures exists a: nat, b: nat | a <= b <= |s| ::
              t == s[a..b] && AllSpace(s[..a]) && AllSpace(s[b..])
    ensures t == [] || (!IsJsSpace(t[0]) && !IsJsSpace(t[|t| - 1]))
  {
    var u := TrimStart(s);
    var t := TrimEnd(u);
    var a := |s| - |u|;
    assert t == s[a..a + |t|];
    assert s[a + |t|..] == u[|t|..];
    t
  }

  /** White space on both sides of an empty middle is white space throughout. */
  lemma SpacesAround(s: string, a: nat)
    requires a <= |s| && AllSpace(s[..a]) && AllSpace(s[a..])
    ensures AllSpace(s)
  {
    forall k | 0 <= k < |s| ensures IsJsSpace(s[k]) {
      if k < a { assert s[..a][k] == s[k]; } else { assert s[a..][k - a] == s[k]; }
    }
  }

  /** `s.trim()` is truthy exactly when `s` holds a non-space character. */
  lemma TrimEmptyIffAllSpace(s: string)
    ensures Trim(s) == [] <==> AllSpace(s)
  {
    var t := Trim(s);
    var a: nat, b: nat :| a <= b <= |s| && t == s[a..b] && AllSpace(s[..a]) && AllSpace(s[b..]);
    if t == [] {
      assert a == b;
      SpacesAround(s, a);
    } else {
      assert s[a] == t[0];
    }
  }
}
