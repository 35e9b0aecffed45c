/** `parseDeclaredFromNativeTs`: for every `ratatui_*` key of the
    `ffi.Library` definition object, whether its value has the shape
    `[ret, [args...]]` and, if so, how many arguments the inner array lists.
    The regular-expression scan that finds the keys is not modelled: the keys
    arrive as a list of names with the offset just past each one's colon. */
module DeclaredParse {
  import opened Wrappers
  import opened Text

  // ---------------------------------------------------------------------
  // Bracket depth

  /** How a character moves the square-bracket depth. */
  function Delta(c: char): int
  {
    if c == '[' then 1 else if c == ']' then -1 else 0
  }

  /** Net square-bracket depth of a piece of text. */
  function Depth(t: string): int
  {
    if |t| == 0 then 0 else Delta(t[0]) + Depth(t[1..])
  }

  /** Text with no square bracket. */
  predicate NoBrackets(t: string)
  {
    forall k | 0 <= k < |t| :: t[k] != '[' && t[k] != ']'
  }

  /** Text with no comma and no square bracket. */
  predicate Plain(t: string)
  {
    NoBrackets(t) && forall k | 0 <= k < |t| :: t[k] != ','
  }

  // ---------------------------------------------------------------------
  // Bracket matching

  /** The scanning loop of both matchers from offset `k` at depth `d`: the
      offset one past the bracket that brings the depth to 0, or the end of
      the text if none does (`MatchEndDepths`). */
  function MatchEnd(s: string, k: nat, d: int): (r: nat)
    requires k <= |s| && d > 0
    ensures k <= r <= |s|
    decreases |s| - k
  {
    if k == |s| then |s|
    else
      var d' := d + Delta(s[k]);
      if d' == 0 then k + 1 else MatchEnd(s, k + 1, d')
  }

  /** Where the scanning loop stops: every shorter stretch leaves the depth
      positive, and the stretch it covers brings it to 0 unless the text ran
      out first. */
  lemma {:induction false} MatchEndDepths(s: string, k: nat, d: int)
    requires k <= |s| && d > 0
    ensures var r := MatchEnd(s, k, d);
            (r == k <==> k == |s|)
            && (forall p | k <= p < r :: d + Depth(s[k..p]) > 0)
            && (r == |s| || d + Depth(s[k..r]) == 0)
    decreases |s| - k
  {
    if k < |s| {
      var d' := d + Delta(s[k]);
      if d' == 0 {
        assert s[k..k + 1][1..] == [];
      } else {
        MatchEndDepths(s, k + 1, d');
        var r := MatchEnd(s, k + 1, d');
        assert forall p | k < p <= r :: s[k..p][1..] == s[k + 1..p];
      }
    }
  }

  /** A matcher started on the `[` at `start` (`MatchBracketStops` says
      where it ends). */
  function MatchBracket(s: string, start: nat): (end: nat)
    requires start < |s| && s[start] == '['
    ensures start < end <= |s|
  {
    MatchEnd(s, start + 1, 1)
  }

  /** A matcher started on a `[` ends one past the `]` that closes it, every
      shorter stretch being still open, or at the end of the text when that
      bracket is never closed. */
  lemma MatchBracketStops(s: string, start: nat)
    requires start < |s| && s[start] == '['
    ensures var end := MatchBracket(s, start);
            (forall p | start < p < end :: Depth(s[start..p]) > 0)
            && (end == |s| || Depth(s[start..end]) == 0)
  {
    var r := MatchBracket(s, start);
    MatchEndDepths(s, start + 1, 1);
    assert forall p | start < p <= r :: s[start..p][1..] == s[start + 1..p];
  }

  /** Two texts with `[` and `]` at the same places, whatever else they hold. */
  predicate SameBrackets(s: string, t: string)
  {
    |s| == |t|
    && forall k | 0 <= k < |s| :: (s[k] == '[' <==> t[k] == '[') && (s[k] == ']' <==> t[k] == ']')
  }

  lemma {:induction false} MatchEndBracketsOnly(s: string, t: string, k: nat, d: int)
    requires SameBrackets(s, t) && k <= |s| && d > 0
    ensures MatchEnd(s, k, d) == MatchEnd(t, k, d)
    decreases |s| - k
  {
    if k < |s| {
      assert Delta(s[k]) == Delta(t[k]);
      var d' := d + Delta(s[k]);
      if d' != 0 {
        MatchEndBracketsOnly(s, t, k + 1, d');
      }
    }
  }

  /** Only square brackets decide where a matcher stops: parentheses, braces,
      quotes and commas do not. */
  lemma MatchBracketBracketsOnly(s: string, t: string, start: nat)
    requires SameBrackets(s, t) && start < |s| && s[start] == '['
    ensures t[start] == '[' && MatchBracket(s, start) == MatchBracket(t, start)
  {
    MatchEndBracketsOnly(s, t, start + 1, 1);
  }

  /** A stretch without brackets leaves the matcher's depth unchanged. */
  lemma {:induction false} MatchEndSkipsPlain(s: string, k: nat, n: nat, d: int)
    requires k + n <= |s| && d > 0 && NoBrackets(s[k..k + n])
    ensures MatchEnd(s, k, d) == MatchEnd(s, k + n, d)
    decreases n
  {
    if n > 0 {
      assert s[k..k + n][0] == s[k];
      assert s[k + 1..k + n] == s[k..k + n][1..];
      MatchEndSkipsPlain(s, k + 1, n - 1, d);
    }
  }

  /** Text in front does not change where a matcher stops, relative to it. */
  lemma {:induction false} MatchEndShift(x: string, s: string, k: nat, d: int)
    requires k <= |s| && d > 0
    ensures MatchEnd(x + s, |x| + k, d) == |x| + MatchEnd(s, k, d)
    decreases |s| - k
  {
    if k < |s| {
      assert (x + s)[|x| + k] == s[k];
      var d' := d + Delta(s[k]);
      if d' != 0 {
        MatchEndShift(x, s, k + 1, d');
      }
    }
  }

  // ---------------------------------------------------------------------
  // Argument counting

  /** The text cut at every comma outside square brackets, with `d` the
      depth the text starts at. */
  function Pieces(s: string, d: int): (ps: seq<string>)
    ensures |ps| >= 1
    decreases |s|
  {
    if |s| == 0 then [""]
    else if s[0] == ',' && d == 0 then [""] + Pieces(s[1..], 0)
    else
      var ps := Pieces(s[1..], d + Delta(s[0]));
      [[s[0]] + ps[0]] + ps[1..]
  }

  /** How many pieces hold something other than white space. */
  function NonBlankCount(ps: seq<string>): nat
  {
    if |ps| == 0 then 0 else (if AllSpace(ps[0]) then 0 else 1) + NonBlankCount(ps[1..])
  }

  /** The number of arguments an argument list declares: its non-blank
      top-level comma-separated pieces. */
  function ArgCount(s: string): nat
  {
    NonBlankCount(Pieces(s, 0))
  }

  /** `token` put in front of the first piece. */
  function Glue(token: string, ps: seq<string>): (r: seq<string>)
    requires |ps| >= 1
    ensures |r| == |ps|
  {
    [token + ps[0]] + ps[1..]
  }

  /** Cutting loses nothing: the pieces joined by commas give back the text. */
  lemma {:induction false} JoinPieces(s: string, d: int)
    ensures Join(Pieces(s, d), ',') == s
    decreases |s|
  {
    if |s| > 0 {
      assert s == [s[0]] + s[1..];
      if s[0] == ',' && d == 0 {
        JoinPieces(s[1..], 0);
        var ps := Pieces(s[1..], 0);
        assert ([""] + ps)[1..] == ps;
      } else {
        var ps := Pieces(s[1..], d + Delta(s[0]));
        JoinPieces(s[1..], d + Delta(s[0]));
        var qs := [[s[0]] + ps[0]] + ps[1..];
        if |ps| > 1 {
          assert qs[1..] == ps[1..];
        }
      }
    }
  }

  /** Plain text in front of the rest joins the first piece. */
  lemma {:induction false} PiecesPlainPrefix(x: string, rest: string, d: int)
    requires Plain(x)
    ensures Pieces(x + rest, d) == Glue(x, Pieces(rest, d))
    decreases |x|
  {
    if |x| > 0 {
      assert (x + rest)[0] == x[0] && (x + rest)[1..] == x[1..] + rest;
      assert x[0] != ',' && Delta(x[0]) == 0;
      PiecesPlainPrefix(x[1..], rest, d);
      var ps := Pieces(rest, d);
      assert [x[0]] + (x[1..] + ps[0]) == x + ps[0] by {
        assert x == [x[0]] + x[1..];
      }
    } else {
      assert x + rest == rest;
      var ps := Pieces(rest, d);
      assert x + ps[0] == ps[0];
      assert [ps[0]] + ps[1..] == ps;
    }
  }

  /** Cutting inverts joining: plain cells joined by commas are cut back into
      the same cells. */
  lemma {:induction false} PiecesOfJoin(cells: seq<string>)
    requires |cells| >= 1
    requires forall k | 0 <= k < |cells| :: Plain(cells[k])
    ensures Pieces(Join(cells, ','), 0) == cells
  {
    if |cells| == 1 {
      PiecesPlainPrefix(cells[0], "", 0);
      assert cells[0] + "" == cells[0];
    } else {
      var rest := Join(cells[1..], ',');
      PiecesOfJoin(cells[1..]);
      PiecesPlainPrefix(cells[0], [','] + rest, 0);
      assert ([','] + rest)[0] == ',' && ([','] + rest)[1..] == rest;
      assert Pieces([','] + rest, 0) == [""] + cells[1..];
      assert cells[0] + [','] + rest == cells[0] + ([','] + rest);
      assert cells[0] + "" == cells[0];
      assert cells == [cells[0]] + cells[1..];
    }
  }

  lemma {:induction false} NonBlankCountAll(cells: seq<string>)
    requires forall k | 0 <= k < |cells| :: !AllSpace(cells[k])
    ensures NonBlankCount(cells) == |cells|
  {
    if |cells| > 0 {
      NonBlankCountAll(cells[1..]);
    }
  }

  /** An argument list of plain, non-blank types counts one argument per type;
      the empty list counts none. */
  lemma ArgCountOfJoin(cells: seq<string>)
    requires forall k | 0 <= k < |cells| :: Plain(cells[k]) && !AllSpace(cells[k])
    ensures ArgCount(Join(cells, ',')) == |cells|
  {
    if |cells| > 0 {
      PiecesOfJoin(cells);
      NonBlankCountAll(cells);
    }
  }

  lemma {:induction false} NonBlankCountSnoc(ps: seq<string>, t: string)
    ensures NonBlankCount(ps + [t]) == NonBlankCount(ps) + (if AllSpace(t) then 0 else 1)
  {
    if |ps| > 0 {
      assert (ps + [t])[1..] == ps[1..] + [t];
      NonBlankCountSnoc(ps[1..], t);
    } else {
      assert ps + [t] == [t];
    }
  }

  /** A comma at the end of a balanced list opens an empty last piece. */
  lemma {:induction false} PiecesTrailingComma(s: string, d: int)
    requires d + Depth(s) == 0
    ensures Pieces(s + ",", d) == Pieces(s, d) + [""]
    decreases |s|
  {
    if |s| == 0 {
      assert "" + "," == ",";
      assert ","[1..] == "";
    } else {
      assert (s + ",")[0] == s[0] && (s + ",")[1..] == s[1..] + ",";
      if s[0] == ',' && d == 0 {
        PiecesTrailingComma(s[1..], 0);
      } else {
        PiecesTrailingComma(s[1..], d + Delta(s[0]));
      }
    }
  }

  /** A trailing comma adds no argument. */
  lemma ArgCountTrailingComma(s: string)
    requires Depth(s) == 0
    ensures ArgCount(s + ",") == ArgCount(s)
  {
    PiecesTrailingComma(s, 0);
    NonBlankCountSnoc(Pieces(s, 0), "");
  }

  /** Text whose every comma sits inside brackets is a single piece. */
  lemma {:induction false} PiecesNoTopComma(s: string, d: int)
    requires forall p | 0 <= p < |s| && s[p] == ',' :: d + Depth(s[..p]) != 0
    ensures Pieces(s, d) == [s]
    decreases |s|
  {
    if |s| > 0 {
      assert s[..0] == [];
      var d' := d + Delta(s[0]);
      forall p | 0 <= p < |s[1..]| && s[1..][p] == ','
        ensures d' + Depth(s[1..][..p]) != 0
      {
        assert s[..p + 1][1..] == s[1..][..p];
        assert s[..p + 1][0] == s[0];
      }
      PiecesNoTopComma(s[1..], d');
      assert s == [s[0]] + s[1..];
    }
  }

  /** A nested array counts as one argument, whatever commas it holds. */
  lemma ArgCountNested(t: string)
    requires forall p | 0 <= p <= |t| :: Depth(t[..p]) >= 0
    ensures ArgCount("[" + t + "]") == 1
  {
    var s := "[" + t + "]";
    forall p | 0 <= p < |s| && s[p] == ','
      ensures Depth(s[..p]) != 0
    {
      assert p >= 1;
      assert s[..p][0] == '[' && s[..p][1..] == t[..p - 1];
      assert Depth(t[..p - 1]) >= 0;
    }
    PiecesNoTopComma(s, 0);
    assert !AllSpace(s) by { assert s[0] == '[' && !IsJsSpace(s[0]); }
    assert [s][1..] == [];
    assert NonBlankCount([s]) == 1 + NonBlankCount([]);
  }

  /** One character of the counting loop, stated on the pieces still to
      come: a top-level comma closes the current token, any other character
      joins it. */
  lemma GlueStep(token: string, s: string, d: int)
    requires |s| > 0
    ensures s[0] == ',' && d == 0 ==>
              NonBlankCount(Glue(token, Pieces(s, d)))
              == (if AllSpace(token) then 0 else 1) + NonBlankCount(Glue("", Pieces(s[1..], 0)))
    ensures !(s[0] == ',' && d == 0) ==>
              Glue(token, Pieces(s, d)) == Glue(token + [s[0]], Pieces(s[1..], d + Delta(s[0])))
  {
    if s[0] == ',' && d == 0 {
      var ps := Pieces(s[1..], 0);
      assert Glue("", ps) == ps by { assert "" + ps[0] == ps[0]; }
      assert Glue(token, Pieces(s, d)) == [token + ""] + ps;
      assert token + "" == token;
      assert ([token] + ps)[1..] == ps;
    } else {
      var ps := Pieces(s[1..], d + Delta(s[0]));
      assert token + ([s[0]] + ps[0]) == (token + [s[0]]) + ps[0];
    }
  }

  /** The end of the text closes the last token. */
  lemma GlueEnd(token: string, d: int)
    ensures NonBlankCount(Glue(token, Pieces("", d))) == (if AllSpace(token) then 0 else 1)
  {
    assert token + "" == token;
    assert Glue(token, Pieces("", d)) == [token];
    assert [token][1..] == [];
  }

  /** The counting loop of `parseDeclaredFromNativeTs`: it tracks the depth
      and the current token, and counts a token when a top-level comma or the
      end of the text closes it and it is not blank after trimming. */
  method CountArgs(argsRaw: string) returns (count: nat)
    ensures count == ArgCount(argsRaw)
  {
    var depth: int := 0;
    var token: string := "";
    count := 0;
    var k := 0;
    assert argsRaw[k..] == argsRaw;
    var ps0 := Pieces(argsRaw, 0);
    assert Glue(token, ps0) == ps0 by { assert "" + ps0[0] == ps0[0]; }
    while k < |argsRaw|
      invariant 0 <= k <= |argsRaw|
      invariant count + NonBlankCount(Glue(token, Pieces(argsRaw[k..], depth))) == ArgCount(argsRaw)
    {
      var ch := argsRaw[k];
      GlueStep(token, argsRaw[k..], depth);
      assert argsRaw[k..][0] == ch && argsRaw[k..][1..] == argsRaw[k + 1..];
      depth := depth + Delta(ch);
      if ch == ',' && depth == 0 {
        TrimEmptyIffAllSpace(token);
        if Trim(token) != "" {
          count := count + 1;
        }
        token := "";
      } else {
        token := token + [ch];
      }
      k := k + 1;
    }
    assert argsRaw[k..] == "";
    GlueEnd(token, depth);
    TrimEmptyIffAllSpace(token);
    if Trim(token) != "" {
      count := count + 1;
    }
  }

  // ---------------------------------------------------------------------
  // Entries

  /** A matched key: its name and the offset just past its colon. */
  datatype Key = Key(name: string, after: nat)

  /** One result entry: `args` is `Some` exactly for valid entries. */
  datatype Declared = Declared(name: string, valid: bool, args: Option<nat>)

  /** The first offset at or after `i` that is not white space, or the end
      (`SkipSpacesSkips`). */
  function SkipSpaces(s: string, i: nat): (j: nat)
    ensures i <= j
    ensures i <= |s| ==> j <= |s|
    decreases |s| - i
  {
    if i < |s| && IsJsSpace(s[i]) then SkipSpaces(s, i + 1) else i
  }

  /** Skipping passes over white space only and stops at the first character
      that is not white space. */
  lemma {:induction false} SkipSpacesSkips(s: string, i: nat)
    ensures var j := SkipSpaces(s, i);
            (j < |s| ==> !IsJsSpace(s[j])) && forall p | i <= p < j :: p < |s| && IsJsSpace(s[p])
    decreases |s| - i
  {
    if i < |s| && IsJsSpace(s[i]) {
      SkipSpacesSkips(s, i + 1);
    }
  }

  /** The value text of an entry whose value starts with `[` at `i`: from
      that bracket to its match. */
  function OuterArray(src: string, i: nat): (arr: string)
    requires i < |src| && src[i] == '['
    ensures |arr| >= 1 && arr[0] == '['
  {
    src[i..MatchBracket(src, i)]
  }

  /** What is left of an entry once its value text is known: find the
      argument array after the first comma and count what it lists. The
      argument array runs to its matching `]`, and its last character is
      dropped even when it is not that bracket. */
  function ArgsOf(name: string, arr: string, innerStart: int): (d: Declared)
    ensures d.name == name
    ensures d.valid <==> d.args.Some?
    ensures d.valid <==> 0 <= innerStart < |arr| && arr[innerStart] == '['
    ensures d.valid ==>
              d.args == Some(ArgCount(Slice(arr, innerStart + 1, MatchBracket(arr, innerStart) - 1)))
  {
    if !(0 <= innerStart < |arr| && arr[innerStart] == '[') then Declared(name, false, None)
    else
      var innerEnd := MatchBracket(arr, innerStart);
      Declared(name, true, Some(ArgCount(Slice(arr, innerStart + 1, innerEnd - 1))))
  }

  /** The entry's value is an array whose text holds no comma. */
  predicate NoCommaValue(src: string, key: Key)
  {
    var i := SkipSpaces(src, key.after);
    i < |src| && src[i] == '[' && ',' !in OuterArray(src, i)
  }

  /** One entry of `parseDeclaredFromNativeTs` as written. When the value
      text holds no comma, `indexOf(',')` is -1, the search for the argument
      array starts at 0 and finds the value's own opening bracket, so the
      entry is valid and counts what that array lists. With a comma in the
      value, or with no array at all, it agrees with the corrected parse. */
  function ParseEntryAsWritten(src: string, key: Key): (d: Declared)
    ensures d.name == key.name && (d.valid <==> d.args.Some?)
    ensures var i := SkipSpaces(src, key.after);
            d.valid ==> i < |src| && src[i] == '['
    ensures NoCommaValue(src, key) ==>
              d.valid && d == ArgsOf(key.name, OuterArray(src, SkipSpaces(src, key.after)), 0)
    ensures !NoCommaValue(src, key) ==> d == ParseEntry(src, key)
  {
    var i := SkipSpaces(src, key.after);
    if i >= |src| || src[i] != '[' then Declared(key.name, false, None)
    else
      var arr := OuterArray(src, i);
      var commaIdx := IndexOf(arr, ',', 0);
      ArgsOf(key.name, arr, IndexOf(arr, '[', commaIdx + 1))
  }

  /** The value text has a comma, and an opening bracket after the first one. */
  predicate Shaped(arr: string)
  {
    exists c | 0 <= c < |arr| ::
      arr[c] == ',' && (forall c' | 0 <= c' < c :: arr[c'] != ',') && '[' in arr[c + 1..]
  }

  lemma ShapedThenFound(arr: string)
    requires Shaped(arr)
    ensures var c := IndexOf(arr, ',', 0);
            c != -1 && IndexOf(arr, '[', c + 1) != -1
  {
    var c0 :| 0 <= c0 < |arr| && arr[c0] == ',' && (forall c' | 0 <= c' < c0 :: arr[c'] != ',') && '[' in arr[c0 + 1..];
    var c := IndexOf(arr, ',', 0);
    assert c != -1;
    assert c == c0;
    var q :| 0 <= q < |arr[c0 + 1..]| && arr[c0 + 1..][q] == '[';
    assert arr[c0 + 1 + q] == '[';
  }

  lemma FoundThenShaped(arr: string)
    requires var c := IndexOf(arr, ',', 0);
             c != -1 && IndexOf(arr, '[', c + 1) != -1
    ensures Shaped(arr)
  {
    var c := IndexOf(arr, ',', 0);
    var q := IndexOf(arr, '[', c + 1);
    assert arr[c + 1..][q - c - 1] == '[';
    assert arr[c] == ',' && (forall c' | 0 <= c' < c :: arr[c'] != ',') && '[' in arr[c + 1..];
  }

  /** `Shaped` is what the two `indexOf` searches of the parser test. */
  lemma ShapedByIndexOf(arr: string)
    ensures var c := IndexOf(arr, ',', 0);
            Shaped(arr) <==> c != -1 && IndexOf(arr, '[', c + 1) != -1
  {
    var c := IndexOf(arr, ',', 0);
    if Shaped(arr) {
      ShapedThenFound(arr);
    }
    if c != -1 && IndexOf(arr, '[', c + 1) != -1 {
      FoundThenShaped(arr);
    }
  }

  /** One entry, corrected so that a value without a comma is invalid: the
      `[ret, [args...]]` shape `ffi.Library` expects (`ParseEntryValid`). */
  function ParseEntry(src: string, key: Key): (d: Declared)
    ensures d.name == key.name && (d.valid <==> d.args.Some?)
  {
    var i := SkipSpaces(src, key.after);
    if i >= |src| || src[i] != '[' then Declared(key.name, false, None)
    else
      var arr := OuterArray(src, i);
      var commaIdx := IndexOf(arr, ',', 0);
      if commaIdx == -1 then Declared(key.name, false, None)
      else ArgsOf(key.name, arr, IndexOf(arr, '[', commaIdx + 1))
  }

  /** An entry is valid exactly when its value is an array holding a comma
      with an array after the first one. */
  lemma ParseEntryValid(src: string, key: Key)
    ensures var i := SkipSpaces(src, key.after);
            ParseEntry(src, key).valid <==> i < |src| && src[i] == '[' && Shaped(OuterArray(src, i))
  {
    var i := SkipSpaces(src, key.after);
    if i < |src| && src[i] == '[' {
      ShapedByIndexOf(OuterArray(src, i));
    }
  }

  /** The value `['void']` is matched whole. */
  lemma VoidValueMatched()
    ensures MatchBracket("['void']", 0) == 8
  {
    var src := "['void']";
    assert Plain(src[1..7]) by { assert src[1..7] == "'void'"; }
    MatchEndSkipsPlain(src, 1, 6, 1);
  }

  /** `'void'` lists one argument. */
  lemma VoidCountsOne()
    ensures ArgCount("'void'") == 1
  {
    var t := "'void'";
    assert Plain(t) && !AllSpace(t) by { assert !IsJsSpace(t[0]); }
    ArgCountOfJoin([t]);
    assert Join([t], ',') == t;
  }

  /** Any value array without a comma is accepted as written and rejected
      by the corrected parse. */
  lemma NoCommaValueDisagrees(src: string, key: Key)
    requires NoCommaValue(src, key)
    ensures ParseEntryAsWritten(src, key).valid
    ensures !ParseEntry(src, key).valid
  {
    ParseEntryValid(src, key);
  }

  /** Without a comma in the value, the search for the argument array as
      written starts at the value's own opening bracket. */
  lemma NoCommaArgsFromValueStart(src: string, key: Key)
    requires var i := SkipSpaces(src, key.after);
             i < |src| && src[i] == '[' && ',' !in OuterArray(src, i)
    ensures var arr := OuterArray(src, SkipSpaces(src, key.after));
            ParseEntryAsWritten(src, key) == ArgsOf(key.name, arr, 0)
  {
    var arr := OuterArray(src, SkipSpaces(src, key.after));
    assert IndexOf(arr, ',', 0) == -1;
    assert IndexOf(arr, '[', 0) == 0;
  }

  lemma VoidArgs()
    ensures ArgsOf("ratatui_x", "['void']", 0) == Declared("ratatui_x", true, Some(1))
  {
    var arr := "['void']";
    VoidValueMatched();
    assert Slice(arr, 1, 7) == "'void'";
    VoidCountsOne();
  }

  /** The entry `['void']` is reported valid as written, with its return
      type counted as one argument, and invalid by the corrected parse. */
  lemma NoCommaEntryAcceptedAsWritten()
    ensures ParseEntryAsWritten("['void']", Key("ratatui_x", 0)) == Declared("ratatui_x", true, Some(1))
    ensures !ParseEntry("['void']", Key("ratatui_x", 0)).valid
  {
    var src := "['void']";
    var key := Key("ratatui_x", 0);
    assert SkipSpaces(src, 0) == 0;
    VoidValueMatched();
    assert OuterArray(src, 0) == src;
    assert ',' !in src by {
      assert forall k | 0 <= k < |src| :: src[k] != ',';
    }
    NoCommaValueDisagrees(src, key);
    NoCommaArgsFromValueStart(src, key);
    VoidArgs();
  }

  /** The corrected parse of every key, in the order the keys were found. */
  function ParseDeclared(src: string, keys: seq<Key>): (ds: seq<Declared>)
    ensures |ds| == |keys|
    ensures forall k | 0 <= k < |keys| :: ds[k] == ParseEntry(src, keys[k])
  {
    seq(|keys|, k requires 0 <= k < |keys| => ParseEntry(src, keys[k]))
  }

  /** `parseDeclaredFromNativeTs` as written: every key parsed with the
      entry parse as written, in the order the keys were found. */
  function ParseDeclaredAsWritten(src: string, keys: seq<Key>): (ds: seq<Declared>)
    ensures |ds| == |keys|
    ensures forall k | 0 <= k < |keys| :: ds[k] == ParseEntryAsWritten(src, keys[k])
  {
    seq(|keys|, k requires 0 <= k < |keys| => ParseEntryAsWritten(src, keys[k]))
  }

  /** The two parses differ only at keys whose value array has no comma:
      there the as-written parse accepts and the corrected one rejects. */
  lemma ParseDeclaredReadings(src: string, keys: seq<Key>)
    ensures forall k | 0 <= k < |keys| && !NoCommaValue(src, keys[k]) ::
              ParseDeclaredAsWritten(src, keys)[k] == ParseDeclared(src, keys)[k]
    ensures forall k | 0 <= k < |keys| && NoCommaValue(src, keys[k]) ::
              ParseDeclaredAsWritten(src, keys)[k].valid && !ParseDeclared(src, keys)[k].valid
    ensures (forall k | 0 <= k < |keys| :: !NoCommaValue(src, keys[k])) ==>
              ParseDeclaredAsWritten(src, keys) == ParseDeclared(src, keys)
  {
    forall k | 0 <= k < |keys| && NoCommaValue(src, keys[k])
      ensures !ParseEntry(src, keys[k]).valid
    {
      NoCommaValueDisagrees(src, keys[k]);
    }
  }

  // ---------------------------------------------------------------------
  // Well-formed entries

  /** The value text of a well-formed entry, `[ret, [a]]`, with `sp` between
      the comma and the argument array. */
  function EntryText(ret: string, sp: string, a: string): string
  {
    "[" + (ret + ("," + (sp + ("[" + (a + "]]")))))
  }

  lemma {:induction false} JoinNoBrackets(cells: seq<string>)
    requires forall k | 0 <= k < |cells| :: NoBrackets(cells[k])
    ensures NoBrackets(Join(cells, ','))
  {
    if |cells| > 1 {
      JoinNoBrackets(cells[1..]);
      var rest := Join(cells[1..], ',');
      var j := cells[0] + [','] + rest;
      forall k | 0 <= k < |j| ensures j[k] != '[' && j[k] != ']' {
        if k < |cells[0]| {
          assert j[k] == cells[0][k];
        } else if k > |cells[0]| {
          assert j[k] == rest[k - |cells[0]| - 1];
        }
      }
    }
  }

  /** Text without brackets in front is passed over at the same depth. */
  lemma PassNoBrackets(x: string, r: string, d: int)
    requires NoBrackets(x) && d > 0
    ensures MatchEnd(x + r, 0, d) == |x| + MatchEnd(r, 0, d)
  {
    assert (x + r)[0..|x|] == x;
    MatchEndSkipsPlain(x + r, 0, |x|, d);
    MatchEndShift(x, r, 0, d);
  }

  /** An opening bracket in front deepens the match by one. */
  lemma PassOpen(r: string, d: int)
    requires d > 0
    ensures MatchEnd("[" + r, 0, d) == 1 + MatchEnd(r, 0, d + 1)
  {
    assert ("[" + r)[0] == '[';
    MatchEndShift("[", r, 0, d + 1);
  }

  /** The argument array of a well-formed value is matched up to its `]`,
      and the value's own `]` follows it. */
  lemma PassArgsArray(a: string, t: string)
    requires NoBrackets(a) && |t| >= 2 && t[0] == ']' && t[1] == ']'
    ensures MatchEnd("[" + (a + t), 0, 1) == |a| + 3
  {
    PassOpen(a + t, 1);
    PassNoBrackets(a, t, 2);
  }

  /** The return type, the comma and the space before the argument array are
      passed over at depth 1. */
  lemma PassReturnType(ret: string, sp: string, x: string)
    requires Plain(ret) && Plain(sp)
    ensures MatchEnd(ret + ("," + (sp + x)), 0, 1) == |ret| + 1 + |sp| + MatchEnd(x, 0, 1)
  {
    PassNoBrackets(ret, "," + (sp + x), 1);
    PassNoBrackets(",", sp + x, 1);
    PassNoBrackets(sp, x, 1);
  }

  /** The matcher started on a well-formed value stops right after it. */
  lemma EntryValueMatched(ret: string, sp: string, a: string, post: string)
    requires Plain(ret) && Plain(sp) && NoBrackets(a)
    ensures var e := EntryText(ret, sp, a);
            |e| == |ret| + |sp| + |a| + 5 && e[0] == '[' && MatchBracket(e + post, 0) == |e|
  {
    var x := "[" + (a + ("]]" + post));
    var r1 := ret + ("," + (sp + x));
    assert EntryText(ret, sp, a) + post == "[" + r1;
    MatchEndShift("[", r1, 0, 1);
    PassReturnType(ret, sp, x);
    PassArgsArray(a, "]]" + post);
  }

  /** Inside a well-formed value, the first comma follows the return type
      and the argument array follows that comma and `sp`. */
  lemma EntryCommaAndArray(ret: string, sp: string, a: string)
    requires Plain(ret) && Plain(sp)
    ensures var e := EntryText(ret, sp, a);
            var c := 1 + |ret|;
            IndexOf(e, ',', 0) == c && IndexOf(e, '[', c + 1) == c + 1 + |sp|
  {
    var e := EntryText(ret, sp, a);
    var c := 1 + |ret|;
    var q := c + 1 + |sp|;
    assert e[c] == ',' && forall k | 0 <= k < c :: e[k] != ',' by {
      forall k | 1 <= k < c ensures e[k] != ',' { assert e[k] == ret[k - 1]; }
    }
    assert IndexOf(e, ',', 0) == c;
    assert e[q] == '[' && forall k | c + 1 <= k < q :: e[k] != '[' by {
      forall k | c + 1 <= k < q ensures e[k] != '[' { assert e[k] == sp[k - c - 1]; }
    }
    assert IndexOf(e, '[', c + 1) == q;
  }

  /** The argument array `[a]` of a well-formed value is matched whole. */
  lemma ArgsArrayMatched(ret: string, sp: string, a: string)
    requires NoBrackets(a)
    ensures var e := EntryText(ret, sp, a);
            var q := 1 + |ret| + 1 + |sp|;
            q < |e| && e[q] == '[' && MatchBracket(e, q) == q + |a| + 2
  {
    var x := "[" + (a + "]]");
    var pre := "[" + ret + "," + sp;
    assert EntryText(ret, sp, a) == pre + x;
    MatchEndShift(pre, x, 1, 1);
    MatchEndShift("[", a + "]]", 0, 1);
    PassNoBrackets(a, "]]", 1);
  }

  /** The argument text of a well-formed value is `a`, and it is counted. */
  lemma EntryArgsFound(name: string, ret: string, sp: string, a: string)
    requires NoBrackets(a)
    ensures ArgsOf(name, EntryText(ret, sp, a), 1 + |ret| + 1 + |sp|) == Declared(name, true, Some(ArgCount(a)))
  {
    var e := EntryText(ret, sp, a);
    var q := 1 + |ret| + 1 + |sp|;
    ArgsArrayMatched(ret, sp, a);
    assert e[q + 1..q + 1 + |a|] == a;
    assert Slice(e, q + 1, q + 1 + |a|) == a;
  }

  /** The offset of the first non-space character, when it is known. */
  lemma SkipSpacesTo(s: string, i: nat, j: nat)
    requires i <= j < |s| && !IsJsSpace(s[j])
    requires forall p | i <= p < j :: IsJsSpace(s[p])
    ensures SkipSpaces(s, i) == j
  {
    SkipSpacesSkips(s, i);
  }

  /** After white space, the value text found is the well-formed value. */
  lemma EntryLocated(pre: string, ws: string, ret: string, sp: string, a: string, post: string)
    requires AllSpace(ws) && Plain(ret) && Plain(sp) && NoBrackets(a)
    ensures var src := pre + ws + EntryText(ret, sp, a) + post;
            var j := |pre| + |ws|;
            SkipSpaces(src, |pre|) == j && j < |src| && src[j] == '['
            && OuterArray(src, j) == EntryText(ret, sp, a)
  {
    var e := EntryText(ret, sp, a);
    var src := pre + ws + e + post;
    var j := |pre| + |ws|;
    EntryValueMatched(ret, sp, a, post);
    assert src == (pre + ws) + (e + post);
    assert src[j] == e[0];
    forall p | |pre| <= p < j ensures IsJsSpace(src[p]) {
      assert src[p] == ws[p - |pre|];
    }
    SkipSpacesTo(src, |pre|, j);
    MatchEndShift(pre + ws, e + post, 1, 1);
    assert MatchBracket(src, j) == j + |e|;
  }

  /** Once the value text, its first comma and the argument array after it
      are known, the entry is what the argument array gives. */
  lemma ParseEntryFromParts(src: string, key: Key, e: string, c: nat, q: int)
    requires var j := SkipSpaces(src, key.after);
             j < |src| && src[j] == '[' && OuterArray(src, j) == e
    requires IndexOf(e, ',', 0) == c && IndexOf(e, '[', c + 1) == q
    ensures ParseEntry(src, key) == ArgsOf(key.name, e, q)
  {
  }

  /** After the colon, white space and a well-formed value: the entry is
      valid, with the argument text counted. */
  lemma WellFormedValueAt(pre: string, ws: string, ret: string, sp: string, a: string, post: string, name: string)
    requires AllSpace(ws) && Plain(ret) && Plain(sp) && NoBrackets(a)
    ensures var src := pre + ws + EntryText(ret, sp, a) + post;
            ParseEntry(src, Key(name, |pre|)) == Declared(name, true, Some(ArgCount(a)))
  {
    var e := EntryText(ret, sp, a);
    var src := pre + ws + e + post;
    var q := 1 + |ret| + 1 + |sp|;
    assert ArgsOf(name, e, q) == Declared(name, true, Some(ArgCount(a))) by {
      EntryArgsFound(name, ret, sp, a);
    }
    assert ParseEntry(src, Key(name, |pre|)) == ArgsOf(name, e, q) by {
      EntryLocated(pre, ws, ret, sp, a, post);
      EntryCommaAndArray(ret, sp, a);
      ParseEntryFromParts(src, Key(name, |pre|), e, 1 + |ret|, q);
    }
  }

  /** A well-formed entry parses as valid with one argument per listed type:
      after the colon, white space and then `[ret, [a1, ..., an]]`, where the
      return type and the argument types hold no comma or bracket and no
      argument type is blank. */
  lemma WellFormedEntryParses(pre: string, ws: string, ret: string, sp: string,
                              args: seq<string>, post: string, name: string)
    requires AllSpace(ws) && Plain(ret) && Plain(sp)
    requires forall k | 0 <= k < |args| :: Plain(args[k]) && !AllSpace(args[k])
    ensures var src := pre + ws + EntryText(ret, sp, Join(args, ',')) + post;
            ParseEntry(src, Key(name, |pre|)) == Declared(name, true, Some(|args|))
  {
    JoinNoBrackets(args);
    WellFormedValueAt(pre, ws, ret, sp, Join(args, ','), post, name);
    ArgCountOfJoin(args);
  }
}
