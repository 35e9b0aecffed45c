/** The command line and the allowlist of the coverage checker. File
    reading is not modelled: the allowlist file's text is a parameter. */
module IntrospectCli {
  import opened Wrappers
  import opened Text

  /** The parsed command line: positional arguments in order, and the value
      of each flag (`None` when it is absent or has no value after it). */
  datatype Args = Args(positional: seq<string>, lib: Option<string>, allow: Option<string>,
                       out: Option<string>, featuresMap: Option<string>)

  const NO_ARGS: Args := Args([], None, None, None, None)

  predicate IsFlag(a: string)
  {
    a == "--lib" || a == "--allow" || a == "--out" || a == "--features-map"
  }

  /** One step of the command line: a flag with the argument after it, or a
      positional argument. */
  datatype Item = FlagItem(flag: string, value: Option<string>) | PosItem(arg: string)

  /** The arguments grouped into items: a flag takes the next argument,
      whatever it is, as its value. */
  function Scan(r: seq<string>): (items: seq<Item>)
    ensures |items| <= |r|
    decreases |r|
  {
    if |r| == 0 then []
    else if IsFlag(r[0]) then
      if |r| == 1 then [FlagItem(r[0], None)]
      else [FlagItem(r[0], Some(r[1]))] + Scan(r[2..])
    else [PosItem(r[0])] + Scan(r[1..])
  }

  /** The effect of one item: a flag overwrites its field, a positional
      argument is appended. */
  function ApplyItem(a: Args, it: Item): Args
  {
    match it
    case PosItem(x) => a.(positional := a.positional + [x])
    case FlagItem(f, v) =>
      if f == "--lib" then a.(lib := v)
      else if f == "--allow" then a.(allow := v)
      else if f == "--out" then a.(out := v)
      else a.(featuresMap := v)
  }

  function ApplyItems(a: Args, items: seq<Item>): Args
    decreases |items|
  {
    if |items| == 0 then a else ApplyItems(ApplyItem(a, items[0]), items[1..])
  }

  /** What `process.argv` holds after the interpreter and the script. */
  function UserArgs(argv: seq<string>): seq<string>
  {
    if |argv| <= 2 then [] else argv[2..]
  }

  /** The command line read item by item. */
  function ParseArgsSpec(argv: seq<string>): Args
  {
    ApplyItems(NO_ARGS, Scan(UserArgs(argv)))
  }

  /** `parseArgs`: one pass over the arguments after the script name; each
      of the four flags consumes the argument after it. */
  method ParseArgs(argv: seq<string>) returns (out: Args)
    ensures out == ParseArgsSpec(argv)
  {
    out := NO_ARGS;
    var i := 2;
    while i < |argv|
      invariant 2 <= i
      invariant i < |argv| ==> ApplyItems(out, Scan(argv[i..])) == ParseArgsSpec(argv)
      invariant i >= |argv| ==> out == ParseArgsSpec(argv)
      decreases |argv| - i
    {
      var a := argv[i];
      var r := argv[i..];
      assert r[0] == a;
      if IsFlag(a) {
        var v: Option<string> := if i + 1 < |argv| then Some(argv[i + 1]) else None;
        if a == "--lib" { out := out.(lib := v); }
        else if a == "--allow" { out := out.(allow := v); }
        else if a == "--out" { out := out.(out := v); }
        else { out := out.(featuresMap := v); }
        if i + 1 < |argv| {
          assert r[2..] == argv[i + 2..];
          if i + 2 >= |argv| { assert Scan(argv[i + 2..]) == []; }
        }
        i := i + 2;
      } else {
        out := out.(positional := out.positional + [a]);
        assert r[1..] == argv[i + 1..];
        if i + 1 >= |argv| { assert Scan(argv[i + 1..]) == []; }
        i := i + 1;
      }
    }
  }

  function Positionals(items: seq<Item>): seq<string>
  {
    if |items| == 0 then []
    else (if items[0].PosItem? then [items[0].arg] else []) + Positionals(items[1..])
  }

  lemma {:induction false} ApplyItemsPositional(a: Args, items: seq<Item>)
    ensures ApplyItems(a, items).positional == a.positional + Positionals(items)
    decreases |items|
  {
    if |items| > 0 {
      ApplyItemsPositional(ApplyItem(a, items[0]), items[1..]);
    }
  }

  /** The positional arguments of the scan are arguments that are not a
      flag, each standing right after a non-flag or at the front. */
  lemma {:induction false} ScanPositionalsNotFlags(r: seq<string>)
    ensures forall k | 0 <= k < |Positionals(Scan(r))| :: !IsFlag(Positionals(Scan(r))[k])
    ensures forall x | x in Positionals(Scan(r)) :: x in r
    decreases |r|
  {
    if |r| > 0 {
      var items := Scan(r);
      if IsFlag(r[0]) {
        if |r| > 1 {
          ScanPositionalsNotFlags(r[2..]);
          assert items[1..] == Scan(r[2..]);
        }
      } else {
        ScanPositionalsNotFlags(r[1..]);
        assert items[1..] == Scan(r[1..]);
      }
    }
  }

  /** No flag ever lands among the positional arguments. */
  lemma PositionalNeverFlag(argv: seq<string>)
    ensures forall k | 0 <= k < |ParseArgsSpec(argv).positional| :: !IsFlag(ParseArgsSpec(argv).positional[k])
    ensures forall x | x in ParseArgsSpec(argv).positional :: x in UserArgs(argv)
  {
    ApplyItemsPositional(NO_ARGS, Scan(UserArgs(argv)));
    ScanPositionalsNotFlags(UserArgs(argv));
  }

  lemma {:induction false} ScanNoFlags(r: seq<string>)
    requires forall k | 0 <= k < |r| :: !IsFlag(r[k])
    ensures Positionals(Scan(r)) == r
    decreases |r|
  {
    if |r| > 0 {
      ScanNoFlags(r[1..]);
      assert r == [r[0]] + r[1..];
    }
  }

  /** Without flags, every argument after the script name is positional, in
      order, and no flag field is set. */
  lemma NoFlagsAllPositional(argv: seq<string>)
    requires forall k | 2 <= k < |argv| :: !IsFlag(argv[k])
    ensures ParseArgsSpec(argv).positional == UserArgs(argv)
  {
    ApplyItemsPositional(NO_ARGS, Scan(UserArgs(argv)));
    ScanNoFlags(UserArgs(argv));
  }

  /** A flag given last takes its value from the argument after it. */
  lemma LastFlagWins(argv: seq<string>, v: string)
    requires |argv| >= 2
    requires forall k | 2 <= k < |argv| :: !IsFlag(argv[k])
    ensures ParseArgsSpec(argv + ["--lib", v]).lib == Some(v)
    ensures ParseArgsSpec(argv + ["--lib"]).lib == None
  {
    ScanAppendFlag(UserArgs(argv), "--lib", Some(v), ["--lib", v]);
    ScanAppendFlag(UserArgs(argv), "--lib", None, ["--lib"]);
    assert UserArgs(argv + ["--lib", v]) == UserArgs(argv) + ["--lib", v];
    assert UserArgs(argv + ["--lib"]) == UserArgs(argv) + ["--lib"];
    ApplyItemsSnoc(NO_ARGS, Scan(UserArgs(argv)), FlagItem("--lib", Some(v)));
    ApplyItemsSnoc(NO_ARGS, Scan(UserArgs(argv)), FlagItem("--lib", None));
  }

  lemma {:induction false} ScanAppendFlag(r: seq<string>, f: string, v: Option<string>, tail: seq<string>)
    requires forall k | 0 <= k < |r| :: !IsFlag(r[k])
    requires IsFlag(f) && (tail == [f] + (if v.Some? then [v.value] else []))
    ensures Scan(r + tail) == Scan(r) + [FlagItem(f, v)]
    decreases |r|
  {
    if |r| == 0 {
      assert r + tail == tail;
      if v.Some? { assert tail[2..] == []; }
    } else {
      assert (r + tail)[1..] == r[1..] + tail;
      ScanAppendFlag(r[1..], f, v, tail);
    }
  }

  lemma {:induction false} ApplyItemsSnoc(a: Args, items: seq<Item>, it: Item)
    ensures ApplyItems(a, items + [it]) == ApplyItem(ApplyItems(a, items), it)
    decreases |items|
  {
    if |items| == 0 {
      assert items + [it] == [it];
    } else {
      assert (items + [it])[1..] == items[1..] + [it];
      ApplyItemsSnoc(ApplyItem(a, items[0]), items[1..], it);
    }
  }

  /** The report input file: the first positional argument unless it is
      absent or empty. */
  const DEFAULT_JSON_PATH: string := "/tmp/ffi.json"

  function JsonPath(a: Args): (p: string)
    ensures p != ""
    ensures |a.positional| > 0 && a.positional[0] != "" ==> p == a.positional[0]
    ensures (|a.positional| == 0 || a.positional[0] == "") ==> p == DEFAULT_JSON_PATH
  {
    if |a.positional| > 0 && a.positional[0] != "" then a.positional[0] else DEFAULT_JSON_PATH
  }

  /** A flag value that JavaScript treats as true: present and not empty. */
  predicate Given(v: Option<string>)
  {
    v.Some? && v.value != ""
  }

  /** The feature word: what the library probe returns (`None` when loading
      fails) when `--lib` is given, and `None` otherwise. */
  function FeatureBits(a: Args, probe: Option<bv32>): (bits: Option<bv32>)
    ensures bits.Some? <==> Given(a.lib) && probe.Some?
    ensures bits.Some? ==> bits == probe
  {
    if Given(a.lib) then probe else None
  }

  /** `loadAllowlist`: no path means an empty set; otherwise every line of
      the file, trimmed, except the blank ones. A carriage return before a
      line break is white space and goes with the trim. */
  function LoadAllowlist(path: Option<string>, content: string): (allow: set<string>)
    ensures !Given(path) ==> allow == {}
    ensures Given(path) ==>
              forall x :: x in allow <==> x != "" && exists l | l in Split(content, '\n') :: Trim(l) == x
  {
    if !Given(path) then {}
    else set l | l in Split(content, '\n') && Trim(l) != "" :: Trim(l)
  }

  /** Every allowlist entry is a non-empty name with no white space at
      either end. */
  lemma AllowlistEntriesTrimmed(path: Option<string>, content: string)
    ensures forall x | x in LoadAllowlist(path, content) ::
              x != "" && !IsJsSpace(x[0]) && !IsJsSpace(x[|x| - 1])
  {
  }

  /** A file written as lines without line breaks loads as exactly the
      trimmed non-blank lines. */
  lemma AllowlistOfLines(path: string, lines: seq<string>)
    requires path != "" && |lines| >= 1
    requires forall k | 0 <= k < |lines| :: '\n' !in lines[k]
    ensures forall x :: x in LoadAllowlist(Some(path), Join(lines, '\n')) <==>
              x != "" && exists k | 0 <= k < |lines| :: Trim(lines[k]) == x
  {
    SplitJoin(lines, '\n');
  }
}
