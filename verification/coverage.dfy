/** The coverage computation of the checker: which exports are required
    after feature gating, which of them the binding does not declare, which
    declarations the library does not export, which declarations are
    malformed, and the exit status. The exports list, the features map, the
    library's feature word and the allowlist text are parameters; reading
    them from files and from the library is not modelled. */
module Coverage {
  import opened Wrappers
  import opened StringOrder
  import opened FeatureGate
  import opened DeclaredParse
  import opened IntrospectCli

  predicate NoDup(s: seq<string>)
  {
    forall i, j | 0 <= i < j < |s| :: s[i] != s[j]
  }

  /** The elements of a `Set` built from `s`, in insertion order: each
      element at its first occurrence. */
  function Dedup(s: seq<string>): (r: seq<string>)
    ensures NoDup(r)
    ensures forall x :: x in r <==> x in s
    ensures |r| <= |s|
  {
    if |s| == 0 then []
    else
      var d := Dedup(s[..|s| - 1]);
      var x := s[|s| - 1];
      assert s == s[..|s| - 1] + [x];
      if x in d then d else d + [x]
  }

  /** `Array.prototype.filter`. */
  function Filter(s: seq<string>, p: string -> bool): (r: seq<string>)
    ensures forall x :: x in r <==> x in s && p(x)
    ensures NoDup(s) ==> NoDup(r)
    ensures |r| <= |s|
  {
    if |s| == 0 then []
    else
      var rest := Filter(s[1..], p);
      assert s == [s[0]] + s[1..];
      if p(s[0]) then [s[0]] + rest else rest
  }

  /** Some declaration carries the name `x`. */
  predicate Declares(ds: seq<Declared>, x: string)
  {
    exists k | 0 <= k < |ds| :: ds[k].name == x
  }

  /** The names of the parsed declarations, in source order. */
  function Names(ds: seq<Declared>): (r: seq<string>)
    ensures |r| == |ds|
    ensures forall k | 0 <= k < |ds| :: r[k] == ds[k].name
  {
    seq(|ds|, k requires 0 <= k < |ds| => ds[k].name)
  }

  /** The names of the malformed declarations, in source order, repeats kept. */
  function InvalidNames(ds: seq<Declared>): (r: seq<string>)
    ensures forall x :: x in r <==> exists k | 0 <= k < |ds| :: ds[k].name == x && !ds[k].valid
  {
    if |ds| == 0 then []
    else
      var rest := InvalidNames(ds[1..]);
      assert forall k | 1 <= k < |ds| :: ds[k] == ds[1..][k - 1];
      if ds[0].valid then rest else [ds[0].name] + rest
  }

  /** Which checker runs: the script as written, or the script corrected
      in its two lookups (the mask table restricted to its own names, and an
      entry parse that requires the `[ret, [args]]` shape). */
  datatype Reading = AsWritten | Corrected

  /** `isBitSet` under the reading. */
  predicate BitSetIn(v: Reading, bits: bv32, name: string)
  {
    if v.AsWritten? then IsBitSetAsWritten(bits, name) else IsBitSet(bits, name)
  }

  /** One entry of `parseDeclaredFromNativeTs` under the reading. */
  function EntryIn(v: Reading, src: string, key: Key): Declared
  {
    if v.AsWritten? then ParseEntryAsWritten(src, key) else ParseEntry(src, key)
  }

  /** `parseDeclaredFromNativeTs` under the reading. */
  function DeclarationsIn(v: Reading, src: string, keys: seq<Key>): (ds: seq<Declared>)
    ensures |ds| == |keys|
    ensures forall k | 0 <= k < |keys| :: ds[k] == EntryIn(v, src, keys[k])
  {
    if v.AsWritten? then ParseDeclaredAsWritten(src, keys) else ParseDeclared(src, keys)
  }

  /** Position `i` holds the first features-map entry that matches `name`. */
  predicate FirstFeatureAt<P>(name: string, map_: seq<(string, seq<P>)>, test: (P, string) -> bool, i: nat)
  {
    i < |map_| && EntryMatches(map_[i].1, name, test)
    && forall i' | 0 <= i' < i :: !EntryMatches(map_[i'].1, name, test)
  }

  /** The gate of the required loop: an export is required when no feature
      claims it (or the claiming key is empty), when the feature word is
      unknown, or when the feature's bits are set. */
  predicate IsRequired<P>(v: Reading, name: string, map_: seq<(string, seq<P>)>, test: (P, string) -> bool, bits: Option<bv32>)
  {
    var feat := FeatureForExport(name, map_, test);
    feat.None? || feat.value == "" || bits.None? || BitSetIn(v, bits.value, feat.value)
  }

  /** What the gate means for each kind of export: unclaimed exports and an
      unknown feature word keep everything; an export claimed first by a
      known feature is required exactly when that feature's bit is set; one
      claimed first by a key the mask table does not know stays required,
      except that as written an inherited key such as `toString` is gated on
      bit 0. */
  lemma RequiredGating<P>(v: Reading, name: string, map_: seq<(string, seq<P>)>, test: (P, string) -> bool, bits: Option<bv32>)
    ensures bits.None? ==> IsRequired(v, name, map_, test, bits)
    ensures (forall i | 0 <= i < |map_| :: !EntryMatches(map_[i].1, name, test)) ==> IsRequired(v, name, map_, test, bits)
    ensures forall i | 0 <= i < |map_| ::
              FirstFeatureAt(name, map_, test, i) && map_[i].0 !in FEATURE_NAMES
              && (v.Corrected? || map_[i].0 !in PROTOTYPE_KEYS) ==>
                IsRequired(v, name, map_, test, bits)
    ensures forall i, k | 0 <= i < |map_| && 0 <= k < |FEATURE_NAMES| ::
              FirstFeatureAt(name, map_, test, i) && map_[i].0 == FEATURE_NAMES[k] && bits.Some? ==>
                (IsRequired(v, name, map_, test, bits) <==> Bit(bits.value, k))
    ensures forall i | 0 <= i < |map_| ::
              v.AsWritten? && FirstFeatureAt(name, map_, test, i) && map_[i].0 in PROTOTYPE_KEYS && bits.Some? ==>
                (IsRequired(v, name, map_, test, bits) <==> Bit(bits.value, 0))
  {
    forall i | 0 <= i < |map_| && FirstFeatureAt(name, map_, test, i) && bits.Some?
      ensures IsRequired(v, name, map_, test, bits) <==> map_[i].0 == "" || BitSetIn(v, bits.value, map_[i].0)
    {
      assert FeatureForExport(name, map_, test) == Some(map_[i].0);
    }
    if bits.Some? {
      forall i | 0 <= i < |map_| && FirstFeatureAt(name, map_, test, i)
        ensures map_[i].0 == "" ==> map_[i].0 !in FEATURE_NAMES && map_[i].0 !in PROTOTYPE_KEYS
      {
      }
      forall i | 0 <= i < |map_| && FirstFeatureAt(name, map_, test, i)
        ensures KeyGates(v, bits.value, map_[i].0)
      {
        KeyGate(v, bits.value, map_[i].0);
      }
    }
  }

  /** How the bit test of the reading treats one features-map key. */
  predicate KeyGates(v: Reading, bits: bv32, key: string)
  {
    (forall k | 0 <= k < |FEATURE_NAMES| :: key == FEATURE_NAMES[k] ==> (BitSetIn(v, bits, key) <==> Bit(bits, k)))
    && (key !in FEATURE_NAMES && (v.Corrected? || key !in PROTOTYPE_KEYS) ==> BitSetIn(v, bits, key))
    && (v.AsWritten? && key in PROTOTYPE_KEYS ==> (BitSetIn(v, bits, key) <==> Bit(bits, 0)))
  }

  lemma KeyGate(v: Reading, bits: bv32, key: string)
    ensures KeyGates(v, bits, key)
  {
    IsBitSetMeaning(bits, key);
    IsBitSetAsWrittenMeaning(bits, key);
    if key in PROTOTYPE_KEYS {
      PrototypeKeysAreNotFeatures(key);
    }
  }

  /** The exports the binding must declare, in `Set` order. */
  function Required<P>(v: Reading, exports: seq<string>, map_: seq<(string, seq<P>)>, test: (P, string) -> bool, bits: Option<bv32>): (r: seq<string>)
    ensures forall x :: x in r <==> x in exports && IsRequired(v, x, map_, test, bits)
    ensures NoDup(exports) ==> NoDup(r)
    ensures |r| <= |exports|
  {
    Filter(exports, x => IsRequired(v, x, map_, test, bits))
  }

  /** The JSON report. */
  datatype Report = Report(exports: nat, required: nat, declared: nat,
                           missing: seq<string>, extra: seq<string>, invalid: seq<string>,
                           featureBits: Option<bv32>, featuresMapUsed: seq<string>)

  function Keys<P>(map_: seq<(string, seq<P>)>): (ks: seq<string>)
    ensures |ks| == |map_|
    ensures forall i | 0 <= i < |map_| :: ks[i] == map_[i].0
  {
    seq(|map_|, i requires 0 <= i < |map_| => map_[i].0)
  }

  /** `Array.prototype.filter` followed by `sort()`. */
  function SortedFilter(s: seq<string>, p: string -> bool): (r: seq<string>)
    ensures Sorted(r)
    ensures forall x :: x in r <==> x in s && p(x)
    ensures NoDup(s) ==> NoDup(r)
  {
    var f := Filter(s, p);
    var r := Sort(f);
    forall x ensures x in r <==> x in f {
      MultisetMembership(r, f, x);
    }
    SortKeepsNoDup(f);
    r
  }

  /** The names declared at least once. */
  function DeclaredSet(ds: seq<Declared>): set<string>
  {
    set k | 0 <= k < |ds| :: ds[k].name
  }

  lemma DeclaredSetMembers(ds: seq<Declared>)
    ensures forall x :: x in DeclaredSet(ds) <==> Declares(ds, x)
  {
  }

  /** The report of `main` for the given exports list, features map (in key
      enumeration order), feature word, parsed declarations and allowlist:
      the counts are of distinct names, the three lists are sorted, and the
      missing and extra lists hold each name once. */
  function MakeReport<P>(v: Reading, exportsSource: seq<string>, map_: seq<(string, seq<P>)>, test: (P, string) -> bool,
                         bits: Option<bv32>, ds: seq<Declared>, allow: set<string>): (r: Report)
    ensures Sorted(r.missing) && Sorted(r.extra) && Sorted(r.invalid)
    ensures NoDup(r.missing) && NoDup(r.extra)
    ensures forall x :: x in r.missing <==>
              x in exportsSource && IsRequired(v, x, map_, test, bits) && !Declares(ds, x) && x !in allow
    ensures forall x :: x in r.extra <==> Declares(ds, x) && x !in exportsSource
    ensures multiset(r.invalid) == multiset(InvalidNames(ds))
    ensures r.exports == |set x | x in exportsSource|
    ensures r.required == |set x | x in exportsSource && IsRequired(v, x, map_, test, bits)|
    ensures r.declared == |DeclaredSet(ds)|
    ensures r.featureBits == bits && r.featuresMapUsed == Keys(map_)
  {
    var exports := Dedup(exportsSource);
    var required := Required(v, exports, map_, test, bits);
    var declaredNames := Dedup(Names(ds));
    assert forall x :: x in declaredNames <==> Declares(ds, x) by {
      forall x | x in Names(ds) ensures Declares(ds, x) {
        var k :| 0 <= k < |ds| && Names(ds)[k] == x;
      }
    }
    NoDupCard(exports);
    NoDupCard(required);
    NoDupCard(declaredNames);
    assert (set x | x in exports) == set x | x in exportsSource;
    assert (set x | x in required) == set x | x in exportsSource && IsRequired(v, x, map_, test, bits);
    assert (set x | x in declaredNames) == DeclaredSet(ds);
    Report(|exports|, |required|, |declaredNames|,
           SortedFilter(required, x => x !in declaredNames && x !in allow),
           SortedFilter(declaredNames, x => x !in exports),
           Sort(InvalidNames(ds)), bits, Keys(map_))
  }

  lemma MultisetMembership(a: seq<string>, b: seq<string>, x: string)
    requires multiset(a) == multiset(b)
    ensures x in a <==> x in b
  {
    assert x in a <==> x in multiset(a);
    assert x in b <==> x in multiset(b);
  }

  /** A duplicate-free list has as many elements as distinct elements. */
  lemma {:induction false} NoDupCard(a: seq<string>)
    requires NoDup(a)
    ensures |set x | x in a| == |a|
    decreases |a|
  {
    if |a| > 0 {
      NoDupCard(a[1..]);
      assert (set x | x in a) == (set x | x in a[1..]) + {a[0]};
      assert a[0] !in (set x | x in a[1..]);
    }
  }

  /** In a duplicate-free list every element occurs once. */
  lemma {:induction false} NoDupMultiplicity(a: seq<string>, x: string)
    requires NoDup(a)
    ensures multiset(a)[x] == if x in a then 1 else 0
    decreases |a|
  {
    if |a| > 0 {
      assert a == [a[0]] + a[1..];
      assert a[0] !in a[1..];
      NoDupMultiplicity(a[1..], x);
    }
  }

  /** An element found at two positions occurs at least twice. */
  lemma TwoPositions(s: seq<string>, i: nat, j: nat)
    requires i < j < |s|
    ensures multiset(s)[s[i]] >= if s[i] == s[j] then 2 else 1
  {
    assert s == s[..j] + s[j..];
    assert s[..j][i] == s[i];
    assert s[j..][0] == s[j];
    assert multiset(s)[s[i]] == multiset(s[..j])[s[i]] + multiset(s[j..])[s[i]];
  }

  /** Sorting keeps a list free of duplicates. */
  lemma SortKeepsNoDup(a: seq<string>)
    ensures NoDup(a) ==> NoDup(Sort(a))
  {
    var t := Sort(a);
    forall i, j | 0 <= i < j < |t| && NoDup(a) ensures t[i] != t[j] {
      TwoPositions(t, i, j);
      NoDupMultiplicity(a, t[i]);
    }
  }

  /** Two duplicate-free lists with the same elements are permutations of
      each other. */
  lemma SameElementsSameMultiset(a: seq<string>, b: seq<string>)
    requires NoDup(a) && NoDup(b) && forall x :: x in a <==> x in b
    ensures multiset(a) == multiset(b)
  {
    forall x ensures multiset(a)[x] == multiset(b)[x] {
      NoDupMultiplicity(a, x);
      NoDupMultiplicity(b, x);
    }
  }

  /** The exit status: 1 when something is missing or malformed, else 0. */
  function ExitCode(r: Report): int
  {
    if |r.missing| > 0 || |r.invalid| > 0 then 1 else 0
  }

  /** Every required export is declared or allowlisted. */
  predicate AllCovered<P>(v: Reading, exportsSource: seq<string>, map_: seq<(string, seq<P>)>, test: (P, string) -> bool,
                          bits: Option<bv32>, ds: seq<Declared>, allow: set<string>)
  {
    forall x | x in exportsSource && IsRequired(v, x, map_, test, bits) :: x in allow || Declares(ds, x)
  }

  predicate AllValid(ds: seq<Declared>)
  {
    forall k | 0 <= k < |ds| :: ds[k].valid
  }

  lemma MissingEmptyIff<P>(v: Reading, exportsSource: seq<string>, map_: seq<(string, seq<P>)>, test: (P, string) -> bool,
                           bits: Option<bv32>, ds: seq<Declared>, allow: set<string>)
    ensures |MakeReport(v, exportsSource, map_, test, bits, ds, allow).missing| == 0
            <==> AllCovered(v, exportsSource, map_, test, bits, ds, allow)
  {
    var m := MakeReport(v, exportsSource, map_, test, bits, ds, allow).missing;
    if |m| > 0 {
      assert m[0] in m;
    }
  }

  lemma InvalidEmptyIff(ds: seq<Declared>, invalid: seq<string>)
    requires multiset(invalid) == multiset(InvalidNames(ds))
    ensures |invalid| == 0 <==> AllValid(ds)
  {
    if |invalid| > 0 {
      assert invalid[0] in multiset(InvalidNames(ds));
    }
    if !AllValid(ds) {
      var k :| 0 <= k < |ds| && !ds[k].valid;
      assert ds[k].name in InvalidNames(ds);
      assert ds[k].name in multiset(invalid);
    }
  }

  /** The checker passes exactly when every required export is declared or
      allowlisted and every declaration is well formed. */
  lemma ExitCodeMeaning<P>(v: Reading, exportsSource: seq<string>, map_: seq<(string, seq<P>)>, test: (P, string) -> bool,
                           bits: Option<bv32>, ds: seq<Declared>, allow: set<string>)
    ensures var code := ExitCode(MakeReport(v, exportsSource, map_, test, bits, ds, allow));
            (code == 0 || code == 1)
            && (code == 0 <==> AllCovered(v, exportsSource, map_, test, bits, ds, allow) && AllValid(ds))
  {
    var r := MakeReport(v, exportsSource, map_, test, bits, ds, allow);
    MissingEmptyIff(v, exportsSource, map_, test, bits, ds, allow);
    InvalidEmptyIff(ds, r.invalid);
  }

  /** The exit status over the declarations parsed at the registered keys:
      every required export has a key or is allowlisted, and every key's
      entry parses. */
  lemma ExitCodeOfParsed<P>(v: Reading, exportsSource: seq<string>, map_: seq<(string, seq<P>)>, test: (P, string) -> bool,
                            bits: Option<bv32>, nativeSrc: string, keys: seq<Key>, allow: set<string>)
    ensures ExitCode(MakeReport(v, exportsSource, map_, test, bits, DeclarationsIn(v, nativeSrc, keys), allow)) == 0 <==>
              (forall x | x in exportsSource && IsRequired(v, x, map_, test, bits) ::
                 x in allow || exists k | 0 <= k < |keys| :: keys[k].name == x)
              && forall k | 0 <= k < |keys| :: EntryIn(v, nativeSrc, keys[k]).valid
  {
    var ds := DeclarationsIn(v, nativeSrc, keys);
    ExitCodeMeaning(v, exportsSource, map_, test, bits, ds, allow);
    ParsedDeclarations(v, nativeSrc, keys);
  }

  /** The declarations parsed at the keys carry the keys' names, and they
      are all well formed exactly when every key's entry parses. */
  lemma ParsedDeclarations(v: Reading, nativeSrc: string, keys: seq<Key>)
    ensures forall x :: Declares(DeclarationsIn(v, nativeSrc, keys), x) <==> exists k | 0 <= k < |keys| :: keys[k].name == x
    ensures AllValid(DeclarationsIn(v, nativeSrc, keys)) <==> forall k | 0 <= k < |keys| :: EntryIn(v, nativeSrc, keys[k]).valid
  {
  }

  /** `main` from the parsed command line: the feature word is probed only
      when `--lib` is given, the allowlist is read only when `--allow` is,
      and the declarations are those parsed at the registered keys. */
  function RunChecker<P>(v: Reading, args: Args, exportsSource: seq<string>, map_: seq<(string, seq<P>)>,
                         test: (P, string) -> bool, probe: Option<bv32>,
                         nativeSrc: string, keys: seq<Key>, allowText: string): (out: (Report, int))
    ensures out.0.featureBits == FeatureBits(args, probe)
    ensures out.1 == 0 || out.1 == 1
    ensures out.1 == 0 <==>
              (forall x | x in exportsSource && IsRequired(v, x, map_, test, FeatureBits(args, probe)) ::
                 x in LoadAllowlist(args.allow, allowText) || exists k | 0 <= k < |keys| :: keys[k].name == x)
              && forall k | 0 <= k < |keys| :: EntryIn(v, nativeSrc, keys[k]).valid
  {
    var bits := FeatureBits(args, probe);
    var allow := LoadAllowlist(args.allow, allowText);
    var r := MakeReport(v, exportsSource, map_, test, bits, DeclarationsIn(v, nativeSrc, keys), allow);
    ExitCodeOfParsed(v, exportsSource, map_, test, bits, nativeSrc, keys, allow);
    (r, ExitCode(r))
  }

  /** The two readings gate an export alike when no features-map key is an
      inherited object key. */
  lemma IsRequiredReadings<P>(name: string, map_: seq<(string, seq<P>)>, test: (P, string) -> bool, bits: Option<bv32>)
    requires forall i | 0 <= i < |map_| :: map_[i].0 !in PROTOTYPE_KEYS
    ensures IsRequired(AsWritten, name, map_, test, bits) == IsRequired(Corrected, name, map_, test, bits)
  {
    var feat := FeatureForExport(name, map_, test);
    if feat.Some? && bits.Some? {
      IsBitSetAsWrittenMeaning(bits.value, feat.value);
    }
  }

  /** Reports built from the same inputs under two readings are equal when
      the readings gate every export alike. */
  lemma ReportReadings<P>(e: seq<string>, map_: seq<(string, seq<P>)>, test: (P, string) -> bool,
                          bits: Option<bv32>, ds: seq<Declared>, allow: set<string>)
    requires forall x | x in e :: IsRequired(AsWritten, x, map_, test, bits) == IsRequired(Corrected, x, map_, test, bits)
    ensures MakeReport(AsWritten, e, map_, test, bits, ds, allow) == MakeReport(Corrected, e, map_, test, bits, ds, allow)
  {
    ListsReadings(e, map_, test, bits, ds, allow);
    CountsReadings(e, map_, test, bits, ds, allow);
  }

  lemma ListsReadings<P>(e: seq<string>, map_: seq<(string, seq<P>)>, test: (P, string) -> bool,
                         bits: Option<bv32>, ds: seq<Declared>, allow: set<string>)
    requires forall x | x in e :: IsRequired(AsWritten, x, map_, test, bits) == IsRequired(Corrected, x, map_, test, bits)
    ensures MakeReport(AsWritten, e, map_, test, bits, ds, allow).missing == MakeReport(Corrected, e, map_, test, bits, ds, allow).missing
    ensures MakeReport(AsWritten, e, map_, test, bits, ds, allow).extra == MakeReport(Corrected, e, map_, test, bits, ds, allow).extra
    ensures MakeReport(AsWritten, e, map_, test, bits, ds, allow).invalid == MakeReport(Corrected, e, map_, test, bits, ds, allow).invalid
  {
    var r1 := MakeReport(AsWritten, e, map_, test, bits, ds, allow);
    var r2 := MakeReport(Corrected, e, map_, test, bits, ds, allow);
    SameElementsSameMultiset(r1.missing, r2.missing);
    SameElementsSameMultiset(r1.extra, r2.extra);
    SortedUnique(r1.missing, r2.missing);
    SortedUnique(r1.extra, r2.extra);
    SortedUnique(r1.invalid, r2.invalid);
  }

  lemma CountsReadings<P>(e: seq<string>, map_: seq<(string, seq<P>)>, test: (P, string) -> bool,
                          bits: Option<bv32>, ds: seq<Declared>, allow: set<string>)
    requires forall x | x in e :: IsRequired(AsWritten, x, map_, test, bits) == IsRequired(Corrected, x, map_, test, bits)
    ensures MakeReport(AsWritten, e, map_, test, bits, ds, allow).required == MakeReport(Corrected, e, map_, test, bits, ds, allow).required
    ensures MakeReport(AsWritten, e, map_, test, bits, ds, allow).exports == MakeReport(Corrected, e, map_, test, bits, ds, allow).exports
    ensures MakeReport(AsWritten, e, map_, test, bits, ds, allow).declared == MakeReport(Corrected, e, map_, test, bits, ds, allow).declared
    ensures MakeReport(AsWritten, e, map_, test, bits, ds, allow).featureBits == MakeReport(Corrected, e, map_, test, bits, ds, allow).featureBits
    ensures MakeReport(AsWritten, e, map_, test, bits, ds, allow).featuresMapUsed == MakeReport(Corrected, e, map_, test, bits, ds, allow).featuresMapUsed
  {
    assert (set x | x in e && IsRequired(AsWritten, x, map_, test, bits))
        == set x | x in e && IsRequired(Corrected, x, map_, test, bits);
  }

  /** The script as written and the corrected one give the same report and
      exit status whenever every value array in the native source holds a
      comma and no features-map key is an inherited object key. */
  lemma ReadingsAgree<P>(args: Args, exportsSource: seq<string>, map_: seq<(string, seq<P>)>,
                         test: (P, string) -> bool, probe: Option<bv32>,
                         nativeSrc: string, keys: seq<Key>, allowText: string)
    requires forall i | 0 <= i < |map_| :: map_[i].0 !in PROTOTYPE_KEYS
    requires forall k | 0 <= k < |keys| :: !NoCommaValue(nativeSrc, keys[k])
    ensures RunChecker(AsWritten, args, exportsSource, map_, test, probe, nativeSrc, keys, allowText)
            == RunChecker(Corrected, args, exportsSource, map_, test, probe, nativeSrc, keys, allowText)
  {
    var bits := FeatureBits(args, probe);
    ParseDeclaredReadings(nativeSrc, keys);
    assert DeclarationsIn(AsWritten, nativeSrc, keys) == DeclarationsIn(Corrected, nativeSrc, keys);
    forall x | x in exportsSource
      ensures IsRequired(AsWritten, x, map_, test, bits) == IsRequired(Corrected, x, map_, test, bits)
    {
      IsRequiredReadings(x, map_, test, bits);
    }
    ReportReadings(exportsSource, map_, test, bits, DeclarationsIn(Corrected, nativeSrc, keys),
                   LoadAllowlist(args.allow, allowText));
  }

  /** The no-comma finding end to end: with its one export declared as
      `['void']`, the script as written passes and the corrected one fails. */
  lemma NoCommaEntryPassesAsWritten<P>(test: (P, string) -> bool)
    ensures RunChecker(AsWritten, NO_ARGS, ["ratatui_x"], [], test, None, "['void']", [Key("ratatui_x", 0)], "").1 == 0
    ensures RunChecker(Corrected, NO_ARGS, ["ratatui_x"], [], test, None, "['void']", [Key("ratatui_x", 0)], "").1 == 1
  {
    NoCommaEntryAcceptedAsWritten();
    assert EntryIn(AsWritten, "['void']", Key("ratatui_x", 0)).valid;
    assert !EntryIn(Corrected, "['void']", Key("ratatui_x", 0)).valid;
  }

  /** The mask finding end to end: with a features-map key `toString`
      claiming the only export and a feature word of 0, the script as
      written requires nothing and passes, while the corrected one requires
      the undeclared export and fails. */
  lemma ToStringKeyDropsExportAsWritten<P>(pattern: P, test: (P, string) -> bool)
    requires test(pattern, "ratatui_x")
    ensures var args := NO_ARGS.(lib := Some("libratatui_ffi.so"));
            RunChecker(AsWritten, args, ["ratatui_x"], [("toString", [pattern])], test, Some(0), "", [], "").1 == 0
    ensures var args := NO_ARGS.(lib := Some("libratatui_ffi.so"));
            RunChecker(Corrected, args, ["ratatui_x"], [("toString", [pattern])], test, Some(0), "", [], "").1 == 1
  {
    var map_ := [("toString", [pattern])];
    assert EntryMatches(map_[0].1, "ratatui_x", test) by {
      assert map_[0].1[0] == pattern;
    }
    assert FirstFeatureAt("ratatui_x", map_, test, 0);
    assert "toString" in PROTOTYPE_KEYS;
    PrototypeKeysAreNotFeatures("toString");
    RequiredGating(AsWritten, "ratatui_x", map_, test, Some(0));
    RequiredGating(Corrected, "ratatui_x", map_, test, Some(0));
    assert !Bit(0, 0);
  }

  lemma CountsIgnoreOrder<P>(v: Reading, e1: seq<string>, e2: seq<string>, map_: seq<(string, seq<P>)>, test: (P, string) -> bool,
                             bits: Option<bv32>, ds1: seq<Declared>, ds2: seq<Declared>, allow: set<string>)
    requires forall x :: x in e1 <==> x in e2
    requires DeclaredSet(ds1) == DeclaredSet(ds2)
    ensures MakeReport(v, e1, map_, test, bits, ds1, allow).exports == MakeReport(v, e2, map_, test, bits, ds2, allow).exports
    ensures MakeReport(v, e1, map_, test, bits, ds1, allow).required == MakeReport(v, e2, map_, test, bits, ds2, allow).required
    ensures MakeReport(v, e1, map_, test, bits, ds1, allow).declared == MakeReport(v, e2, map_, test, bits, ds2, allow).declared
  {
    assert (set x | x in e1) == set x | x in e2;
    assert (set x | x in e1 && IsRequired(v, x, map_, test, bits)) == set x | x in e2 && IsRequired(v, x, map_, test, bits);
  }

  lemma ListsIgnoreOrder<P>(v: Reading, e1: seq<string>, e2: seq<string>, map_: seq<(string, seq<P>)>, test: (P, string) -> bool,
                            bits: Option<bv32>, ds1: seq<Declared>, ds2: seq<Declared>, allow: set<string>)
    requires forall x :: x in e1 <==> x in e2
    requires DeclaredSet(ds1) == DeclaredSet(ds2)
    requires multiset(InvalidNames(ds1)) == multiset(InvalidNames(ds2))
    ensures MakeReport(v, e1, map_, test, bits, ds1, allow).missing == MakeReport(v, e2, map_, test, bits, ds2, allow).missing
    ensures MakeReport(v, e1, map_, test, bits, ds1, allow).extra == MakeReport(v, e2, map_, test, bits, ds2, allow).extra
    ensures MakeReport(v, e1, map_, test, bits, ds1, allow).invalid == MakeReport(v, e2, map_, test, bits, ds2, allow).invalid
  {
    var r1 := MakeReport(v, e1, map_, test, bits, ds1, allow);
    var r2 := MakeReport(v, e2, map_, test, bits, ds2, allow);
    DeclaredSetMembers(ds1);
    DeclaredSetMembers(ds2);
    SameElementsSameMultiset(r1.missing, r2.missing);
    SameElementsSameMultiset(r1.extra, r2.extra);
    SortedUnique(r1.missing, r2.missing);
    SortedUnique(r1.extra, r2.extra);
    SortedUnique(r1.invalid, r2.invalid);
  }

  /** The report depends on the exports list and the declarations only
      through the set of exported names, the set of declared names and the
      malformed names with their repeats: reordering or repeating exports,
      or reordering declarations, changes nothing in it. */
  lemma ReportIgnoresOrder<P>(v: Reading, e1: seq<string>, e2: seq<string>, map_: seq<(string, seq<P>)>, test: (P, string) -> bool,
                              bits: Option<bv32>, ds1: seq<Declared>, ds2: seq<Declared>, allow: set<string>)
    requires forall x :: x in e1 <==> x in e2
    requires DeclaredSet(ds1) == DeclaredSet(ds2)
    requires multiset(InvalidNames(ds1)) == multiset(InvalidNames(ds2))
    ensures MakeReport(v, e1, map_, test, bits, ds1, allow) == MakeReport(v, e2, map_, test, bits, ds2, allow)
  {
    CountsIgnoreOrder(v, e1, e2, map_, test, bits, ds1, ds2, allow);
    ListsIgnoreOrder(v, e1, e2, map_, test, bits, ds1, ds2, allow);
  }
}
