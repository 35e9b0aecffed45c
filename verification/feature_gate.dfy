/** Feature gating in the coverage checker: which feature an export belongs
    to, which bit of the library's feature word stands for that feature, and
    whether the bit is set. The feature word is the library's `uint32`, kept
    here as its 32-bit pattern. */
module FeatureGate {
  import opened Wrappers

  /** The feature names the mask table knows, at their bit positions. */
  const FEATURE_NAMES: seq<string> :=
    ["SCROLLBAR", "CANVAS", "STYLE_DUMP_EX", "BATCH_TABLE_ROWS",
     "BATCH_LIST_ITEMS", "COLOR_HELPERS", "AXIS_LABELS"]

  /** Position of `x` in `s`, the first one if it occurs more than once. */
  function IndexIn(s: seq<string>, x: string): (r: Option<nat>)
    ensures r.None? <==> x !in s
    ensures r.Some? ==> r.value < |s| && s[r.value] == x && forall k | 0 <= k < r.value :: s[k] != x
  {
    if |s| == 0 then None
    else if s[0] == x then Some(0)
    else match IndexIn(s[1..], x)
      case None => None
      case Some(k) => Some(k + 1)
  }

  /** The feature names are pairwise distinct, so a name has one bit. */
  lemma FeatureNamesDistinct()
    ensures forall i, j | 0 <= i < j < |FEATURE_NAMES| :: FEATURE_NAMES[i] != FEATURE_NAMES[j]
  {
  }

  /** Whether bit `k` of `bits` is set. */
  predicate Bit(bits: bv32, k: nat)
    requires k < 32
  {
    (bits >> k) & 1 == 1
  }

  /** `bitMaskForName` with the lookup restricted to the table's own
      entries: bit `k` for the feature at position `k`, and no bit at all for
      any other name. */
  function BitMaskForName(name: string): (m: bv32)
    ensures m == 0 <==> name !in FEATURE_NAMES
    ensures forall k | 0 <= k < |FEATURE_NAMES| :: name == FEATURE_NAMES[k] ==>
              forall b | 0 <= b < 32 :: Bit(m, b) <==> b == k
  {
    FeatureNamesDistinct();
    match IndexIn(FEATURE_NAMES, name)
    case None => 0
    case Some(k) => SingleBit(k); Mask(k)
  }

  /** `1 << k` for a bit position of the table. */
  function Mask(k: nat): bv32
    requires k < 7
  {
    (1 as bv32) << k
  }

  /** `1 << k` has bit `k` and no other. */
  lemma SingleBit(k: nat)
    requires k < 7
    ensures Mask(k) != 0
    ensures forall b | 0 <= b < 32 :: Bit(Mask(k), b) <==> b == k
  {
  }

  /** `isBitSet`: every bit of the name's mask is set in `bits`. */
  predicate IsBitSet(bits: bv32, name: string)
  {
    var m := BitMaskForName(name);
    bits & m == m
  }

  /** A known feature is enabled exactly when its own bit is set; a name the
      table does not know has no bit to test and is always enabled. */
  lemma IsBitSetMeaning(bits: bv32, name: string)
    ensures name !in FEATURE_NAMES ==> IsBitSet(bits, name)
    ensures forall k | 0 <= k < |FEATURE_NAMES| :: name == FEATURE_NAMES[k] ==>
              (IsBitSet(bits, name) <==> Bit(bits, k))
  {
    forall k | 0 <= k < |FEATURE_NAMES| && name == FEATURE_NAMES[k]
      ensures IsBitSet(bits, name) <==> Bit(bits, k)
    {
      FeatureNamesDistinct();
      assert IndexIn(FEATURE_NAMES, name) == Some(k);
      SingleBit(k);
      BitAndSingle(bits, k);
    }
  }

  /** Masking with a single bit keeps exactly that bit. */
  lemma BitAndSingle(bits: bv32, k: nat)
    requires k < 7
    ensures bits & Mask(k) == Mask(k) <==> Bit(bits, k)
  {
  }

  /** The own properties of every object literal's prototype. Looking one of
      these up in the mask table finds an inherited member, not `undefined`. */
  const PROTOTYPE_KEYS: set<string> :=
    {"constructor", "__proto__", "hasOwnProperty", "isPrototypeOf",
     "propertyIsEnumerable", "toLocaleString", "toString", "valueOf",
     "__defineGetter__", "__defineSetter__", "__lookupGetter__", "__lookupSetter__"}

  /** Every feature name starts with a capital letter and no prototype key
      does, so the two sets of names are disjoint. */
  lemma PrototypeKeysAreNotFeatures(name: string)
    requires name in PROTOTYPE_KEYS
    ensures name !in FEATURE_NAMES
  {
    assert forall n | n in FEATURE_NAMES :: 'A' <= n[0] <= 'Z';
    assert !('A' <= name[0] <= 'Z');
  }

  /** `bitMaskForName` as written. The table is an object literal, so a
      prototype key finds an inherited function or object; that is not
      nullish, and `1 << x` of a value that converts to NaN shifts by 0,
      giving mask 1, the SCROLLBAR bit. */
  function BitMaskForNameAsWritten(name: string): (m: bv32)
    ensures name in FEATURE_NAMES ==> m == BitMaskForName(name)
    ensures name in PROTOTYPE_KEYS ==> m == 1
    ensures name !in FEATURE_NAMES && name !in PROTOTYPE_KEYS ==> m == 0
  {
    if name in PROTOTYPE_KEYS then PrototypeKeysAreNotFeatures(name); 1 else BitMaskForName(name)
  }

  predicate IsBitSetAsWritten(bits: bv32, name: string)
  {
    var m := BitMaskForNameAsWritten(name);
    bits & m == m
  }

  /** What the test as written means: it agrees with the corrected test on
      every name but the inherited keys, and for those it tests the
      SCROLLBAR bit, bit 0. */
  lemma IsBitSetAsWrittenMeaning(bits: bv32, name: string)
    ensures name !in PROTOTYPE_KEYS ==> (IsBitSetAsWritten(bits, name) <==> IsBitSet(bits, name))
    ensures name in PROTOTYPE_KEYS ==> (IsBitSetAsWritten(bits, name) <==> Bit(bits, 0))
  {
    if name in PROTOTYPE_KEYS {
      PrototypeKeyTestsBitZero(bits, name);
    } else {
      OtherKeyTestsAlike(bits, name);
    }
  }

  lemma PrototypeKeyTestsBitZero(bits: bv32, name: string)
    requires name in PROTOTYPE_KEYS
    ensures IsBitSetAsWritten(bits, name) <==> Bit(bits, 0)
  {
    assert BitMaskForNameAsWritten(name) == Mask(0);
    BitAndSingle(bits, 0);
  }

  lemma OtherKeyTestsAlike(bits: bv32, name: string)
    requires name !in PROTOTYPE_KEYS
    ensures IsBitSetAsWritten(bits, name) == IsBitSet(bits, name)
  {
    var m := BitMaskForName(name);
    assert BitMaskForNameAsWritten(name) == m;
  }

  /** A features-map key named `toString` is gated on the SCROLLBAR bit as
      written: with no feature bits set, its exports are dropped from the
      required set, while any other unknown key keeps its exports required. */
  lemma PrototypeKeyGatedOnScrollbar()
    ensures "toString" !in FEATURE_NAMES
    ensures !IsBitSetAsWritten(0, "toString")
    ensures IsBitSetAsWritten(1, "toString")
    ensures IsBitSet(0, "toString")
  {
    assert "toString" in PROTOTYPE_KEYS;
  }

  /** Whether any pattern of a features-map entry matches the export name;
      `test` stands for `RegExp.prototype.test`. */
  predicate EntryMatches<P>(patterns: seq<P>, name: string, test: (P, string) -> bool)
  {
    exists j | 0 <= j < |patterns| :: test(patterns[j], name)
  }

  /** Position of the first features-map entry with a matching pattern. */
  function FirstMatch<P>(name: string, map_: seq<(string, seq<P>)>, test: (P, string) -> bool): (r: Option<nat>)
    ensures r.None? <==> forall i | 0 <= i < |map_| :: !EntryMatches(map_[i].1, name, test)
    ensures r.Some? ==>
              r.value < |map_| && EntryMatches(map_[r.value].1, name, test)
              && forall i | 0 <= i < r.value :: !EntryMatches(map_[i].1, name, test)
  {
    if |map_| == 0 then None
    else if EntryMatches(map_[0].1, name, test) then Some(0)
    else
      match FirstMatch(name, map_[1..], test)
      case None =>
        assert forall i | 0 < i < |map_| :: map_[i] == map_[1..][i - 1];
        None
      case Some(k) =>
        assert forall i | 0 < i <= k + 1 :: map_[i] == map_[1..][i - 1];
        Some(k + 1)
  }

  /** `featureForExport`: the first feature, in the map's enumeration order,
      with a pattern that matches the name; `None` for null. */
  function FeatureForExport<P>(name: string, map_: seq<(string, seq<P>)>, test: (P, string) -> bool): (r: Option<string>)
    ensures r.None? <==> forall i | 0 <= i < |map_| :: !EntryMatches(map_[i].1, name, test)
    ensures r.Some? ==> exists i | 0 <= i < |map_| ::
              map_[i].0 == r.value && EntryMatches(map_[i].1, name, test)
              && forall i' | 0 <= i' < i :: !EntryMatches(map_[i'].1, name, test)
  {
    match FirstMatch(name, map_, test)
    case None => None
    case Some(i) => Some(map_[i].0)
  }
}
