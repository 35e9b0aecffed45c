/** How `layoutSplitEx2`, `layoutSplitPercentages` and `Table.setWidths`
    encode layout constraints for the native solver, and how the solver's
    output buffer is read back. The solver itself is native and appears here
    only as the rectangles it writes. */
module LayoutArgs {
  import opened Wrappers

  datatype ConstraintKind = Length | Percentage | Min

  datatype Constraint = Constraint(kind: ConstraintKind, value: int)

  datatype Rect = Rect(x: nat, y: nat, width: nat, height: nat)

  /** The placeholder each output slot holds before the native call. */
  const ZERO_RECT: Rect := Rect(0, 0, 0, 0)

  /** `toConstraintKind`: Length 0, Percentage 1, Min 2. */
  function KindCode(k: ConstraintKind): (code: nat)
    ensures code < 3
    ensures k.Length? <==> code == 0
    ensures k.Percentage? <==> code == 1
    ensures k.Min? <==> code == 2
  {
    match k
    case Percentage => 1
    case Min => 2
    case Length => 0
  }

  /** How the native side reads a kind code back. */
  function KindFromCode(code: int): Option<ConstraintKind>
  {
    if code == 0 then Some(Length)
    else if code == 1 then Some(Percentage)
    else if code == 2 then Some(Min)
    else None
  }

  /** The kind encoding is a bijection between the three kinds and the codes 0..2. */
  lemma KindCodeRoundTrip(k: ConstraintKind, code: int)
    ensures KindFromCode(KindCode(k)) == Some(k)
    ensures KindFromCode(code).Some? <==> 0 <= code < 3
    ensures KindFromCode(code).Some? ==> KindCode(KindFromCode(code).value) == code
  {
  }

  /** The arguments of `ratatui_layout_split_ex2`. */
  datatype SplitCall = SplitCall(
    width: int, height: int, dir: int,
    kinds: seq<nat>, valuesA: seq<int>, valuesB: seq<int>, len: nat,
    spacing: int, marginL: int, marginT: int, marginR: int, marginB: int,
    outCap: nat)

  /** The call `layoutSplitEx2` issues: one kind code and one value per
      constraint in input order, a second value array of zeros, and an output
      capacity equal to the constraint count. */
  function SplitEx2Call(width: int, height: int, dir: int, cs: seq<Constraint>,
                        spacing: int, marginL: int, marginT: int, marginR: int, marginB: int): (c: SplitCall)
    ensures c.len == |cs| && c.outCap == |cs|
    ensures |c.kinds| == |cs| && |c.valuesA| == |cs| && |c.valuesB| == |cs|
    ensures forall i | 0 <= i < |cs| ::
              KindFromCode(c.kinds[i]) == Some(cs[i].kind) && c.valuesA[i] == cs[i].value && c.valuesB[i] == 0
    ensures c.width == width && c.height == height && c.dir == dir && c.spacing == spacing
    ensures c.marginL == marginL && c.marginT == marginT && c.marginR == marginR && c.marginB == marginB
  {
    SplitCall(width, height, dir,
              seq(|cs|, i requires 0 <= i < |cs| => KindCode(cs[i].kind)),
              seq(|cs|, i requires 0 <= i < |cs| => cs[i].value),
              seq(|cs|, i => 0),
              |cs|, spacing, marginL, marginT, marginR, marginB, |cs|)
  }

  /** The rectangles read out of a zero-filled buffer of `outCap` slots into
      which the native solver wrote `written` (anything past the capacity is
      not read). */
  function ReadRects(outCap: nat, written: seq<Rect>): (rects: seq<Rect>)
    ensures |rects| == outCap
    ensures forall i | 0 <= i < outCap :: rects[i] == (if i < |written| then written[i] else ZERO_RECT)
  {
    seq(outCap, i requires 0 <= i < outCap => if i < |written| then written[i] else ZERO_RECT)
  }

  /** `layoutSplitEx2`: the native call and exactly one rectangle per constraint. */
  function LayoutSplitEx2(width: int, height: int, dir: int, cs: seq<Constraint>,
                          spacing: int, marginL: int, marginT: int, marginR: int, marginB: int,
                          written: seq<Rect>): (r: (SplitCall, seq<Rect>))
    ensures r.0 == SplitEx2Call(width, height, dir, cs, spacing, marginL, marginT, marginR, marginB)
    ensures |r.1| == |cs|
    ensures |written| >= |cs| ==> r.1 == written[..|cs|]
  {
    var call := SplitEx2Call(width, height, dir, cs, spacing, marginL, marginT, marginR, marginB);
    (call, ReadRects(call.outCap, written))
  }

  /** The constraint list `layoutSplitPercentages` builds. */
  function PercentageConstraints(ps: seq<int>): (cs: seq<Constraint>)
    ensures |cs| == |ps|
    ensures forall i | 0 <= i < |ps| :: cs[i] == Constraint(Percentage, ps[i])
  {
    seq(|ps|, i requires 0 <= i < |ps| => Constraint(Percentage, ps[i]))
  }

  /** `layoutSplitPercentages`: every kind code is 1, the values are the
      percentages in order, and one rectangle comes back per percentage. */
  function LayoutSplitPercentages(width: int, height: int, dir: int, ps: seq<int>,
                                  spacing: int, marginL: int, marginT: int, marginR: int, marginB: int,
                                  written: seq<Rect>): (r: (SplitCall, seq<Rect>))
    ensures r.0.kinds == seq(|ps|, i => 1)
    ensures r.0.valuesA == ps
    ensures r.0.outCap == |ps| && |r.1| == |ps|
  {
    var cs := PercentageConstraints(ps);
    var r := LayoutSplitEx2(width, height, dir, cs, spacing, marginL, marginT, marginR, marginB, written);
    assert forall i | 0 <= i < |ps| :: KindFromCode(r.0.kinds[i]) == Some(Percentage);
    r
  }

  const TWO_31: int := 0x8000_0000
  const TWO_32: int := 0x1_0000_0000

  /** JavaScript's `v | 0` on an integral number: wrap to a signed 32-bit value. */
  function ToInt32(v: int): (r: int)
    ensures -TWO_31 <= r < TWO_31
    ensures (r - v) % TWO_32 == 0
    ensures -TWO_31 <= v < TWO_31 ==> r == v
  {
    (v + TWO_31) % TWO_32 - TWO_31
  }

  /** A JavaScript number: a finite value, NaN, or an infinity. Finite
      doubles are modelled by the reals they denote. */
  datatype JsNumber = Finite(x: real) | NaN | Infinity(negative: bool)

  /** Truncation toward zero, the first step of ECMAScript's ToInt32. */
  function Truncate(x: real): (n: int)
    ensures 0.0 <= x ==> n as real <= x < n as real + 1.0
    ensures x < 0.0 ==> n as real - 1.0 < x <= n as real
  {
    if 0.0 <= x then x.Floor else -((-x).Floor)
  }

  /** JavaScript's `v | 0` on any number: NaN and the infinities give 0, a
      finite value is truncated toward zero and then wrapped to 32 bits. */
  function NumberToInt32(v: JsNumber): (r: int)
    ensures -TWO_31 <= r < TWO_31
    ensures !v.Finite? ==> r == 0
    ensures v.Finite? ==> (r - Truncate(v.x)) % TWO_32 == 0
    ensures v.Finite? && -TWO_31 as real < v.x < TWO_31 as real ==> r == Truncate(v.x)
  {
    match v
    case Finite(x) => ToInt32(Truncate(x))
    case _ => 0
  }

  /** The element type of `Table.setWidths`: a kind and a plain JS number. */
  datatype WidthConstraint = WidthConstraint(kind: ConstraintKind, value: JsNumber)

  /** The arguments of `ratatui_table_set_widths`. */
  datatype WidthsCall = WidthsCall(kinds: seq<nat>, values: seq<int>, len: nat)

  /** `Table.setWidths`: kind codes as for layout, values converted by `| 0`. */
  function SetWidths(cs: seq<WidthConstraint>): (c: WidthsCall)
    ensures c.len == |cs| && |c.kinds| == |cs| && |c.values| == |cs|
    ensures forall i | 0 <= i < |cs| ::
              KindFromCode(c.kinds[i]) == Some(cs[i].kind) && -TWO_31 <= c.values[i] < TWO_31
    ensures forall i | 0 <= i < |cs| && !cs[i].value.Finite? :: c.values[i] == 0
    ensures forall i | 0 <= i < |cs| && cs[i].value.Finite? ::
              (c.values[i] - Truncate(cs[i].value.x)) % TWO_32 == 0
    ensures forall i | 0 <= i < |cs| && cs[i].value.Finite? && -TWO_31 as real < cs[i].value.x < TWO_31 as real ::
              c.values[i] == Truncate(cs[i].value.x)
  {
    WidthsCall(seq(|cs|, i requires 0 <= i < |cs| => KindCode(cs[i].kind)),
               seq(|cs|, i requires 0 <= i < |cs| => NumberToInt32(cs[i].value)),
               |cs|)
  }

  /** Fractions are cut toward zero on both sides of 0, and NaN and the
      infinities are sent as 0. */
  lemma SetWidthsTruncates()
    ensures SetWidths([WidthConstraint(Length, Finite(2.5)), WidthConstraint(Min, Finite(-2.5)),
                       WidthConstraint(Percentage, NaN), WidthConstraint(Length, Infinity(false))]).values
            == [2, -2, 0, 0]
  {
    var c := SetWidths([WidthConstraint(Length, Finite(2.5)), WidthConstraint(Min, Finite(-2.5)),
                        WidthConstraint(Percentage, NaN), WidthConstraint(Length, Infinity(false))]);
    assert Truncate(2.5) == 2;
    assert Truncate(-2.5) == -2;
  }
}
