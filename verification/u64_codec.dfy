/** The little-endian u64 buffer that `BarChart.setValues` and
    `Sparkline.setValues` hand to the native library: value `i` of the series
    occupies bytes `[8i, 8i + 8)`, least significant byte first. */
module U64Codec {
  import opened Wrappers

  type byte = x: int | 0 <= x < 256

  /** 2^64: `Buffer.writeBigUInt64LE` accepts exactly the values below it. */
  const U64_LIMIT: nat := 0x1_0000_0000_0000_0000

  function Pow256(n: nat): (p: nat)
    ensures p >= 1
  {
    if n == 0 then 1 else 256 * Pow256(n - 1)
  }

  /** The `n` base-256 digits of `v`, least significant first. */
  function LE(v: nat, n: nat): (bs: seq<byte>)
    ensures |bs| == n
  {
    if n == 0 then [] else [v % 256] + LE(v / 256, n - 1)
  }

  lemma Pow256Eight()
    ensures Pow256(8) == U64_LIMIT
  {
  }

  /** The number whose base-256 digits, least significant first, are `bs`. */
  function FromLE(bs: seq<byte>): (v: nat)
    ensures v < Pow256(|bs|)
  {
    if |bs| == 0 then 0 else bs[0] + 256 * FromLE(bs[1..])
  }

  /** Byte `k` of the encoding is digit `k` of `v` in base 256. */
  lemma {:induction false} LEDigit(v: nat, n: nat, k: nat)
    requires k < n
    ensures LE(v, n)[k] == (v / Pow256(k)) % 256
  {
    if k > 0 {
      LEDigit(v / 256, n - 1, k - 1);
      DivDiv(v, 256, Pow256(k - 1));
    }
  }

  lemma DivDiv(v: nat, a: nat, b: nat)
    requires a > 0 && b > 0
    ensures v / a / b == v / (a * b)
  {
    var q := v / a / b;
    var r1 := v % a;
    var r2 := (v / a) % b;
    assert v == a * (v / a) + r1;
    assert v / a == b * q + r2;
    assert a * (v / a) == a * (b * q) + a * r2;
    assert a * (b * q) == (a * b) * q;
    assert a * r2 <= a * (b - 1) by { MulMono(a, r2, b - 1); }
    assert a * (b - 1) == a * b - a;
    DivUnique(v, a * b, q, a * r2 + r1);
  }

  lemma MulMono(a: nat, x: nat, y: nat)
    requires x <= y
    ensures a * x <= a * y
  {
    assert a * y == a * x + a * (y - x);
  }

  /** Division is determined by any quotient/remainder pair in range. */
  lemma DivUnique(v: int, m: int, q: int, r: int)
    requires m > 0 && 0 <= r < m && v == m * q + r
    ensures v / m == q
  {
    var q', r' := v / m, v % m;
    assert v == m * q' + r';
    assert m * (q - q') == r' - r;
    if q - q' >= 1 {
      MulMono(m, 1, q - q');
    } else if q' - q >= 1 {
      MulMono(m, 1, q' - q);
    }
  }

  lemma {:induction false} FromLEofLE(v: nat, n: nat)
    requires v < Pow256(n)
    ensures FromLE(LE(v, n)) == v
  {
    if n > 0 {
      FromLEofLE(v / 256, n - 1);
      assert LE(v, n)[1..] == LE(v / 256, n - 1);
    }
  }

  lemma {:induction false} LEofFromLE(bs: seq<byte>)
    ensures LE(FromLE(bs), |bs|) == bs
  {
    if |bs| > 0 {
      var v := FromLE(bs);
      assert v % 256 == bs[0];
      assert v / 256 == FromLE(bs[1..]);
      LEofFromLE(bs[1..]);
      assert bs == [bs[0]] + bs[1..];
    }
  }

  /** The numbers a JavaScript caller may put in the series: an integral
      `number` or a `bigint` (both carried as `Integral`), or a `number` with a
      fractional part, `NaN` or an infinity, on which `BigInt(v)` throws. */
  datatype JsNumeric = Integral(v: int) | NonIntegral

  datatype SeriesError =
    | NotAnInteger(index: nat)  // `BigInt(v)` throws a RangeError
    | OutOfRange(index: nat)    // `writeBigUInt64LE` throws ERR_OUT_OF_RANGE

  predicate IsU64(x: JsNumeric)
  {
    x.Integral? && 0 <= x.v < U64_LIMIT
  }

  function U64Of(x: JsNumeric): nat
    requires IsU64(x)
  {
    x.v
  }

  /** The bytes of a series whose values all fit in 64 bits. */
  function PackSeries(values: seq<nat>): (bs: seq<byte>)
    requires forall i | 0 <= i < |values| :: values[i] < U64_LIMIT
    ensures |bs| == 8 * |values| && |bs| % 8 == 0 && |bs| / 8 == |values|
    ensures forall i | 0 <= i < |values| :: bs[8 * i..8 * i + 8] == LE(values[i], 8)
  {
    if |values| == 0 then []
    else
      var rest := PackSeries(values[1..]);
      var bs := LE(values[0], 8) + rest;
      assert forall i | 1 <= i < |values| :: bs[8 * i..8 * i + 8] == rest[8 * (i - 1)..8 * (i - 1) + 8];
      bs
  }

  /** The series read back from a buffer, eight bytes per value. */
  function UnpackSeries(bs: seq<byte>): (values: seq<nat>)
    requires |bs| % 8 == 0
    ensures |values| == |bs| / 8
    ensures forall i | 0 <= i < |values| :: values[i] == FromLE(bs[8 * i..8 * i + 8])
  {
    if |bs| == 0 then []
    else
      var rest := UnpackSeries(bs[8..]);
      var values := [FromLE(bs[..8])] + rest;
      assert forall i | 1 <= i < |values| :: bs[8 * i..8 * i + 8] == bs[8..][8 * (i - 1)..8 * (i - 1) + 8];
      values
  }

  /** Decoding the packed buffer recovers every value of the series. */
  lemma UnpackPack(values: seq<nat>)
    requires forall i | 0 <= i < |values| :: values[i] < U64_LIMIT
    ensures UnpackSeries(PackSeries(values)) == values
  {
    var bs := PackSeries(values);
    var back := UnpackSeries(bs);
    forall i | 0 <= i < |values| ensures back[i] == values[i] {
      DecodeChunk(bs, i, values[i]);
    }
  }

  lemma DecodeChunk(bs: seq<byte>, i: nat, v: nat)
    requires |bs| % 8 == 0 && i < |bs| / 8 && v < U64_LIMIT
    requires bs[8 * i..8 * i + 8] == LE(v, 8)
    ensures UnpackSeries(bs)[i] == v
  {
    Pow256Eight();
    FromLEofLE(v, 8);
  }

  /** Encoding a decoded buffer reproduces the buffer byte for byte. */
  lemma {:induction false} PackUnpack(bs: seq<byte>)
    requires |bs| % 8 == 0
    ensures var vs := UnpackSeries(bs);
            (forall i | 0 <= i < |vs| :: vs[i] < U64_LIMIT) && PackSeries(vs) == bs
  {
    var vs := UnpackSeries(bs);
    Pow256Eight();
    forall i | 0 <= i < |vs| ensures vs[i] < U64_LIMIT {
      assert |bs[8 * i..8 * i + 8]| == 8;
    }
    if |bs| > 0 {
      PackUnpack(bs[8..]);
      assert vs == [FromLE(bs[..8])] + UnpackSeries(bs[8..]);
      assert vs[1..] == UnpackSeries(bs[8..]);
      LEofFromLE(bs[..8]);
      assert bs == bs[..8] + bs[8..];
    }
  }

  /** The buffer `setValues` builds, or the error its loop throws first. */
  method EncodeSeries(values: seq<JsNumeric>) returns (r: Result<seq<byte>, SeriesError>)
    ensures r.Success? <==> forall i | 0 <= i < |values| :: IsU64(values[i])
    ensures r.Success? ==>
              |r.value| == 8 * |values|
              && forall i | 0 <= i < |values| :: r.value[8 * i..8 * i + 8] == LE(U64Of(values[i]), 8)
    ensures r.Failure? ==>
              var k := r.error.index;
              k < |values| && !IsU64(values[k]) && (forall i | 0 <= i < k :: IsU64(values[i]))
              && (r.error.NotAnInteger? <==> values[k].NonIntegral?)
  {
    var buf: seq<byte> := [];
    var i := 0;
    while i < |values|
      invariant 0 <= i <= |values|
      invariant |buf| == 8 * i
      invariant forall j | 0 <= j < i :: IsU64(values[j])
      invariant forall j | 0 <= j < i :: buf[8 * j..8 * j + 8] == LE(U64Of(values[j]), 8)
    {
      var v := values[i];
      if v.NonIntegral? {
        return Failure(NotAnInteger(i));
      }
      if !(0 <= v.v < U64_LIMIT) {
        return Failure(OutOfRange(i));
      }
      var old_buf := buf;
      buf := buf + LE(v.v, 8);
      assert forall j | 0 <= j < i :: buf[8 * j..8 * j + 8] == old_buf[8 * j..8 * j + 8];
      i := i + 1;
    }
    return Success(buf);
  }

  /** Whenever the encoder succeeds, the native side can decode the series back. */
  lemma EncodeRoundTrip(values: seq<JsNumeric>, bs: seq<byte>)
    requires forall i | 0 <= i < |values| :: IsU64(values[i])
    requires |bs| == 8 * |values|
    requires forall i | 0 <= i < |values| :: bs[8 * i..8 * i + 8] == LE(U64Of(values[i]), 8)
    ensures |UnpackSeries(bs)| == |values|
    ensures forall i | 0 <= i < |values| :: values[i].Integral? && UnpackSeries(bs)[i] == values[i].v
  {
    Pow256Eight();
    forall i | 0 <= i < |values| ensures UnpackSeries(bs)[i] == values[i].v {
      assert UnpackSeries(bs)[i] == FromLE(bs[8 * i..8 * i + 8]);
      FromLEofLE(values[i].v, 8);
    }
  }
}
