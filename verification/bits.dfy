/** Bit-level encoding of a single puzzle cell.

    A cell is an unsigned byte. On the public-input side it becomes
    `CellWidth` field elements, each 0 or 1, least-significant bit first:
    element i is `(value >> i) & 1`. Field elements are modelled as the
    integers 0 and 1; no field arithmetic is involved. */
module Bits {

  /** An unsigned 8-bit cell value. */
  type Byte = x: int | 0 <= x < 256

  /** Number of public-input elements emitted per cell. */
  const CellWidth: nat := 8

  /** 2^i */
  function Pow2(i: nat): (p: nat)
    ensures p >= 1
  {
    if i == 0 then 1 else 2 * Pow2(i - 1)
  }

  /** Logical right shift `v >> i` of an unsigned value, as i shifts by
      one place. It never grows the value, and it clears every value below
      2^i. */
  function ShiftRight(v: nat, i: nat): (s: nat)
    ensures s <= v
    ensures v < Pow2(i) ==> s == 0
  {
    if i == 0 then v else ShiftRight(v / 2, i - 1)
  }

  /** `(v >> i) & 1`: bit i of v, bit 0 being the least significant. */
  function BitAt(v: nat, i: nat): (b: int)
    ensures b == 0 || b == 1
  {
    ShiftRight(v, i) % 2
  }

  /** Every element is 0 or 1. */
  predicate IsBinary(bits: seq<int>)
  {
    forall k :: 0 <= k < |bits| ==> bits[k] == 0 || bits[k] == 1
  }

  /** The low `w` bits of `v`, least-significant first. */
  function EncodeBits(v: nat, w: nat): (bits: seq<int>)
    ensures |bits| == w
    ensures IsBinary(bits)
  {
    if w == 0 then [] else [v % 2] + EncodeBits(v / 2, w - 1)
  }

  /** The value of a least-significant-first bit string: the sum of
      bits[i] * 2^i, evaluated by Horner's rule. */
  function DecodeBits(bits: seq<int>): (v: int)
    ensures IsBinary(bits) ==> 0 <= v < Pow2(|bits|)
  {
    if |bits| == 0 then 0 else bits[0] + 2 * DecodeBits(bits[1..])
  }

  /** The public-input block of one cell: eight 0/1 elements whose value,
      least-significant first, is the cell itself. */
  function EncodeCell(v: Byte): (bits: seq<int>)
    ensures |bits| == CellWidth && IsBinary(bits)
    ensures DecodeBits(bits) == v
  {
    assert Pow2(CellWidth) == 256;
    DecodeEncode(v, CellWidth);
    EncodeBits(v, CellWidth)
  }

  /** The cell value a well-formed block stands for. */
  function DecodeCell(bits: seq<int>): (v: Byte)
    requires |bits| == CellWidth && IsBinary(bits)
    ensures EncodeCell(v) == bits
  {
    EncodeDecode(bits);
    DecodeBits(bits)
  }

  /** A quotient-remainder decomposition determines the quotient. */
  lemma DivUnique(a: nat, d: nat, q: nat, r: nat)
    requires d > 0 && r < d && a == d * q + r
    ensures a / d == q
  {
    var q', r' := a / d, a % d;
    assert d * q' + r' == d * q + r;
    if q' < q {
      assert d * (q - q') == d * q - d * q';
      MulAtLeast(d, q - q');
    } else if q' > q {
      assert d * (q' - q) == d * q' - d * q;
      MulAtLeast(d, q' - q);
    }
  }

  /** Multiplying a natural by a positive count does not shrink it. */
  lemma MulAtLeast(d: nat, k: nat)
    requires k >= 1
    ensures d * k >= d
  {
  }

  /** Shifting right by i is division by 2^i, rounded down. */
  lemma {:induction false} ShiftRightIsDivision(v: nat, i: nat)
    ensures ShiftRight(v, i) == v / Pow2(i)
  {
    if i > 0 {
      ShiftRightIsDivision(v / 2, i - 1);
      HalveThenDivide(v, Pow2(i - 1));
    }
  }

  /** Halving and then dividing by m is dividing by 2 * m. */
  lemma HalveThenDivide(v: nat, m: nat)
    requires m > 0
    ensures v / 2 / m == v / (2 * m)
  {
    var q, r := v / 2, v % 2;
    var q2, r2 := q / m, q % m;
    var mq2 := m * q2;
    assert v == 2 * mq2 + (2 * r2 + r);
    assert 2 * mq2 == (2 * m) * q2;
    DivUnique(v, 2 * m, q2, 2 * r2 + r);
  }

  /** Element i of the encoding is `(v >> i) & 1`: the encoding is
      least-significant bit first. */
  lemma {:induction false} EncodeBitsAt(v: nat, w: nat, i: nat)
    requires i < w
    ensures EncodeBits(v, w)[i] == BitAt(v, i)
  {
    if i > 0 {
      EncodeBitsAt(v / 2, w - 1, i - 1);
    }
  }

  /** Decoding undoes encoding for every value that fits in w bits. */
  lemma {:induction false} DecodeEncode(v: nat, w: nat)
    requires v < Pow2(w)
    ensures DecodeBits(EncodeBits(v, w)) == v
  {
    if w > 0 {
      DecodeEncode(v / 2, w - 1);
      assert EncodeBits(v, w)[1..] == EncodeBits(v / 2, w - 1);
    }
  }

  /** Encoding undoes decoding for every bit string of 0s and 1s. */
  lemma {:induction false} EncodeDecode(bits: seq<int>)
    requires IsBinary(bits)
    ensures EncodeBits(DecodeBits(bits), |bits|) == bits
  {
    if |bits| > 0 {
      var rest := bits[1..];
      assert IsBinary(rest) by {
        forall k | 0 <= k < |rest| ensures rest[k] == 0 || rest[k] == 1 {
          assert rest[k] == bits[k + 1];
        }
      }
      EncodeDecode(rest);
      var v := DecodeBits(bits);
      assert v % 2 == bits[0] && v / 2 == DecodeBits(rest);
    }
  }

  /** Eight bits cover every byte: a cell block decodes back to the cell,
      with no truncation. */
  lemma CellRoundTrip(v: Byte)
    ensures |EncodeCell(v)| == CellWidth
    ensures DecodeCell(EncodeCell(v)) == v
  {
    assert Pow2(CellWidth) == 256;
    DecodeEncode(v, CellWidth);
  }

  /** Distinct cells have distinct blocks. */
  lemma EncodeCellInjective(a: Byte, b: Byte)
    ensures EncodeCell(a) == EncodeCell(b) <==> a == b
  {
    CellRoundTrip(a);
    CellRoundTrip(b);
  }
}
