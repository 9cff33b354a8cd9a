/**
 * `create_huf_data`: the Huffman codes of the data are concatenated, padded
 * with zeros, packed eight to a byte most significant bit first, and followed
 * by the number of padding bits as one ASCII digit.
 */
module Packing {
  import opened Bytes
  import opened Huffman

  function Pow2(n: nat): (p: nat)
    ensures p >= 1
  {
    if n == 0 then 1 else 2 * Pow2(n - 1)
  }

  /** `int(bits, 2)`: the value of a binary numeral, most significant bit first. */
  function Value(bits: Bits): (v: nat)
    ensures v < Pow2(|bits|)
  {
    if bits == [] then 0
    else 2 * Value(bits[..|bits| - 1]) + (if bits[|bits| - 1] then 1 else 0)
  }

  /** The low `n` bits of `x` as a binary numeral, most significant bit first. */
  function BitsOf(x: nat, n: nat): (r: Bits)
    ensures |r| == n
  {
    if n == 0 then [] else BitsOf(x / 2, n - 1) + [x % 2 == 1]
  }

  /** Reading a numeral back gives the number it was written from. */
  lemma {:induction false} ValueOfBitsOf(x: nat, n: nat)
    requires x < Pow2(n)
    ensures Value(BitsOf(x, n)) == x
  {
    if n > 0 {
      ValueOfBitsOf(x / 2, n - 1);
      assert BitsOf(x, n)[..n - 1] == BitsOf(x / 2, n - 1);
    }
  }

  /** Writing the value of a numeral back gives the numeral. */
  lemma {:induction false} BitsOfValue(bits: Bits)
    ensures BitsOf(Value(bits), |bits|) == bits
  {
    if bits != [] {
      var p := bits[..|bits| - 1];
      var v := Value(bits);
      assert v / 2 == Value(p);
      assert v % 2 == (if bits[|bits| - 1] then 1 else 0);
      BitsOfValue(p);
      assert bits == p + [bits[|bits| - 1]];
    }
  }

  /** The first loop of `create_huf_data`: the code of each byte, in order. */
  function EncodeBits(data: Bytes, m: map<byte, Bits>): Bits
    requires forall i :: 0 <= i < |data| ==> data[i] in m
  {
    if data == [] then [] else EncodeBits(data[..|data| - 1], m) + m[data[|data| - 1]]
  }

  /** `8 - len(bits) % 8`: the number of zero bits appended, 1 to 8. */
  function PadLen(bits: Bits): (p: nat)
    ensures 1 <= p <= 8
    ensures (|bits| + p) % 8 == 0
  {
    8 - |bits| % 8
  }

  function Zeros(n: nat): (z: Bits)
    ensures |z| == n && forall i :: 0 <= i < n ==> !z[i]
  {
    seq(n, _ => false)
  }

  /** Groups of eight bits, each read as one byte. */
  function PackBits(bits: Bits): (r: Bytes)
    requires |bits| % 8 == 0
    ensures |r| == |bits| / 8
    decreases |bits|
  {
    if bits == [] then [] else [Value(bits[..8])] + PackBits(bits[8..])
  }

  lemma PackStep(bits: Bits, i: nat)
    requires |bits| % 8 == 0 && i % 8 == 0 && i < |bits|
    ensures i + 8 <= |bits| && (|bits| - i) % 8 == 0
    ensures PackBits(bits[i..]) == [Value(bits[i..i + 8])] + PackBits(bits[i + 8..])
  {
    assert bits[i..][..8] == bits[i..i + 8] && bits[i..][8..] == bits[i + 8..];
  }

  /** What `create_huf_data` returns. */
  function HufData(data: Bytes, m: map<byte, Bits>): Bytes
    requires forall i :: 0 <= i < |data| ==> data[i] in m
  {
    var bits := EncodeBits(data, m);
    PackBits(bits + Zeros(PadLen(bits))) + Decimal(PadLen(bits))
  }

  /** The first loop of `create_huf_data`: the codes of the bytes, concatenated in order. */
  method EncodeAll(data: Bytes, m: map<byte, Bits>) returns (bitsStr: Bits)
    requires forall i :: 0 <= i < |data| ==> data[i] in m
    ensures bitsStr == EncodeBits(data, m)
  {
    bitsStr := [];
    for i := 0 to |data|
      invariant bitsStr == EncodeBits(data[..i], m)
    {
      bitsStr := bitsStr + m[data[i]];
      assert data[..i + 1][..i] == data[..i];
    }
    assert data[..|data|] == data;
  }

  /** The second loop of `create_huf_data`: each group of eight bits becomes one byte. */
  method PackAll(bitsStr: Bits) returns (compressed: Bytes)
    requires |bitsStr| % 8 == 0
    ensures compressed == PackBits(bitsStr)
  {
    compressed := [];
    var i := 0;
    while i < |bitsStr|
      invariant 0 <= i <= |bitsStr| && i % 8 == 0
      invariant compressed + PackBits(bitsStr[i..]) == PackBits(bitsStr)
      decreases |bitsStr| - i
    {
      var eightBits := bitsStr[i..i + 8];
      PackStep(bitsStr, i);
      Regroup(compressed, [Value(eightBits)], PackBits(bitsStr[i + 8..]));
      compressed := compressed + [Value(eightBits)];
      i := i + 8;
    }
    assert PackBits(bitsStr[i..]) == [];
    assert compressed + [] == compressed;
  }

  /**
   * `create_huf_data`: concatenates the codes, pads with zeros to a multiple
   * of eight, packs each group of eight most significant bit first, and
   * appends the pad length as a digit.
   */
  method CreateHufData(data: Bytes, m: map<byte, Bits>) returns (out: Bytes)
    requires forall i :: 0 <= i < |data| ==> data[i] in m
    ensures out == HufData(data, m)
  {
    var bitsStr := EncodeAll(data, m);
    var restOfBits := |bitsStr| % 8;
    assert 8 - restOfBits == PadLen(bitsStr);
    bitsStr := bitsStr + Zeros(8 - restOfBits);
    assert |bitsStr| % 8 == 0;
    var compressed := PackAll(bitsStr);
    out := compressed + Decimal(8 - restOfBits);
  }

  /**
   * The shape of the packed data: one byte per eight padded bits, so
   * `len(bits) // 8 + 1` bytes, then exactly one ASCII digit from 1 to 8.
   */
  lemma HufDataShape(data: Bytes, m: map<byte, Bits>)
    requires forall i :: 0 <= i < |data| ==> data[i] in m
    ensures var bits := EncodeBits(data, m);
            |HufData(data, m)| == |bits| / 8 + 2 &&
            HufData(data, m)[|HufData(data, m)| - 1] == 48 + PadLen(bits)
  {
    var bits := EncodeBits(data, m);
    var p := PadLen(bits);
    assert Decimal(p) == [48 + p] by {
      assert Digits(p) == [48 + p];
    }
  }
}
