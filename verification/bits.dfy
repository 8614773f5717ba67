/** Conversion between bytes and bit streams, most significant bit first,
    with zero padding of a final partial byte. This is the part of the
    `bitarray` library the codec relies on: `extend` of a string of
    binary digits, `frombytes`, and `tobytes` of a whole stream or of one
    eight-bit slice, all in the library's default big-endian bit order. */
module BitPacking {

  /** A byte, as Python's `bytes` holds it. */
  type Byte = x: int | 0 <= x < 256

  /** `n` zero bits. */
  function Zeros(n: nat): (r: seq<bool>)
    ensures |r| == n
    ensures forall i :: 0 <= i < n ==> !r[i]
  {
    seq(n, _ => false)
  }

  function Pow2(n: nat): (p: nat)
    ensures p >= 1
  {
    if n == 0 then 1 else 2 * Pow2(n - 1)
  }

  /** The `n` low bits of `v`, most significant first. */
  function NatToBits(v: nat, n: nat): (r: seq<bool>)
    requires v < Pow2(n)
    ensures |r| == n
  {
    if n == 0 then []
    else
      var high := Pow2(n - 1);
      [v >= high] + NatToBits(if v >= high then v - high else v, n - 1)
  }

  /** The number whose binary digits, most significant first, are `bits`. */
  function BitsToNat(bits: seq<bool>): (v: nat)
    ensures v < Pow2(|bits|)
  {
    if |bits| == 0 then 0
    else (if bits[0] then Pow2(|bits| - 1) else 0) + BitsToNat(bits[1..])
  }

  /** Zero bits denote zero. */
  lemma {:induction false} BitsToNatZeros(n: nat)
    ensures BitsToNat(Zeros(n)) == 0
    decreases n
  {
    if n > 0 {
      assert Zeros(n)[1..] == Zeros(n - 1);
      BitsToNatZeros(n - 1);
    }
  }

  /** Reading back the bits of `v` gives `v`. */
  lemma {:induction false} BitsToNatToBits(v: nat, n: nat)
    requires v < Pow2(n)
    ensures BitsToNat(NatToBits(v, n)) == v
  {
    if n > 0 {
      var high := Pow2(n - 1);
      var rest := if v >= high then v - high else v;
      BitsToNatToBits(rest, n - 1);
      assert NatToBits(v, n)[1..] == NatToBits(rest, n - 1);
    }
  }

  /** Writing out the number a bit stream denotes gives the stream. */
  lemma {:induction false} NatToBitsToNat(bits: seq<bool>)
    ensures NatToBits(BitsToNat(bits), |bits|) == bits
  {
    if |bits| > 0 {
      NatToBitsToNat(bits[1..]);
      assert bits == [bits[0]] + bits[1..];
    }
  }

  /** The eight bits of `b`, most significant first: what
      `'{0:b}'.format(b).zfill(8)` spells out. */
  function ByteToBits(b: Byte): (r: seq<bool>)
    ensures |r| == 8
  {
    NatToBits(b, 8)
  }

  /** The byte whose bits, most significant first, are `bits`. */
  function BitsToByte(bits: seq<bool>): (b: Byte)
    requires |bits| == 8
    ensures ByteToBits(b) == bits
  {
    NatToBitsToNat(bits);
    BitsToNat(bits)
  }

  /** A byte is determined by its bits. */
  lemma ByteBitsRoundTrip(b: Byte)
    ensures BitsToByte(ByteToBits(b)) == b
  {
    BitsToNatToBits(b, 8);
  }

  /** `bitarray.frombytes`: the bytes of `bs` laid end to end as bits. */
  function BytesToBits(bs: seq<Byte>): (r: seq<bool>)
    ensures |r| == 8 * |bs|
  {
    if |bs| == 0 then [] else ByteToBits(bs[0]) + BytesToBits(bs[1..])
  }

  /** Number of zero bits `tobytes` appends to a stream of `n` bits:
      fewer than eight, and just enough to fill the last byte. */
  function PadLength(n: nat): (p: nat)
    ensures p < 8
    ensures (n + p) % 8 == 0
  {
    if n == 0 then 0 else if n < 8 then 8 - n else PadLength(n - 8)
  }

  /** `bitarray.tobytes`: the stream packed eight bits to a byte, the last
      byte filled up with zero bits. */
  function BitsToBytes(bits: seq<bool>): (r: seq<Byte>)
    ensures |r| == (|bits| + 7) / 8
    decreases |bits|
  {
    if |bits| == 0 then []
    else if |bits| < 8 then [BitsToByte(bits + Zeros(8 - |bits|))]
    else [BitsToByte(bits[..8])] + BitsToBytes(bits[8..])
  }

  /** The `i`-th byte occupies bits `8*i` to `8*i+7` of the unpacked stream. */
  lemma {:induction false} BytesToBitsAt(bs: seq<Byte>, i: nat)
    requires i < |bs|
    ensures BytesToBits(bs)[8 * i .. 8 * i + 8] == ByteToBits(bs[i])
  {
    if i > 0 {
      BytesToBitsAt(bs[1..], i - 1);
      assert BytesToBits(bs) == ByteToBits(bs[0]) + BytesToBits(bs[1..]);
    }
  }

  /** Unpacking distributes over concatenation. */
  lemma {:induction false} BytesToBitsAppend(a: seq<Byte>, b: seq<Byte>)
    ensures BytesToBits(a + b) == BytesToBits(a) + BytesToBits(b)
  {
    if |a| > 0 {
      assert (a + b)[1..] == a[1..] + b;
      BytesToBitsAppend(a[1..], b);
    } else {
      assert a + b == b;
    }
  }

  /** Unpacking a byte followed by more bytes. */
  lemma BytesToBitsCons(b: Byte, rest: seq<Byte>)
    ensures BytesToBits([b] + rest) == ByteToBits(b) + BytesToBits(rest)
  {
    assert ([b] + rest)[0] == b && ([b] + rest)[1..] == rest;
  }

  /** Packing then unpacking gives the stream back followed by fewer than
      eight zero bits. */
  lemma {:induction false} PackUnpack(bits: seq<bool>)
    ensures BytesToBits(BitsToBytes(bits)) == bits + Zeros(PadLength(|bits|))
    decreases |bits|
  {
    if |bits| == 0 {
    } else if |bits| < 8 {
      var last := bits + Zeros(8 - |bits|);
      BytesToBitsCons(BitsToByte(last), []);
      assert [BitsToByte(last)] + [] == BitsToBytes(bits);
    } else {
      var head := bits[..8];
      var tail := bits[8..];
      PackUnpack(tail);
      BytesToBitsCons(BitsToByte(head), BitsToBytes(tail));
      assert bits == head + tail;
      assert BytesToBits(BitsToBytes(bits)) == head + (tail + Zeros(PadLength(|bits|)));
    }
  }

  /** Unpacking then packing gives the bytes back. */
  lemma {:induction false} UnpackPack(bs: seq<Byte>)
    ensures BitsToBytes(BytesToBits(bs)) == bs
  {
    if |bs| > 0 {
      var bits := BytesToBits(bs);
      assert bits[..8] == ByteToBits(bs[0]);
      assert bits[8..] == BytesToBits(bs[1..]);
      UnpackPack(bs[1..]);
      ByteBitsRoundTrip(bs[0]);
      assert bs == [bs[0]] + bs[1..];
    }
  }
}
