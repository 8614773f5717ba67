/** The two functions of `utf9/__init__.py` written as the loops they
    are, each proved to compute the functional definition in `Utf9`. */
module Utf9Loops {
  import opened Options
  import opened BitPacking
  import Utf8
  import opened Utf9

  /** Appending one more byte to a character's bytes appends its nonet. */
  lemma {:induction false} NonetsSnoc(bs: seq<Byte>, b: Byte, idx: nat)
    ensures Nonets(bs + [b], idx) == Nonets(bs, idx) + Nonet(idx + |bs| > 0, b)
    decreases |bs|
  {
    if |bs| == 0 {
      assert [b][1..] == [];
      assert bs + [b] == [b];
    } else {
      assert (bs + [b])[1..] == bs[1..] + [b];
      NonetsSnoc(bs[1..], b, idx + 1);
    }
  }

  /** The stream of one more character is the old stream plus that
      character's nonets. */
  lemma TextBitsSnoc(s: seq<Utf8.Scalar>, i: nat)
    requires i < |s|
    ensures TextBits(s[..i + 1]) == TextBits(s[..i]) + CharBits(s[i])
  {
    assert s[..i + 1] == s[..i] + [s[i]];
    assert TextBits([s[i]]) == CharBits(s[i]) + TextBits([]);
    TextBitsAppend(s[..i], [s[i]]);
  }

  /** The inner loop of `utf9encode`: for each byte of one character's
      UTF-8, the flag bit `idx > 0` and then the byte's bits. */
  method CharNonetsLoop(bs: seq<Byte>) returns (bits: seq<bool>)
    ensures bits == Nonets(bs, 0)
  {
    bits := [];
    for idx := 0 to |bs|
      invariant bits == Nonets(bs[..idx], 0)
    {
      NonetsSnoc(bs[..idx], bs[idx], 0);
      assert bs[..idx + 1] == bs[..idx] + [bs[idx]];
      bits := bits + [idx > 0];
      bits := bits + ByteToBits(bs[idx]);
    }
    assert bs[..|bs|] == bs;
  }

  /** `utf9encode`: the nonets of every character in turn, then packed. */
  method EncodeLoop(s: seq<Utf8.Scalar>) returns (out: seq<Byte>)
    ensures out == Encode(s)
  {
    var bits: seq<bool> := [];
    for i := 0 to |s|
      invariant bits == TextBits(s[..i])
    {
      var charBits := CharNonetsLoop(Utf8.EncodeScalar(s[i]));
      TextBitsSnoc(s, i);
      bits := bits + charBits;
    }
    assert s[..|s|] == s;
    out := BitsToBytes(bits);
  }

  /** The loop from bit `x` on: one pass over the group at `x`, then
      the loop from bit `x + 9` on. */
  lemma RunFrom(st: DecodeState, bits: seq<bool>, x: nat)
    requires x + 9 <= |bits|
    ensures Run(st, Chunks(bits[x..])) ==
      match Step(st, bits[x .. x + 9])
      case None => None
      case Some(next) => Run(next, Chunks(bits[x + 9..]))
  {
    assert bits[x..][..9] == bits[x .. x + 9];
    assert bits[x..][9..] == bits[x + 9..];
    var rest := Chunks(bits[x + 9..]);
    assert ([bits[x .. x + 9]] + rest)[1..] == rest;
  }

  /** `utf9decode`: walks the stream nine bits at a time, stops at a
      short group, flushes the accumulator on every flag-0 group, and
      flushes it once more at the end. `None` is a `UnicodeDecodeError`. */
  method DecodeLoop(data: seq<Byte>) returns (r: Option<seq<Utf8.Scalar>>)
    ensures r == Decode(data)
  {
    var bits := BytesToBits(data);
    var text: seq<Utf8.Scalar> := [];
    var acc: seq<Byte> := [];
    var x := 0;
    while x < |bits|
      invariant x <= |bits|
      invariant Run(Start, Chunks(bits)) == Run(DecodeState(text, acc), Chunks(bits[x..]))
      decreases |bits| - x
    {
      if |bits| - x < 9 {
        break;
      }
      var chunk := bits[x .. x + 9];
      RunFrom(DecodeState(text, acc), bits, x);
      ghost var before := DecodeState(text, acc);
      var b := DataByte(chunk);
      if !chunk[0] {
        match Utf8.Decode(acc)
        case None =>
          assert Step(before, chunk) == None;
          return None;
        case Some(t) =>
          text, acc := text + t, [];
      }
      acc := acc + [b];
      assert !chunk[0] ==> acc == [b];
      assert Step(before, chunk) == Some(DecodeState(text, acc));
      x := x + 9;
    }
    assert Chunks(bits[x..]) == [];
    match Utf8.Decode(acc)
    case None =>
      r := None;
    case Some(t) =>
      r := Some(text + t);
  }
}
