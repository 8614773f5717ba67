/** UTF-8 as defined in section 3 of RFC 3629: the encoder `str.encode`
    applies to one character, and the strict decoder behind
    `bytes.decode('utf-8')`, which accepts exactly the well-formed
    sequences of section 4 of RFC 3629 and fails on anything else. */
module Utf8 {
  import opened Options
  import opened BitPacking

  /** A Unicode scalar value: a code point that is not a surrogate. */
  predicate IsScalar(cp: int)
  {
    0 <= cp <= 0x10FFFF && !(0xD800 <= cp <= 0xDFFF)
  }

  /** The characters of a Python `str` that can be encoded; a text is a
      `seq<Scalar>`. */
  type Scalar = cp: nat | IsScalar(cp)

  /** A continuation byte `10xxxxxx`. */
  predicate IsContinuation(b: Byte)
  {
    0x80 <= b <= 0xBF
  }

  /** The six payload bits of a continuation byte. */
  function Payload(b: Byte): (v: nat)
    requires IsContinuation(b)
    ensures v < 0x40
  {
    b - 0x80
  }

  /** The byte `10xxxxxx` carrying the six bits `v`. */
  function ContinuationByte(v: nat): (b: Byte)
    requires v < 0x40
    ensures IsContinuation(b) && Payload(b) == v
  {
    0x80 + v
  }

  /** How many bytes section 3 of RFC 3629 gives a scalar value. */
  function ScalarLength(cp: nat): (n: nat)
    ensures 1 <= n <= 4
  {
    if cp < 0x80 then 1
    else if cp < 0x800 then 2
    else if cp < 0x10000 then 3
    else 4
  }

  /** `char.encode('utf-8')` for one scalar value. */
  function EncodeScalar(cp: Scalar): (r: seq<Byte>)
    ensures |r| == ScalarLength(cp)
    ensures !IsContinuation(r[0])
    ensures forall i :: 1 <= i < |r| ==> IsContinuation(r[i])
  {
    if cp < 0x80 then
      [cp]
    else if cp < 0x800 then
      [(0xC0 + cp / 0x40), ContinuationByte(cp % 0x40)]
    else if cp < 0x10000 then
      [(0xE0 + cp / 0x1000), ContinuationByte(cp / 0x40 % 0x40),
       ContinuationByte(cp % 0x40)]
    else
      assert IsScalar(cp) && cp <= 0x10FFFF;
      assert cp / 0x40000 <= 4;
      [(0xF0 + cp / 0x40000), ContinuationByte(cp / 0x1000 % 0x40),
       ContinuationByte(cp / 0x40 % 0x40), ContinuationByte(cp % 0x40)]
  }

  /** The UTF-8 bytes of a whole text, character after character. */
  function EncodeText(s: seq<Scalar>): (r: seq<Byte>)
    ensures |s| > 0 ==> |r| > 0 && !IsContinuation(r[0])
  {
    if |s| == 0 then [] else EncodeScalar(s[0]) + EncodeText(s[1..])
  }

  /** Every character takes one to four bytes. */
  lemma {:induction false} EncodeTextLength(s: seq<Scalar>)
    ensures |s| <= |EncodeText(s)| <= 4 * |s|
  {
    if |s| > 0 {
      EncodeTextLength(s[1..]);
    }
  }

  /** The range section 4 of RFC 3629 allows for the second byte of a
      sequence that starts with the lead byte `b0`. */
  function SecondByteRange(b0: Byte): (r: (Byte, Byte))
  {
    if b0 == 0xE0 then (0xA0, 0xBF)
    else if b0 == 0xED then (0x80, 0x9F)
    else if b0 == 0xF0 then (0x90, 0xBF)
    else if b0 == 0xF4 then (0x80, 0x8F)
    else (0x80, 0xBF)
  }

  predicate SecondByteOk(b0: Byte, b1: Byte)
  {
    SecondByteRange(b0).0 <= b1 <= SecondByteRange(b0).1
  }

  /** Decodes the first character of `bs`: its scalar value and the number
      of bytes it occupies, or `None` when `bs` does not start with a
      well-formed sequence. */
  function DecodeFirst(bs: seq<Byte>): (r: Option<(Scalar, nat)>)
    requires |bs| > 0
    ensures r.Some? ==> 1 <= r.value.1 <= |bs| && r.value.1 <= 4
  {
    var b0 := bs[0];
    if b0 <= 0x7F then
      Some((b0, 1))
    else if 0xC2 <= b0 <= 0xDF then
      if |bs| >= 2 && IsContinuation(bs[1]) then
        Some(((b0 - 0xC0) * 0x40 + Payload(bs[1]), 2))
      else None
    else if 0xE0 <= b0 <= 0xEF then
      if |bs| >= 3 && SecondByteOk(b0, bs[1]) && IsContinuation(bs[2]) then
        Some(((b0 - 0xE0) * 0x1000 + Payload(bs[1]) * 0x40 + Payload(bs[2]), 3))
      else None
    else if 0xF0 <= b0 <= 0xF4 then
      if |bs| >= 4 && SecondByteOk(b0, bs[1]) && IsContinuation(bs[2]) && IsContinuation(bs[3]) then
        Some(((b0 - 0xF0) * 0x40000 + Payload(bs[1]) * 0x1000
              + Payload(bs[2]) * 0x40 + Payload(bs[3]), 4))
      else None
    else
      None
  }

  /** Strict `bytes.decode('utf-8')`: the text `bs` encodes, or `None`
      (a `UnicodeDecodeError`) as soon as a sequence is ill-formed.
      Whatever it accepts, encoding reproduces byte for byte. */
  function Decode(bs: seq<Byte>): (r: Option<seq<Scalar>>)
    ensures r.Some? ==> EncodeText(r.value) == bs
    decreases |bs|
  {
    if |bs| == 0 then Some([])
    else match DecodeFirst(bs)
      case None => None
      case Some((cp, n)) =>
        match Decode(bs[n..])
        case None => None
        case Some(rest) =>
          DecodeFirstCanonical(bs);
          assert ([cp] + rest)[0] == cp && ([cp] + rest)[1..] == rest;
          assert EncodeText([cp] + rest) == EncodeScalar(cp) + EncodeText(rest);
          assert bs == bs[..n] + bs[n..];
          Some([cp] + rest)
  }

  lemma Split2(hi: int, lo: int)
    requires 0 <= lo < 0x40
    ensures (hi * 0x40 + lo) / 0x40 == hi && (hi * 0x40 + lo) % 0x40 == lo
  {
  }

  /** A two-byte sequence the decoder accepts is the encoding of its value. */
  lemma {:induction false} CanonicalTwo(b0: Byte, b1: Byte)
    requires 0xC2 <= b0 <= 0xDF && IsContinuation(b1)
    ensures var cp := (b0 - 0xC0) * 0x40 + Payload(b1);
      IsScalar(cp) && EncodeScalar(cp) == [b0, b1]
  {
    Split2(b0 - 0xC0, Payload(b1));
  }

  /** A three-byte sequence the decoder accepts is the encoding of its value. */
  lemma {:induction false} CanonicalThree(b0: Byte, b1: Byte, b2: Byte)
    requires 0xE0 <= b0 <= 0xEF && SecondByteOk(b0, b1) && IsContinuation(b2)
    ensures var cp := (b0 - 0xE0) * 0x1000 + Payload(b1) * 0x40 + Payload(b2);
      IsScalar(cp) && EncodeScalar(cp) == [b0, b1, b2]
  {
    var top := (b0 - 0xE0) * 0x40 + Payload(b1);
    Split2(top, Payload(b2));
    Split2(b0 - 0xE0, Payload(b1));
    assert (b0 - 0xE0) * 0x1000 + Payload(b1) * 0x40 + Payload(b2) == top * 0x40 + Payload(b2);
  }

  /** A four-byte sequence the decoder accepts is the encoding of its value. */
  lemma {:induction false} CanonicalFour(b0: Byte, b1: Byte, b2: Byte, b3: Byte)
    requires 0xF0 <= b0 <= 0xF4 && SecondByteOk(b0, b1)
    requires IsContinuation(b2) && IsContinuation(b3)
    ensures var cp := (b0 - 0xF0) * 0x40000 + Payload(b1) * 0x1000 + Payload(b2) * 0x40 + Payload(b3);
      IsScalar(cp) && EncodeScalar(cp) == [b0, b1, b2, b3]
  {
    var top := (b0 - 0xF0) * 0x40 + Payload(b1);
    var mid := top * 0x40 + Payload(b2);
    Split2(mid, Payload(b3));
    Split2(top, Payload(b2));
    Split2(b0 - 0xF0, Payload(b1));
  }

  /** Whatever the decoder reads as one character is that character's
      encoding: no overlong form, surrogate or value above U+10FFFF is
      accepted. */
  lemma {:induction false} DecodeFirstCanonical(bs: seq<Byte>)
    requires |bs| > 0 && DecodeFirst(bs).Some?
    ensures EncodeScalar(DecodeFirst(bs).value.0) == bs[..DecodeFirst(bs).value.1]
  {
    var b0 := bs[0];
    if b0 <= 0x7F {
    } else if b0 <= 0xDF {
      CanonicalTwo(b0, bs[1]);
    } else if b0 <= 0xEF {
      CanonicalThree(b0, bs[1], bs[2]);
    } else {
      CanonicalFour(b0, bs[1], bs[2], bs[3]);
    }
  }

  lemma EncodeTwoDecodes(cp: nat, rest: seq<Byte>)
    requires 0x80 <= cp < 0x800
    ensures DecodeFirst(EncodeScalar(cp) + rest) == Some((cp, 2))
  {
    var bs := EncodeScalar(cp) + rest;
    assert bs[0] == 0xC0 + cp / 0x40 && Payload(bs[1]) == cp % 0x40;
  }

  lemma EncodeThreeDecodes(cp: Scalar, rest: seq<Byte>)
    requires 0x800 <= cp < 0x10000
    ensures DecodeFirst(EncodeScalar(cp) + rest) == Some((cp, 3))
  {
    assert IsScalar(cp);
    var bs := EncodeScalar(cp) + rest;
    var b0, p1, p2 := 0xE0 + cp / 0x1000, cp / 0x40 % 0x40, cp % 0x40;
    assert bs[0] == b0 && Payload(bs[1]) == p1 && Payload(bs[2]) == p2;
    assert SecondByteOk(b0, bs[1]);
    assert (b0 - 0xE0) * 0x1000 + p1 * 0x40 + p2 == cp;
  }

  lemma EncodeFourDecodes(cp: Scalar, rest: seq<Byte>)
    requires 0x10000 <= cp
    ensures DecodeFirst(EncodeScalar(cp) + rest) == Some((cp, 4))
  {
    assert IsScalar(cp);
    var bs := EncodeScalar(cp) + rest;
    var a := cp / 0x40;
    var b := a / 0x40;
    var c := b / 0x40;
    var p1, p2, p3 := b % 0x40, a % 0x40, cp % 0x40;
    Split2(a, p3);
    Split2(b, p2);
    Split2(c, p1);
    assert cp == b * 0x1000 + p2 * 0x40 + p3;
    assert cp / 0x1000 == b;
    assert cp == c * 0x40000 + p1 * 0x1000 + p2 * 0x40 + p3;
    assert cp / 0x40000 == c;
    assert bs[0] == 0xF0 + c && Payload(bs[1]) == p1 && Payload(bs[2]) == p2 && Payload(bs[3]) == p3;
    assert SecondByteOk(bs[0], bs[1]);
  }

  /** The decoder reads the encoding of a scalar value back as that value,
      whatever follows it. */
  lemma {:induction false} DecodeFirstEncode(cp: Scalar, rest: seq<Byte>)
    ensures DecodeFirst(EncodeScalar(cp) + rest) == Some((cp, ScalarLength(cp)))
  {
    if cp < 0x80 {
    } else if cp < 0x800 {
      EncodeTwoDecodes(cp, rest);
    } else if cp < 0x10000 {
      EncodeThreeDecodes(cp, rest);
    } else {
      EncodeFourDecodes(cp, rest);
    }
  }

  /** Encoding distributes over concatenation of texts. */
  lemma {:induction false} EncodeTextAppend(s: seq<Scalar>, t: seq<Scalar>)
    ensures EncodeText(s + t) == EncodeText(s) + EncodeText(t)
  {
    if |s| > 0 {
      assert (s + t)[1..] == s[1..] + t;
      EncodeTextAppend(s[1..], t);
    } else {
      assert s + t == t;
    }
  }

  /** Strict decoding inverts encoding. */
  lemma {:induction false} DecodeEncode(s: seq<Scalar>)
    ensures Decode(EncodeText(s)) == Some(s)
  {
    if |s| > 0 {
      var bs := EncodeText(s);
      DecodeFirstEncode(s[0], EncodeText(s[1..]));
      assert bs[ScalarLength(s[0])..] == EncodeText(s[1..]);
      DecodeEncode(s[1..]);
      assert s == [s[0]] + s[1..];
    }
  }

  /** One character's encoding decodes to exactly that character. */
  lemma DecodeScalar(cp: Scalar)
    ensures Decode(EncodeScalar(cp)) == Some([cp])
  {
    DecodeFirstEncode(cp, []);
    assert EncodeScalar(cp) + [] == EncodeScalar(cp);
    assert EncodeScalar(cp)[ScalarLength(cp)..] == [];
    assert Decode([]) == Some([]);
    assert [cp] + [] == [cp];
  }
}
