/** The UTF-9 codec of `utf9/__init__.py`: every UTF-8 byte of the text
    travels in a 9-bit nonet made of a flag bit (0 on the first byte of a
    character, 1 on its continuation bytes) and the byte's eight bits. */
module Utf9 {
  import opened Options
  import opened BitPacking
  import Utf8

  // ---------------------------------------------------------------------
  // Encoder
  // ---------------------------------------------------------------------

  /** One nonet: the flag bit, then the eight bits of `b`, most
      significant first. */
  function Nonet(flag: bool, b: Byte): (r: seq<bool>)
    ensures |r| == 9
  {
    [flag] + ByteToBits(b)
  }

  /** The nonets of the bytes `bs` of one character, where `bs[0]` is
      the byte `enumerate` numbers `idx`; the flag is `idx > 0`. */
  function Nonets(bs: seq<Byte>, idx: nat): (r: seq<bool>)
    ensures |r| == 9 * |bs|
  {
    if |bs| == 0 then [] else Nonet(idx > 0, bs[0]) + Nonets(bs[1..], idx + 1)
  }

  /** The bits the inner loop of `utf9encode` appends for one character. */
  function CharBits(c: Utf8.Scalar): (r: seq<bool>)
  {
    Nonets(Utf8.EncodeScalar(c), 0)
  }

  /** The whole bit stream `utf9encode` builds before packing. */
  function TextBits(s: seq<Utf8.Scalar>): (r: seq<bool>)
    ensures |r| == 9 * |Utf8.EncodeText(s)|
  {
    if |s| == 0 then [] else CharBits(s[0]) + TextBits(s[1..])
  }

  /** `utf9encode`: the bit stream packed into bytes, zero padded. Its
      length is the number of bytes needed for nine bits per UTF-8 byte. */
  function Encode(s: seq<Utf8.Scalar>): (r: seq<Byte>)
    ensures |r| == (9 * |Utf8.EncodeText(s)| + 7) / 8
  {
    BitsToBytes(TextBits(s))
  }

  /** Padding law: unpacking the output gives the unpadded stream followed
      by fewer than eight zero bits. */
  lemma EncodePadding(s: seq<Utf8.Scalar>)
    ensures BytesToBits(Encode(s)) == TextBits(s) + Zeros(PadLength(|TextBits(s)|))
    ensures PadLength(|TextBits(s)|) < 8
  {
    PackUnpack(TextBits(s));
  }

  /** Nonet framing: the `k`-th byte of `bs` is carried by bits `9*k` to
      `9*k+8`, as the flag `idx + k > 0` followed by the byte's bits. */
  lemma {:induction false} NonetsAt(bs: seq<Byte>, idx: nat, k: nat)
    requires k < |bs|
    ensures Nonets(bs, idx)[9 * k .. 9 * k + 9] == [idx + k > 0] + ByteToBits(bs[k])
  {
    if k > 0 {
      NonetsAt(bs[1..], idx + 1, k - 1);
      assert Nonets(bs, idx) == Nonet(idx > 0, bs[0]) + Nonets(bs[1..], idx + 1);
    }
  }

  /** A character becomes one to four nonets; the first has flag 0, the
      others flag 1, and each carries the matching UTF-8 byte. */
  lemma CharFraming(c: Utf8.Scalar)
    ensures |CharBits(c)| == 9 * Utf8.ScalarLength(c)
    ensures 1 <= Utf8.ScalarLength(c) <= 4
    ensures forall k :: 0 <= k < Utf8.ScalarLength(c) ==>
      CharBits(c)[9 * k .. 9 * k + 9] == [k > 0] + ByteToBits(Utf8.EncodeScalar(c)[k])
  {
    forall k | 0 <= k < Utf8.ScalarLength(c)
      ensures CharBits(c)[9 * k .. 9 * k + 9] == [k > 0] + ByteToBits(Utf8.EncodeScalar(c)[k])
    {
      NonetsAt(Utf8.EncodeScalar(c), 0, k);
    }
  }

  /** Concatenation: the stream of `s + t` is the stream of `s` followed
      by the stream of `t`. */
  lemma {:induction false} TextBitsAppend(s: seq<Utf8.Scalar>, t: seq<Utf8.Scalar>)
    ensures TextBits(s + t) == TextBits(s) + TextBits(t)
  {
    if |s| > 0 {
      var c := CharBits(s[0]);
      assert (s + t)[1..] == s[1..] + t;
      assert (s + t)[0] == s[0];
      assert TextBits(s + t) == c + TextBits(s[1..] + t);
      TextBitsAppend(s[1..], t);
      assert c + (TextBits(s[1..]) + TextBits(t)) == (c + TextBits(s[1..])) + TextBits(t);
    } else {
      assert s + t == t;
    }
  }

  /** The bit stream of "A": the single nonet `0 01000001`. */
  lemma LetterABits()
    ensures TextBits([0x41]) == [false, false, true, false, false, false, false, false, true]
  {
    var bits := [false, false, true, false, false, false, false, false, true];
    assert ByteToBits(0x41) == bits[1..];
    assert Utf8.EncodeScalar(0x41) == [0x41];
    assert CharBits(0x41) == Nonet(false, 0x41) + Nonets([], 1);
    assert TextBits([0x41]) == CharBits(0x41) + TextBits([]);
  }

  /** Packing the nonet `0 01000001`: the bytes 0x20 and 0x80. */
  lemma PackLetterA()
    ensures BitsToBytes([false, false, true, false, false, false, false, false, true]) == [0x20, 0x80]
  {
    var bits := [false, false, true, false, false, false, false, false, true];
    var last := bits[8..] + Zeros(7);
    BitsToNatZeros(5);
    BitsToNatZeros(7);
    assert BitsToNat([true] + Zeros(5)) == 0x20;
    assert BitsToNat([false] + ([true] + Zeros(5))) == 0x20;
    assert bits[..8] == [false] + ([false] + ([true] + Zeros(5)));
    assert BitsToNat(bits[..8]) == 0x20;
    assert last == [true] + Zeros(7);
    assert BitsToNat(last) == 0x80;
    assert BitsToBytes(bits[8..]) == [BitsToByte(last)];
    assert BitsToBytes(bits) == [BitsToByte(bits[..8])] + BitsToBytes(bits[8..]);
  }

  /** "A" is the nonet `0 01000001`, packed as the bytes 0x20 0x80. */
  lemma EncodeLetterA()
    ensures TextBits([0x41]) == [false, false, true, false, false, false, false, false, true]
    ensures Encode([0x41]) == [0x20, 0x80]
  {
    LetterABits();
    PackLetterA();
  }

  // ---------------------------------------------------------------------
  // Decoder
  // ---------------------------------------------------------------------

  /** A full group of the decoder: a flag bit and eight data bits. */
  type Group = g: seq<bool> | |g| == 9
    witness [false, false, false, false, false, false, false, false, false]

  /** The full groups of `bits[x:x+9] for x in range(0, len(bits), 9)`;
      the loop breaks at the first group shorter than 9 bits, which can
      only be the last one. */
  function Chunks(bits: seq<bool>): (r: seq<Group>)
    ensures |r| == |bits| / 9
    decreases |bits|
  {
    if |bits| < 9 then [] else [bits[..9]] + Chunks(bits[9..])
  }

  /** Group `i` is bits `9*i` to `9*i+8` of the stream. */
  lemma {:induction false} ChunksAt(bits: seq<bool>, i: nat)
    requires i < |bits| / 9
    ensures Chunks(bits)[i] == bits[9 * i .. 9 * i + 9]
    decreases i
  {
    if i > 0 {
      ChunksAt(bits[9..], i - 1);
      assert bits[9..][9 * (i - 1) .. 9 * (i - 1) + 9] == bits[9 * i .. 9 * i + 9];
    }
  }

  /** A stream of exactly one group is that group. */
  lemma ChunksOne(g: Group)
    ensures Chunks(g) == [g]
  {
    assert g[..9] == g;
    assert Chunks(g[9..]) == [];
  }

  /** The decoder's variables: the text decoded so far (`string`) and the
      bytes accumulated for the current character (`codepoint`). */
  datatype DecodeState = DecodeState(text: seq<Utf8.Scalar>, acc: seq<Byte>)

  const Start := DecodeState([], [])

  /** `chunk[1:].tobytes()`: the byte a group carries. */
  function DataByte(chunk: Group): (b: Byte)
    ensures ByteToBits(b) == chunk[1..]
  {
    BitsToByte(chunk[1..])
  }

  /** One pass of the loop body of `utf9decode`; `None` when flushing the
      accumulator raises `UnicodeDecodeError`. */
  function Step(st: DecodeState, chunk: Group): (r: Option<DecodeState>)
    ensures r.None? ==> !chunk[0]
  {
    if chunk[0] then
      Some(DecodeState(st.text, st.acc + [DataByte(chunk)]))
    else
      match Utf8.Decode(st.acc)
      case None => None
      case Some(t) => Some(DecodeState(st.text + t, [DataByte(chunk)]))
  }

  /** The loop of `utf9decode` over all full groups. */
  function Run(st: DecodeState, chunks: seq<Group>): (r: Option<DecodeState>)
    decreases |chunks|
  {
    if |chunks| == 0 then Some(st)
    else match Step(st, chunks[0])
      case None => None
      case Some(next) => Run(next, chunks[1..])
  }

  /** The final `string + codepoint.decode('utf-8')`: the accumulated
      bytes are decoded and appended to the text. */
  function Finish(st: DecodeState): (r: Option<seq<Utf8.Scalar>>)
    ensures r.Some? ==> Utf8.EncodeText(r.value) == Utf8.EncodeText(st.text) + st.acc
  {
    match Utf8.Decode(st.acc)
    case None => None
    case Some(t) =>
      Utf8.EncodeTextAppend(st.text, t);
      Some(st.text + t)
  }

  /** The loop raises only at a flush: a failing run contains a flag-0
      group, so a run of flag-1 groups never fails. */
  lemma {:induction false} RunFailsAtFlush(st: DecodeState, chunks: seq<Group>)
    requires Run(st, chunks).None?
    ensures exists i :: 0 <= i < |chunks| && !chunks[i][0]
    decreases |chunks|
  {
    if Step(st, chunks[0]).None? {
      assert !chunks[0][0];
    } else {
      RunFailsAtFlush(Step(st, chunks[0]).value, chunks[1..]);
      var j :| 0 <= j < |chunks| - 1 && !chunks[1..][j][0];
      assert !chunks[j + 1][0];
    }
  }

  /** The final flush raises exactly when the accumulated bytes are not
      UTF-8; otherwise it appends their decoding to the text. */
  lemma FinishLaws(st: DecodeState)
    ensures Finish(st).None? <==> Utf8.Decode(st.acc).None?
    ensures Utf8.Decode(st.acc).Some? ==> Finish(st) == Some(st.text + Utf8.Decode(st.acc).value)
  {
  }

  /** `utf9decode` on the unpacked bit stream. No byte is lost or
      invented: on success, the UTF-8 of the result is exactly the bytes
      the full groups carry. */
  function DecodeBits(bits: seq<bool>): (r: Option<seq<Utf8.Scalar>>)
    ensures r.Some? ==> Utf8.EncodeText(r.value) == DataBytes(Chunks(bits))
  {
    match Run(Start, Chunks(bits))
    case None => None
    case Some(st) =>
      RunKeepsBytes(Start, Chunks(bits));
      Finish(st)
  }

  /** `utf9decode`: `None` where Python raises `UnicodeDecodeError`. On
      success the UTF-8 of the result is the bytes the input's full
      nonets carry, in order. */
  function Decode(data: seq<Byte>): (r: Option<seq<Utf8.Scalar>>)
    ensures r.Some? ==> Utf8.EncodeText(r.value) == DataBytes(Chunks(BytesToBits(data)))
  {
    DecodeBits(BytesToBits(data))
  }

  // ---------------------------------------------------------------------
  // Decoder properties
  // ---------------------------------------------------------------------

  /** Grouping a stream whose first part is whole nonets groups the two
      parts separately. */
  lemma {:induction false} ChunksAppend(a: seq<bool>, b: seq<bool>)
    requires |a| % 9 == 0
    ensures Chunks(a + b) == Chunks(a) + Chunks(b)
    decreases |a|
  {
    if |a| == 0 {
      assert a + b == b;
    } else {
      var h: Group := a[..9];
      assert (a + b)[..9] == h;
      assert (a + b)[9..] == a[9..] + b;
      assert Chunks(a + b) == [h] + Chunks(a[9..] + b);
      ChunksAppend(a[9..], b);
      assert Chunks(a) == [h] + Chunks(a[9..]);
      assert [h] + (Chunks(a[9..]) + Chunks(b)) == ([h] + Chunks(a[9..])) + Chunks(b);
    }
  }

  /** The loop over `a + b` is the loop over `a` continued over `b`. */
  lemma {:induction false} RunAppend(st: DecodeState, a: seq<Group>, b: seq<Group>)
    ensures Run(st, a + b) == match Run(st, a) case None => None case Some(mid) => Run(mid, b)
    decreases |a|
  {
    if |a| == 0 {
      assert a + b == b;
    } else {
      assert (a + b)[0] == a[0];
      assert (a + b)[1..] == a[1..] + b;
      match Step(st, a[0])
      case None =>
      case Some(next) => RunAppend(next, a[1..], b);
    }
  }

  /** The decoder's state machine: a flag-1 group appends its byte to the
      accumulator; a flag-0 group first flushes the accumulator as UTF-8
      (contributing nothing when it is empty, failing exactly when it is
      not valid UTF-8) and then starts a new accumulator with its byte. */
  lemma StepLaws(st: DecodeState, chunk: Group, b: Byte)
    requires chunk[1..] == ByteToBits(b)
    ensures chunk[0] ==> Step(st, chunk) == Some(DecodeState(st.text, st.acc + [b]))
    ensures !chunk[0] && st.acc == [] ==> Step(st, chunk) == Some(DecodeState(st.text, [b]))
    ensures !chunk[0] ==> (Step(st, chunk).Some? <==> Utf8.Decode(st.acc).Some?)
    ensures !chunk[0] && Utf8.Decode(st.acc).Some? ==>
      Step(st, chunk) == Some(DecodeState(st.text + Utf8.Decode(st.acc).value, [b]))
  {
    ByteBitsRoundTrip(b);
    assert st.text + [] == st.text;
  }

  /** The groups of one nonet followed by more bits. */
  lemma ChunksNonet(flag: bool, b: Byte, rest: seq<bool>)
    ensures Chunks(Nonet(flag, b) + rest) == [Nonet(flag, b)] + Chunks(rest)
    ensures DataByte(Nonet(flag, b)) == b
  {
    ChunksAppend(Nonet(flag, b), rest);
    ChunksOne(Nonet(flag, b));
    ByteBitsRoundTrip(b);
  }

  /** Continuation nonets only extend the accumulator. */
  lemma {:induction false} RunContinuation(st: DecodeState, bs: seq<Byte>, idx: nat)
    requires idx > 0
    ensures Run(st, Chunks(Nonets(bs, idx))) == Some(DecodeState(st.text, st.acc + bs))
    decreases |bs|
  {
    if |bs| == 0 {
      assert st.acc + bs == st.acc;
    } else {
      var head := Nonet(true, bs[0]);
      var tail := Nonets(bs[1..], idx + 1);
      assert Nonets(bs, idx) == head + tail;
      ChunksNonet(true, bs[0], tail);
      var next := DecodeState(st.text, st.acc + [bs[0]]);
      assert Step(st, head) == Some(next);
      assert ([head] + Chunks(tail))[1..] == Chunks(tail);
      assert Run(st, Chunks(Nonets(bs, idx))) == Run(next, Chunks(tail));
      RunContinuation(next, bs[1..], idx + 1);
      assert (st.acc + [bs[0]]) + bs[1..] == st.acc + bs;
    }
  }

  /** The nonets of one character flush the previous accumulator and leave
      that character's UTF-8 bytes accumulated. */
  lemma RunChar(st: DecodeState, c: Utf8.Scalar, a: seq<Utf8.Scalar>)
    requires Utf8.Decode(st.acc) == Some(a)
    ensures Run(st, Chunks(CharBits(c))) == Some(DecodeState(st.text + a, Utf8.EncodeScalar(c)))
  {
    var bs := Utf8.EncodeScalar(c);
    var head := Nonet(false, bs[0]);
    var tail := Nonets(bs[1..], 1);
    assert CharBits(c) == head + tail;
    ChunksNonet(false, bs[0], tail);
    var next := DecodeState(st.text + a, [bs[0]]);
    assert Step(st, head) == Some(next);
    assert ([head] + Chunks(tail))[1..] == Chunks(tail);
    RunContinuation(next, bs[1..], 1);
    assert [bs[0]] + bs[1..] == bs;
  }

  /** One character's nonets, then further groups: the loop continues
      over those groups with the character accumulated. */
  lemma RunCharThen(st: DecodeState, c: Utf8.Scalar, a: seq<Utf8.Scalar>, rest: seq<bool>)
    requires Utf8.Decode(st.acc) == Some(a)
    ensures Run(st, Chunks(CharBits(c) + rest))
         == Run(DecodeState(st.text + a, Utf8.EncodeScalar(c)), Chunks(rest))
  {
    assert |CharBits(c)| % 9 == 0;
    ChunksAppend(CharBits(c), rest);
    RunChar(st, c, a);
    RunAppend(st, Chunks(CharBits(c)), Chunks(rest));
  }

  /** The loop over a non-empty text's nonets is the loop over the rest
      of the text, after its first character is accumulated. */
  lemma RunTextStep(st: DecodeState, s: seq<Utf8.Scalar>, a: seq<Utf8.Scalar>)
    requires |s| > 0 && Utf8.Decode(st.acc) == Some(a)
    ensures Run(st, Chunks(TextBits(s)))
         == Run(DecodeState(st.text + a, Utf8.EncodeScalar(s[0])), Chunks(TextBits(s[1..])))
  {
    assert TextBits(s) == CharBits(s[0]) + TextBits(s[1..]);
    RunCharThen(st, s[0], a, TextBits(s[1..]));
  }

  /** The empty text has no nonets: the loop stops at once and the final
      flush decodes the accumulator. */
  lemma RunNoText(st: DecodeState, a: seq<Utf8.Scalar>)
    requires Utf8.Decode(st.acc) == Some(a)
    ensures Run(st, Chunks(TextBits([]))) == Some(st)
    ensures Finish(st) == Some(st.text + a)
  {
    assert Chunks(TextBits([])) == [];
  }

  /** The nonets of a whole text, after an accumulator holding `a`,
      decode to `a` followed by the text. */
  lemma {:induction false} RunText(st: DecodeState, s: seq<Utf8.Scalar>, a: seq<Utf8.Scalar>)
    requires Utf8.Decode(st.acc) == Some(a)
    ensures Run(st, Chunks(TextBits(s))).Some?
    ensures Finish(Run(st, Chunks(TextBits(s))).value) == Some(st.text + a + s)
    decreases |s|
  {
    if |s| == 0 {
      RunNoText(st, a);
      assert st.text + a + s == st.text + a;
    } else {
      var c := s[0];
      var mid := DecodeState(st.text + a, Utf8.EncodeScalar(c));
      var rest := Run(mid, Chunks(TextBits(s[1..])));
      assert Run(st, Chunks(TextBits(s))) == rest by {
        RunTextStep(st, s, a);
      }
      assert rest.Some? && Finish(rest.value) == Some(mid.text + [c] + s[1..]) by {
        Utf8.DecodeScalar(c);
        RunText(mid, s[1..], [c]);
      }
      assert mid.text + [c] + s[1..] == st.text + a + s;
    }
  }

  /** Packing a stream of whole nonets and unpacking it again gives the
      same groups: the padding never forms a group. */
  lemma PaddedGroups(bits: seq<bool>)
    requires |bits| % 9 == 0
    ensures Chunks(BytesToBits(BitsToBytes(bits))) == Chunks(bits)
  {
    var pad := Zeros(PadLength(|bits|));
    PackUnpack(bits);
    ChunksAppend(bits, pad);
    assert Chunks(pad) == [];
    assert Chunks(bits) + [] == Chunks(bits);
  }

  /** The groups the decoder reads from the encoder's output are the
      nonets of the text. */
  lemma EncodeGroups(s: seq<Utf8.Scalar>)
    ensures Chunks(BytesToBits(Encode(s))) == Chunks(TextBits(s))
  {
    var bits := TextBits(s);
    var n := |Utf8.EncodeText(s)|;
    assert |bits| == 9 * n;
    assert |bits| % 9 == 0;
    PaddedGroups(bits);
    assert Encode(s) == BitsToBytes(bits);
  }

  /** Round trip: decoding the encoding of a text gives the text back. */
  lemma RoundTrip(s: seq<Utf8.Scalar>)
    ensures Decode(Encode(s)) == Some(s)
  {
    EncodeGroups(s);
    RunText(Start, s, []);
    assert Start.text + [] + s == s;
  }

  /** A final group shorter than nine bits is ignored, whatever its bits:
      changing or removing it never changes the result. */
  lemma TrailingBitsIgnored(bits: seq<bool>, tail: seq<bool>)
    requires |bits| % 9 == 0 && |tail| < 9
    ensures DecodeBits(bits + tail) == DecodeBits(bits)
  {
    ChunksAppend(bits, tail);
    assert Chunks(bits) + [] == Chunks(bits);
  }

  /** Decoding no bytes gives the empty text, as does encoding it. */
  lemma EmptyInput()
    ensures Decode([]) == Some([])
    ensures Encode([]) == []
  {
    assert Chunks(BytesToBits([])) == [];
    assert Start.text + [] == [];
  }

  /** A leading flag-1 group carrying a continuation byte, followed by a
      flag-0 group or by the end of the stream, makes the flush fail. */
  lemma LeadingContinuationFails(b: Byte, rest: seq<bool>)
    requires Utf8.IsContinuation(b)
    requires |rest| < 9 || !rest[0]
    ensures DecodeBits(Nonet(true, b) + rest) == None
  {
    var head := Nonet(true, b);
    ChunksNonet(true, b, rest);
    var st := DecodeState([], [b]);
    StepLaws(Start, head, b);
    assert Start.acc + [b] == [b];
    assert Utf8.Decode([b]) == None;
    if |rest| >= 9 {
      ChunksAt(rest, 0);
      assert Step(st, Chunks(rest)[0]) == None;
    }
    RunAppend(Start, [head], Chunks(rest));
  }

  /** A leading flag-1 group is not rejected as such: when its byte is
      valid UTF-8 by itself, the flush succeeds and the byte is kept. */
  lemma LeadingContinuationAccepted(b: Byte)
    requires b < 0x80
    ensures DecodeBits(Nonet(true, b)) == Some([b])
  {
    var head := Nonet(true, b);
    ChunksOne(head);
    StepLaws(Start, head, b);
    Utf8.DecodeScalar(b);
    var st := DecodeState([], [b]);
    assert Start.acc + [b] == [b];
    assert Step(Start, head) == Some(st);
    assert [head][0] == head && [head][1..] == [];
    assert Run(Start, [head]) == Run(st, []);
    assert Finish(st) == Some([] + [b]);
  }

  /** The bytes C0 00 start with the group `1 10000000`, a lone
      continuation byte, so decoding them fails. */
  lemma LoneContinuationBytes()
    ensures Decode([0xC0, 0x00]) == None
  {
    var bits := BytesToBits([0xC0, 0x00]);
    assert bits == ByteToBits(0xC0) + (ByteToBits(0x00) + BytesToBits([]));
    assert bits == Nonet(true, 0x80) + Zeros(7);
    LeadingContinuationFails(0x80, Zeros(7));
  }

  /** The bytes the full groups of a stream carry, in order. */
  function DataBytes(chunks: seq<Group>): (r: seq<Byte>)
    ensures |r| == |chunks|
  {
    if |chunks| == 0 then [] else [DataByte(chunks[0])] + DataBytes(chunks[1..])
  }

  /** One loop pass moves the group's byte into the accumulator, and a
      flush moves the accumulator's bytes into the text unchanged. */
  lemma StepKeepsBytes(st: DecodeState, chunk: Group)
    requires Step(st, chunk).Some?
    ensures Utf8.EncodeText(Step(st, chunk).value.text) + Step(st, chunk).value.acc
         == Utf8.EncodeText(st.text) + st.acc + [DataByte(chunk)]
  {
    if !chunk[0] {
      var t := Utf8.Decode(st.acc).value;
      Utf8.EncodeTextAppend(st.text, t);
    }
  }

  /** Along the loop, the UTF-8 of the decoded text followed by the
      accumulator is exactly the bytes the groups read so far carried. */
  lemma {:induction false} RunKeepsBytes(st: DecodeState, chunks: seq<Group>)
    requires Run(st, chunks).Some?
    ensures Utf8.EncodeText(Run(st, chunks).value.text) + Run(st, chunks).value.acc
         == Utf8.EncodeText(st.text) + st.acc + DataBytes(chunks)
    decreases |chunks|
  {
    if |chunks| > 0 {
      var b := DataByte(chunks[0]);
      var next := Step(st, chunks[0]).value;
      StepKeepsBytes(st, chunks[0]);
      assert Run(st, chunks) == Run(next, chunks[1..]);
      RunKeepsBytes(next, chunks[1..]);
      var before := Utf8.EncodeText(st.text) + st.acc;
      var rest := DataBytes(chunks[1..]);
      assert DataBytes(chunks) == [b] + rest;
      assert (before + [b]) + rest == before + ([b] + rest);
    }
  }
}
