# UTF-9 codec, modelled in Dafny

This project models the `utf9` Python module. The module has two
functions. `utf9encode` turns a string into bytes. Each UTF-8 byte of every
character becomes a 9-bit "nonet": a flag bit (0 on the first byte of the
character, 1 on the bytes after it), then the byte's eight bits, most
significant first. The nonets are packed into bytes and the last byte is
zero padded. `utf9decode` reverses this. It unpacks the bytes, reads
nine-bit groups, drops a final group shorter than nine bits, and collects
data bytes in an accumulator. A flag-0 group flushes the accumulator as
UTF-8 into the output. One more flush happens at the end.

Files:

- `options.dfy` (`Options`): the `Option` datatype. `None` stands for
  Python's `UnicodeDecodeError`.
- `bits.dfy` (`BitPacking`): MSB-first conversion between bytes and bit
  streams, with zero padding. It stands in for three of the `bitarray`
  calls the module makes: `extend` of the binary-digit string of a byte
  (`ByteToBits`), `frombytes` (`BytesToBits`) and `tobytes`
  (`BitsToBytes`, `BitsToByte`). The other calls are modelled in `Utf9`:
  `bits.append(idx)` by `Nonet` and `Nonets`, the slices `bits[x:x+9]` by
  `Chunks` and `chunk[1:]` by `DataByte`.
- `utf8.dfy` (`Utf8`): the UTF-8 encoder for one scalar value (section 3 of
  RFC 3629). Also a strict decoder that accepts exactly the well-formed
  sequences of section 4 of RFC 3629, standing in for
  `bytes.decode('utf-8')`. Both directions of the round trip are proved.
- `utf9.dfy` (`Utf9`): `utf9encode` as `Encode` and `utf9decode` as
  `Decode`, as pure functions. The decoder loop is an explicit state
  machine over `DecodeState(text, acc)`. The laws about both live here too.
- `utf9_loops.dfy` (`Utf9Loops`): the same two functions written as the
  source's loops (nested `for` loops; a `for` loop with `break`). Each is
  proved equal to the functional definition.

Text is `seq<Utf8.Scalar>`, one Unicode scalar value per element. Bytes
are integers 0..255 (`BitPacking.Byte`). Bits are `bool`, with `true` for 1.

The module docstring cites RFC 4042 (utf9/__init__.py:4-5), but the code
does not implement RFC 4042's UTF-9. That format splits the code point into
octets and uses the high bit of each nonet to mean "more nonets follow".
The code instead prefixes each UTF-8 byte with a first/continuation flag.
This model follows the code.

Some consequences of the code that are easy to get wrong:

- `"A"` is the nine bits `0 01000001`. Packed MSB first, they give the two
  bytes `0x20 0x80` (`Utf9.EncodeLetterA`).
- A leading flag-1 group is not rejected as such. Decoding fails only when
  the bytes accumulated at the next flush are not valid UTF-8
  (`Utf9.LeadingContinuationFails`). When they are valid, the group is
  decoded (`Utf9.LeadingContinuationAccepted`).
- A short final group is ignored whatever its bits are
  (`Utf9.TrailingBitsIgnored`).

## Model

| member | source | states |
|---|---|---|
| `BitPacking.ByteToBits` | utf9/__init__.py:33 | `'{0:b}'.format(byte).zfill(8)` is exactly eight binary digits |
| `BitPacking.BytesToBits` | utf9/__init__.py:39-40 | `frombytes` gives eight bits per byte |
| `BitPacking.BitsToByte` | utf9/__init__.py:49 | `chunk[1:].tobytes()` on eight bits: the byte whose MSB-first bits are exactly the given bits |
| `BitPacking.ByteBitsRoundTrip` | utf9/__init__.py:33 | a byte is recovered from the eight binary digits `'{0:b}'.format(byte).zfill(8)` spells out |
| `BitPacking.BitsToBytes` | utf9/__init__.py:34 | `tobytes` yields ceil(n/8) bytes for n bits |
| `BitPacking.PackUnpack` | utf9/__init__.py:34 | unpacking the packed stream gives the stream back followed by fewer than eight zero bits |
| `BitPacking.UnpackPack` | utf9/__init__.py:40 | `frombytes` loses nothing: packing the unpacked bits gives the same bytes |
| `BitPacking.BytesToBitsAppend` | utf9/__init__.py:40 | `frombytes` of two byte strings one after the other is the bits of the first followed by those of the second |
| `BitPacking.BytesToBitsAt` | utf9/__init__.py:40 | after `frombytes`, byte i sits MSB first at bits 8i..8i+7 |
| `BitPacking.BitsToNatToBits` | utf9/__init__.py:33 | reading back the n-bit binary expansion of v gives v |
| `Utf8.EncodeScalar` | utf9/__init__.py:31 | `char.encode('utf-8')` gives 1 to 4 bytes, counted by the RFC 3629 ranges; the first byte is not a continuation byte and all later ones are |
| `Utf8.DecodeFirst` | utf9/__init__.py:48 | a character the strict decoder reads spans 1 to 4 bytes of its input; its value is a Unicode scalar value by its type |
| `Utf8.DecodeFirstCanonical` | utf9/__init__.py:48 | whatever the decoder reads as one character is exactly that character's encoding: no overlong form, surrogate or value above U+10FFFF |
| `Utf8.DecodeFirstEncode` | utf9/__init__.py:31 | the encoding of a scalar value is read back as that value and length, whatever follows it |
| `Utf8.Decode` | utf9/__init__.py:48 | whatever strict `bytes.decode('utf-8')` accepts, re-encoding the result reproduces the input byte for byte |
| `Utf8.DecodeEncode` | utf9/__init__.py:48 | strict decoding inverts UTF-8 encoding of a text |
| `Utf8.DecodeScalar` | utf9/__init__.py:48 | one character's bytes decode to exactly that one character |
| `Utf8.EncodeText` | utf9/__init__.py:30-31 | the UTF-8 of a non-empty text starts with a lead byte, never a continuation byte |
| `Utf8.EncodeTextLength` | utf9/__init__.py:30-31 | every character of the text takes one to four UTF-8 bytes |
| `Utf8.EncodeTextAppend` | utf9/__init__.py:30-31 | the UTF-8 of `s + t` is the UTF-8 of `s` followed by that of `t` |
| `Utf9.Encode` | utf9/__init__.py:27-34 | `utf9encode` output has ceil(9L/8) bytes, L being the text's total UTF-8 length |
| `Utf9.Nonet` | utf9/__init__.py:32-33 | `bits.append(idx)` then `extend` of the byte's eight digits adds exactly nine bits |
| `Utf9.Nonets` | utf9/__init__.py:31-33 | the inner loop adds nine bits per UTF-8 byte of the character |
| `Utf9.TextBits` | utf9/__init__.py:29-33 | the stream the loops build before packing has nine bits per UTF-8 byte of the text |
| `Utf9.EncodePadding` | utf9/__init__.py:34 | the output unpacks to the unpadded stream plus fewer than eight zero bits |
| `Utf9.NonetsAt` | utf9/__init__.py:31-33 | nonet k of a character carries flag `idx > 0` then byte k's bits, MSB first |
| `Utf9.CharFraming` | utf9/__init__.py:30-33 | a character yields a run of 1 to 4 nonets with flags 0,1,...,1, each carrying the matching UTF-8 byte |
| `Utf9.TextBitsAppend` | utf9/__init__.py:30-33 | the pre-padding stream of `s + t` is that of `s` followed by that of `t` |
| `Utf9.EncodeLetterA` | utf9/__init__.py:27-34 | `"A"` becomes the nine bits `0 01000001`, packed as `0x20 0x80` |
| `Utf9.Chunks` | utf9/__init__.py:41-46 | the loop reads floor(n/9) full groups from n bits; a short tail is dropped |
| `Utf9.ChunksAt` | utf9/__init__.py:41 | group i is bits 9i..9i+8 of the stream |
| `Utf9.ChunksAppend` | utf9/__init__.py:41 | grouping a whole number of nonets and then more bits groups the two parts separately |
| `Utf9.DataByte` | utf9/__init__.py:49 | the byte a group carries has the group's last eight bits, MSB first |
| `Utf9.Step` | utf9/__init__.py:47-49 | one pass of the loop can raise only on a flag-0 group, where the accumulator is flushed |
| `Utf9.Finish` | utf9/__init__.py:50 | when the final flush succeeds, the UTF-8 of the result is the UTF-8 of the text so far followed by the accumulated bytes |
| `Utf9.FinishLaws` | utf9/__init__.py:50 | the final flush raises exactly when the accumulated bytes are not valid UTF-8, and otherwise appends their decoding to the text |
| `Utf9.RunFailsAtFlush` | utf9/__init__.py:44-49 | the loop can raise only at a flag-0 group: a run of flag-1 groups never fails |
| `Utf9.DecodeBits` | utf9/__init__.py:41-50 | when decoding succeeds, the UTF-8 of the result is exactly the bytes all full groups carry: nothing lost or invented |
| `Utf9.Decode` | utf9/__init__.py:37-50 | when `utf9decode` returns, the UTF-8 of its result is exactly the bytes carried by the full nonets of the input, in order |
| `Utf9.StepLaws` | utf9/__init__.py:47-49 | state machine: flag 1 appends the byte; flag 0 with an empty accumulator contributes nothing; flag 0 otherwise fails exactly when the accumulator is not UTF-8, else appends its decoding and restarts the accumulator with the byte |
| `Utf9.RunAppend` | utf9/__init__.py:44-49 | the loop over two runs of groups is the loop over the first continued over the second |
| `Utf9.RunContinuation` | utf9/__init__.py:47-49 | flag-1 nonets only extend the accumulator with their bytes |
| `Utf9.RunChar` | utf9/__init__.py:44-49 | one character's nonets flush the previous accumulator and leave that character's UTF-8 accumulated |
| `Utf9.RunCharThen` | utf9/__init__.py:44-49 | after one character's nonets, the loop continues with that character's bytes accumulated and the old accumulator flushed |
| `Utf9.RunText` | utf9/__init__.py:44-50 | a text's nonets after an accumulator holding `a` decode to `a` followed by the text |
| `Utf9.PaddedGroups` | utf9/__init__.py:34-46 | the zero padding `tobytes` adds to whole nonets never forms a group when decoding |
| `Utf9.EncodeGroups` | utf9/__init__.py:27-46 | the groups read from the encoder's output are exactly the text's nonets |
| `Utf9.RoundTrip` | utf9/__init__.py:17-21 | `utf9decode(utf9encode(s)) == s` for every text of Unicode scalar values |
| `Utf9.TrailingBitsIgnored` | utf9/__init__.py:45-46 | a final group shorter than nine bits never affects the result, whatever its bits |
| `Utf9.EmptyInput` | utf9/__init__.py:27-50 | the empty text encodes to no bytes, and no bytes decode to the empty text |
| `Utf9.LeadingContinuationFails` | utf9/__init__.py:47-50 | a leading flag-1 group holding a continuation byte, then a flag-0 group or the end, makes decoding raise |
| `Utf9.LeadingContinuationAccepted` | utf9/__init__.py:47-50 | a leading flag-1 group holding an ASCII byte is decoded, not rejected |
| `Utf9.LoneContinuationBytes` | utf9/__init__.py:37-50 | the bytes `C0 00` make `utf9decode` raise |
| `Utf9.StepKeepsBytes` | utf9/__init__.py:47-49 | one loop pass moves the group's byte into the accumulator, and the flush moves the accumulator's bytes into the text unchanged |
| `Utf9.RunKeepsBytes` | utf9/__init__.py:44-49 | along the loop, the UTF-8 of the decoded text followed by the accumulator is exactly the bytes read so far |
| `Utf9Loops.CharNonetsLoop` | utf9/__init__.py:31-33 | the inner loop of `utf9encode` produces the character's nonets, flagged `idx > 0` |
| `Utf9Loops.EncodeLoop` | utf9/__init__.py:27-34 | the nested loops of `utf9encode` compute `Utf9.Encode` |
| `Utf9Loops.NonetsSnoc` | utf9/__init__.py:31-33 | one more pass of the inner loop appends the next nonet, flagged `idx > 0` |
| `Utf9Loops.TextBitsSnoc` | utf9/__init__.py:30-33 | one more pass of the outer loop appends the next character's nonets |
| `Utf9Loops.RunFrom` | utf9/__init__.py:41-49 | the loop from bit x is one pass over the group at x, then the loop from bit x+9 |
| `Utf9Loops.DecodeLoop` | utf9/__init__.py:37-50 | the `for`/`break` loop of `utf9decode` computes `Utf9.Decode`, raising exactly when it does |

## Left out

- BitPacking.ByteToBits: the contract gives only the width. The value the
  bits spell is stated by `BitPacking.ByteBitsRoundTrip` and
  `BitPacking.BitsToNatToBits`, because a value clause on this widely used
  function makes every proof that unfolds it much slower.
- BitPacking.BytesToBits: the contract gives only the length. Where each
  byte lands is stated by `BitPacking.BytesToBitsAt`, and that nothing is
  lost by `BitPacking.UnpackPack`.
- Utf9.Run: the function has no contract of its own. What the loop does
  is stated by `Utf9.RunAppend`, `Utf9.RunFailsAtFlush`,
  `Utf9.RunKeepsBytes` and `Utf9Loops.RunFrom`, because clauses on this
  function make the proofs that unfold it much slower.
- Utf9.CharBits: the function has no contract of its own. The framing of
  one character's nonets is stated by `Utf9.CharFraming`, for the same
  reason.
- Utf9.Finish: the contract covers a successful flush only. That the flush
  raises exactly when the accumulated bytes are not UTF-8 is
  `Utf9.FinishLaws`.
- Utf9.Step: the contract says only where a pass can raise. The full
  behaviour of a pass is stated by `Utf9.StepLaws`, and its byte
  bookkeeping by `Utf9.StepKeepsBytes`.
- The `bitarray` library itself, a C extension. It is replaced by the pure
  MSB-first conversions in `BitPacking`, which use the library's default
  big-endian bit order.
- `bits.append(idx)` with `idx` of 2 or 3 (utf9/__init__.py:32). Depending
  on the `bitarray` version, this either appends a 1 bit or raises
  `ValueError`. The model takes the flag to be `idx > 0`, the documented
  intent.
- Lone surrogates in a Python `str`. `char.encode('utf-8')` raises on them.
  `Encode` instead takes a sequence of Unicode scalar values
  (`Utf8.Scalar`, a subset type), so that exception is not modelled.
- The contents of `UnicodeDecodeError`: its position and message. Decoding
  failure is `None`.
- The hardened decoder variant that would reject a leading flag-1 group or
  non-zero padding bits. The code has neither check, so the model has
  neither.
- The RFC 4042 nonet format. The code does not implement it.
- The Python-2-style `print` in the docstring example. It is documentation
  only.
- The docstring example's concrete string (utf9/__init__.py:19). The round
  trip is proved for every text instead.
