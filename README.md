# LSB steganography codec of `sten.py`, modelled in Dafny

`sten.py` hides a text in an RGB image by overwriting the least significant
bit of every colour channel, and reads it back. This project models the part
of it that does real work once images, encryption and base64 are stripped
away:

- `message_to_bits`: each character's code is written as its `'08b'`
  numeral (most significant bit first, at least eight digits), and the
  numerals are concatenated in order (`text_codec.dfy`, `binary.dfy`).
- The pixel loop of `embed_message`: a cursor `data_index` walks the bit
  string while the loop visits R, G, B of each pixel in turn. While bits
  remain, each channel becomes `(c & 0xFE) | bit`. Once they run out,
  channels are copied unchanged (`embedder.dfy`, method `EmbedMessage`).
- The reading loop of `extract_message`: it collects `c & 1` of R, G, B of
  every pixel into a string of `3 * |pixels|` bits (`extractor.dfy`, method
  `ReadLsbs`).
- Decoding and padding repair. The bit string is cut into eight-bit groups,
  and a shorter final group is kept and converted too. Each group's value
  becomes a character, except that zero-valued groups are dropped. `'='` is
  then appended until the length is a multiple of four (`text_codec.dfy`;
  `extractor.dfy`, methods `PadWithEquals` and `ExtractPayload`).

The project has four Dafny modules:

- `Binary`: binary numerals, `int(s, 2)`, `format(n, '08b')`, and the two
  channel operations.
- `TextCodec`: text to bits and bits to text.
- `Embedder`: the carrier and the embedding.
- `Extractor`: reading back, padding, and the properties that connect
  embedding and extraction.

A pixel is a datatype of three channels in 0..255. A bit is an integer 0 or
1, and a character's code is `c as int`, as `ord` gives it.

Each loop of the source is a method with a loop. It is proved equal to a
functional specification, and the source's promises are proved as lemmas
about that specification:

- `EmbedMessage` is proved against `Embed`. Pixel `i` there takes bits
  `3i`, `3i+1` and `3i+2` where they exist.
- `ReadLsbs` is proved against `Lsbs`.
- `PadWithEquals` is proved against `PadToQuad`.

The channel operations are written arithmetically: `SetLsb(c, bit) = c - c
% 2 + bit` and `Lsb(c) = c % 2`. Lemmas over `bv8` prove these equal the
source's `(c & 0xFE) | bit` and `c & 1` on every 8-bit value.

Two behaviours of `sten.py` are easy to misread:

- Where the bit string is cut into groups (`sten.py:72`), the trailing
  partial group is not discarded. `sten.py:74` converts it like any other
  group (`Chunks`, `ChunksShape`).
- Channels past the payload are not cleared. They keep the carrier's own
  least significant bits, which then reach the decoder (`LsbsOfEmbedFits`,
  `ExtractAfterEmbed`). So the NUL filter only drops the trailing groups
  that happen to be zero. The round trip (`RoundTrip`) is proved for a
  carrier whose bits past the payload are zero; any other carrier adds
  characters to the decoded text (`ExtractAfterEmbed`), and the padding can
  hide them only when they are all '='.

Silent truncation is modelled as the code does it. Bits beyond the capacity
of `3 * |pixels|` have no effect (`EmbedDropsExcess`), and extraction then
returns only the first `3 * |pixels|` bits (`LsbsOfEmbedOverflow`).

## Model

| member | source | states |
|---|---|---|
| Binary.BinValue | sten.py:74 | `int(bits, 2)` of a digit string of length n is below 2^n, so a group of at most eight digits is a valid character code |
| Binary.Digits | sten.py:24 | the shortest binary numeral of n reads back as n and, for n > 0, starts with a 1 |
| Binary.DigitsWidth | sten.py:24 | the shortest numeral of n has at most w digits exactly when n < 2^w |
| Binary.Format08bSpec | sten.py:24 | `format(n, '08b')` has at least eight digits, exactly eight iff n < 256, reads back as n, and for n >= 256 is the plain numeral with no zeros added |
| Binary.Format08bDigit | sten.py:24 | for n < 256, digit j of `format(n, '08b')` is bit 7 - j of n (most significant first) |
| Binary.Format08b | sten.py:24 | `format(n, '08b')`; its contract is carried by Format08bSpec (at least eight digits, exactly eight iff n < 256, reads back as n) and Format08bExplicit (the eight bits of n) |
| Binary.Format08bExplicit | sten.py:24 | for n < 256, `format(n, '08b')` is the eight bits of n from bit 7 down to bit 0 |
| Binary.SetLsb | sten.py:43 | the rewritten channel has the given bit as its least significant bit and the same upper seven bits, and stays in 0..255 |
| Binary.SetLsbIsMaskOr | sten.py:42-50 | SetLsb agrees with `(c & 0xFE)` or-ed with the bit on every 8-bit channel value and both bits |
| Binary.Lsb | sten.py:67-69 | `c & 1` on a channel; its contract is carried by LsbIsAndOne (equal to the bitwise form) and LsbOfSetLsb (it reads back the bit SetLsb writes) |
| Binary.LsbIsAndOne | sten.py:67-69 | Lsb agrees with `c & 1` on every 8-bit channel value |
| Binary.LsbOfSetLsb | sten.py:43 | the bit written into a channel is the bit read back from it |
| TextCodec.MessageToBits | sten.py:23-24 | `message_to_bits`; its contract is carried by MessageToBitsLength, MessageToBitsGroup and MessageToBitsAt (8 bits per character, each group the numeral of its code) and DecodeEncode (decoding inverts it up to NULs) |
| TextCodec.MessageToBitsLength | sten.py:23-24 | for text of codes below 256, the bit string has exactly 8 bits per character |
| TextCodec.MessageToBitsAppend | sten.py:24 | the bit string of a concatenation is the concatenation of the bit strings |
| TextCodec.MessageToBitsSplit | sten.py:24 | the bit string around character i is the bits before it, the numeral of its code, and the bits after it |
| TextCodec.MessageToBitsGroup | sten.py:23-24 | for text of codes below 256, bits [8i, 8i+8) are `format(ord(m[i]), '08b')` |
| TextCodec.MessageToBitsAt | sten.py:23-24 | for text of codes below 256, bit 8i + j is bit 7 - j of the code of character i |
| TextCodec.Chunks | sten.py:72 | `[s[i:i+8] for i in range(0, len(s), 8)]` has ceil(len(s)/8) groups, each of 1 to 8 bits |
| TextCodec.ChunksPartition | sten.py:72 | the groups read in order give back the whole bit string: nothing is lost or reordered |
| TextCodec.ChunksShape | sten.py:72 | every group but the last has 8 bits, the last has len(s) mod 8 bits (8 when that is 0), and group k is the slice starting at 8k |
| TextCodec.ChunksAppend | sten.py:72 | cutting a + b where len(a) is a multiple of 8 gives the groups of a followed by those of b |
| TextCodec.DecodeGroups | sten.py:74 | the decoded text has at most one character per group, each with a code in 1..255 |
| TextCodec.DecodeGroupsAppend | sten.py:74 | decoding works group by group: it distributes over concatenation of groups |
| TextCodec.DecodeOneGroup | sten.py:74 | a group worth 0 decodes to nothing, and a group worth v > 0 decodes to the single character v |
| TextCodec.DecodeText | sten.py:72-74 | every character of decoded text has a code in 1..255: no NUL ever comes out |
| TextCodec.WithoutNul | sten.py:74 | the reference text with NUL characters removed is no longer than its input and contains no NUL |
| TextCodec.DecodeEncode | sten.py:72-74 | decoding the bit string of a text of codes below 256 gives the text back with exactly its NUL characters removed |
| TextCodec.DecodeEncodeRoundTrip | sten.py:72-74 | for text of codes in 1..255, decoding its bit string returns the text exactly |
| TextCodec.DecodeZeros | sten.py:74 | a bit string of zeros, of any length, decodes to empty text |
| TextCodec.PadToQuad | sten.py:76-77 | the padded text has length a multiple of 4, keeps the text as prefix, and adds at most three characters, all '=' |
| TextCodec.PadToQuadIdempotent | sten.py:76-77 | padding adds nothing to text whose length is already a multiple of 4, and padding twice equals padding once |
| Embedder.Flatten | sten.py:37-52 | the channel traversal order, R, G, B of each pixel in turn, has 3 channels per pixel; FlattenAt places channel ch of pixel i at 3i + ch, and EmbedFlat and LsbsAt state embedding and extraction in this order |
| Embedder.FlattenAt | sten.py:37-52 | channel ch (R = 0, G = 1, B = 2) of pixel i sits at flat position 3i + ch of the traversal order |
| Embedder.Put | sten.py:42-50 | the guarded rewrite of one channel keeps its upper seven bits, takes bit k as its low bit when the bit string has one, and is the old channel unchanged otherwise |
| Embedder.EmbedPixel | sten.py:40-52 | the three guarded rewrites of one pixel, R from bit k, G from bit k + 1, B from bit k + 2; its contract is carried by EmbedAt and EmbedFlat |
| Embedder.Embed | sten.py:37-52 | embedding keeps the number of pixels |
| Embedder.EmbedAt | sten.py:40-52 | channel ch of pixel i takes bit 3i + ch if the bit string has it, and is copied otherwise |
| Embedder.EmbedFlat | sten.py:42-50 | at flat channel position k, a channel with k < len(bits) becomes SetLsb(old, bits[k]) and one with k >= len(bits) is left exactly as it was |
| Embedder.EmbedDropsExcess | sten.py:33-52 | bits beyond 3 * len(pixels) have no effect: the carrier receives only the first min(len(bits), 3 * len(pixels)) bits |
| Embedder.EmbedNothing | sten.py:42-52 | an empty bit string leaves the carrier unchanged |
| Embedder.EmbedMessage | sten.py:31-52 | the pixel loop with the `data_index` cursor returns as many pixels as it was given, equal to Embed of the message's bit string |
| Extractor.Lsbs | sten.py:64-69 | the extracted bit string has exactly 3 bits per pixel |
| Extractor.LsbsAt | sten.py:64-69 | extracted bit k is the least significant bit of the channel at flat position k (R, G, B of each pixel in turn) |
| Extractor.LsbsOfEmbedAt | sten.py:42-69 | after embedding, extracted bit k is bits[k] for k < len(bits) and the carrier's own bit otherwise |
| Extractor.LsbsOfEmbedPrefix | sten.py:42-69 | after embedding, the first min(len(bits), 3 * len(pixels)) extracted bits are that prefix of the bit string |
| Extractor.LsbsOfEmbedFits | sten.py:42-69 | when the bit string fits, the extracted string is the bit string followed by the carrier's own bits, which are not cleared |
| Extractor.LsbsOfEmbedOverflow | sten.py:42-69 | when the bit string does not fit, the extracted string is its first 3 * len(pixels) bits |
| Extractor.ReadLsbs | sten.py:64-69 | the reading loop returns 3 bits per pixel, bit k being the low bit of flat channel k, equal to Lsbs |
| Extractor.PadWithEquals | sten.py:76-77 | the '=' loop stops at a multiple of 4, keeps the text as prefix and appends at most three '=', equal to PadToQuad |
| Extractor.ExtractPayload | sten.py:64-77 | extraction up to base64 decoding is the padded decoding of the image's low bits, of length a multiple of 4 |
| Extractor.ExtractAfterEmbed | sten.py:37-74 | extracting after embedding a fitting text of codes below 256 gives the text without its NULs, then whatever the carrier's bits past the payload decode to |
| Extractor.RoundTrip | sten.py:37-77 | a fitting text of codes in 1..255, embedded in a carrier whose bits past the payload are 0, is extracted as the padded text |
| Extractor.HiBits | sten.py:23-24 | "HI" becomes the 16 bits 01001000 01001001 |
| Extractor.HiDecodes | sten.py:72-74 | the 16 bits 01001000 01001001 decode to "HI" |
| Extractor.NulIsLost | sten.py:74 | a genuine NUL character in a message is lost on decoding: "H\0I" comes back as "HI" |

## Left out

- Fernet encryption and decryption (`sten.py:15-21`, `sten.py:80`) are an external authenticated cipher and are not part of this model.
- Base64url encoding and decoding (`sten.py:79`, `sten.py:92`) are library calls (RFC 4648, section 5). The model stops at the padded text handed to the decoder.
- Key generation and the key file (`sten.py:6-13`) are file I/O.
- The image handling (`Image.open`, `convert('RGB')`, `getdata`, `putdata`, `save`, `print`; `sten.py:27-29`, `54-56`, `60-62`) is I/O. The pixel list is a parameter and a result instead.
- `main` (`sten.py:84-104`) is glue with hard-coded paths and a hard-coded message.
- `detect_embedded.py` is not part of this model. It is a statistical analysis over floating-point histograms and entropy, plus plotting.
- Embedder.EmbedMessage: the final value of `data_index` is not returned, as in the source. That it equals min(|bits|, 3 * |pixels|) at the end, so excess bits are dropped, is a loop invariant of the method. As a property of the result it is EmbedDropsExcess.
- TextCodec.MessageToBits: Python strings may hold lone surrogate code points, which a Dafny `char` cannot. The model covers text of Unicode scalar values.
- TextCodec.DecodeGroups: `int('', 2)` cannot arise, because every group has at least one bit. `chr` is always given a value in 1..255, so no error path exists to model.
- Extractor.RoundTrip: it is stated for a carrier whose bits past the payload are zero. The source does not clear them, so another carrier makes the decoded text carry extra characters after the message (ExtractAfterEmbed states what they are); the padding absorbs them only when they are all '=', and that case is not stated as a lemma.
