/**
 The extractor of `extract_message`, up to the point where the recovered
 text is handed to the base64 decoder: the least significant bit of every
 channel of every pixel, in the embedder's order, is read into a bit string
 of length 3 * |pixels|; the string is cut into eight-bit groups, the groups
 become characters with the zero-valued ones dropped, and the text is padded
 with '=' to a multiple of four characters.
 */
module Extractor {
  import opened Binary
  import opened TextCodec
  import opened Embedder

  /** The least significant bits of all channels in traversal order: R, G, B of each pixel in turn. */
  function Lsbs(pixels: seq<Pixel>): (r: seq<Bit>)
    ensures |r| == 3 * |pixels|
  {
    if pixels == [] then []
    else [Lsb(pixels[0].r), Lsb(pixels[0].g), Lsb(pixels[0].b)] + Lsbs(pixels[1..])
  }

  /** Bit k of the extracted string is the least significant bit of the channel at flat position k. */
  lemma {:induction false} LsbsAt(pixels: seq<Pixel>, k: nat)
    requires k < 3 * |pixels|
    ensures Lsbs(pixels)[k] == Flatten(pixels)[k] % 2
  {
    if k >= 3 {
      LsbsAt(pixels[1..], k - 3);
      assert Lsbs(pixels)[k] == Lsbs(pixels[1..])[k - 3];
      assert Flatten(pixels)[k] == Flatten(pixels[1..])[k - 3];
    }
  }

  /** Reading one more pixel appends its three bits. */
  lemma {:induction false} LsbsSnoc(pixels: seq<Pixel>, p: Pixel)
    ensures Lsbs(pixels + [p]) == Lsbs(pixels) + [Lsb(p.r), Lsb(p.g), Lsb(p.b)]
  {
    if pixels == [] {
      assert [p] + [] == [p];
      assert Lsbs([p]) == [Lsb(p.r), Lsb(p.g), Lsb(p.b)] + Lsbs([]);
    } else {
      assert (pixels + [p])[1..] == pixels[1..] + [p];
      LsbsSnoc(pixels[1..], p);
    }
  }

  /**
   After embedding, bit k of the extracted string is bits[k] for every k < |bits|
   within capacity, and the carrier's own least significant bit everywhere else.
   */
  lemma LsbsOfEmbedAt(pixels: seq<Pixel>, bits: seq<Bit>, k: nat)
    requires k < 3 * |pixels|
    ensures Lsbs(Embed(pixels, bits))[k] == if k < |bits| then bits[k] else Lsbs(pixels)[k]
  {
    LsbsAt(Embed(pixels, bits), k);
    LsbsAt(pixels, k);
    EmbedFlat(pixels, bits, k);
  }

  /** After embedding, the extracted string starts with the first min(|bits|, 3 * |pixels|) bits of the bit string. */
  lemma LsbsOfEmbedPrefix(pixels: seq<Pixel>, bits: seq<Bit>)
    ensures Lsbs(Embed(pixels, bits))[..Min(|bits|, 3 * |pixels|)] == bits[..Min(|bits|, 3 * |pixels|)]
  {
    var m := Min(|bits|, 3 * |pixels|);
    forall k | 0 <= k < m
      ensures Lsbs(Embed(pixels, bits))[k] == bits[k]
    {
      LsbsOfEmbedAt(pixels, bits, k);
    }
  }

  /**
   When the bit string fits, the extracted string is the bit string followed by the
   carrier's own least significant bits: positions past the payload are not zeroed.
   */
  lemma LsbsOfEmbedFits(pixels: seq<Pixel>, bits: seq<Bit>)
    requires |bits| <= 3 * |pixels|
    ensures Lsbs(Embed(pixels, bits)) == bits + Lsbs(pixels)[|bits|..]
  {
    forall k | 0 <= k < 3 * |pixels|
      ensures Lsbs(Embed(pixels, bits))[k] == (bits + Lsbs(pixels)[|bits|..])[k]
    {
      LsbsOfEmbedAt(pixels, bits, k);
    }
  }

  /** When the bit string does not fit, the extracted string is its first 3 * |pixels| bits: the rest is lost. */
  lemma LsbsOfEmbedOverflow(pixels: seq<Pixel>, bits: seq<Bit>)
    requires |bits| >= 3 * |pixels|
    ensures Lsbs(Embed(pixels, bits)) == bits[..3 * |pixels|]
  {
    LsbsOfEmbedPrefix(pixels, bits);
  }

  /** The loop of `extract_message` that reads `c & 1` of R, G and B of every pixel into one bit string. */
  method ReadLsbs(pixels: seq<Pixel>) returns (binaryMessage: seq<Bit>)
    ensures |binaryMessage| == 3 * |pixels|
    ensures forall k :: 0 <= k < |binaryMessage| ==> binaryMessage[k] == Flatten(pixels)[k] % 2
    ensures binaryMessage == Lsbs(pixels)
  {
    binaryMessage := [];
    for i := 0 to |pixels|
      invariant binaryMessage == Lsbs(pixels[..i])
    {
      var Pixel(r, g, b) := pixels[i];
      binaryMessage := binaryMessage + [Lsb(r)];
      binaryMessage := binaryMessage + [Lsb(g)];
      binaryMessage := binaryMessage + [Lsb(b)];
      LsbsSnoc(pixels[..i], pixels[i]);
      assert pixels[..i + 1] == pixels[..i] + [pixels[i]];
    }
    assert pixels[..|pixels|] == pixels;
    forall k | 0 <= k < |binaryMessage|
      ensures binaryMessage[k] == Flatten(pixels)[k] % 2
    {
      LsbsAt(pixels, k);
    }
  }

  /** The loop of `extract_message` that appends '=' until the length is a multiple of four. */
  method PadWithEquals(decoded: string) returns (message: string)
    ensures |message| % 4 == 0
    ensures |decoded| <= |message| <= |decoded| + 3
    ensures message[..|decoded|] == decoded
    ensures forall i :: |decoded| <= i < |message| ==> message[i] == '='
    ensures message == PadToQuad(decoded)
  {
    message := decoded;
    while |message| % 4 != 0
      invariant |decoded| <= |message| <= |decoded| + (4 - |decoded| % 4) % 4
      invariant message[..|decoded|] == decoded
      invariant forall i :: |decoded| <= i < |message| ==> message[i] == '='
      decreases |decoded| + 3 - |message|
    {
      message := message + "=";
    }
    PadCount(|decoded|, |message| - |decoded|);
  }

  /** The number of '=' that makes d + n a multiple of four, when n is at most (4 - d mod 4) mod 4, is that bound. */
  lemma PadCount(d: nat, n: nat)
    requires (d + n) % 4 == 0 && n <= (4 - d % 4) % 4
    ensures n == (4 - d % 4) % 4
  {
  }

  /**
   `extract_message` up to the base64 decoding: reads the least significant bits of
   the image, decodes the eight-bit groups with zero-valued groups dropped, and
   pads the text with '=' to a multiple of four characters.
   */
  method ExtractPayload(pixels: seq<Pixel>) returns (message: string)
    ensures |message| % 4 == 0
    ensures message == PadToQuad(DecodeText(Lsbs(pixels)))
  {
    var binaryMessage := ReadLsbs(pixels);
    var messageBits := Chunks(binaryMessage);
    var decoded := DecodeGroups(messageBits);
    message := PadWithEquals(decoded);
  }

  /**
   Extracting after embedding a text of 8-bit codes that fits: the recovered text is
   the message with its NUL characters lost, followed by whatever the carrier's
   own least significant bits past the payload decode to.
   */
  lemma ExtractAfterEmbed(pixels: seq<Pixel>, message: string)
    requires IsByteText(message) && 8 * |message| <= 3 * |pixels|
    ensures DecodeText(Lsbs(Embed(pixels, MessageToBits(message))))
         == WithoutNul(message) + DecodeText(Lsbs(pixels)[8 * |message|..])
  {
    var bits := MessageToBits(message);
    MessageToBitsLength(message);
    LsbsOfEmbedFits(pixels, bits);
    var tail := Lsbs(pixels)[|bits|..];
    ChunksAppend(bits, tail);
    DecodeGroupsAppend(Chunks(bits), Chunks(tail));
    DecodeEncode(message);
  }

  /**
   The round trip: a text with codes in 1..255 that fits, embedded into a carrier whose
   least significant bits past the payload are all 0, is extracted as the text padded with '='.
   */
  lemma RoundTrip(pixels: seq<Pixel>, message: string)
    requires forall i :: 0 <= i < |message| ==> 1 <= message[i] as int < 256
    requires 8 * |message| <= 3 * |pixels|
    requires forall k :: 8 * |message| <= k < 3 * |pixels| ==> Lsbs(pixels)[k] == 0
    ensures PadToQuad(DecodeText(Lsbs(Embed(pixels, MessageToBits(message))))) == PadToQuad(message)
  {
    var tail := Lsbs(pixels)[8 * |message|..];
    forall j | 0 <= j < |tail|
      ensures tail[j] == 0
    {
      assert tail[j] == Lsbs(pixels)[8 * |message| + j];
    }
    DecodeZeros(tail);
    assert IsByteText(message);
    ExtractAfterEmbed(pixels, message);
    WithoutNulNoNul(message);
    var got := DecodeText(Lsbs(Embed(pixels, MessageToBits(message))));
    assert got == WithoutNul(message) + DecodeText(tail);
    assert message + [] == message;
    assert got == message;
  }

  /**
   "HI" (codes 72 and 73) becomes the 16 bits 0100100001001001. The text and the
   codes are parameters fixed by `requires` rather than literals in the call, so
   that the verifier does not unfold the recursive numeral functions on literal
   arguments step by step.
   */
  lemma HiBits(m: string)
    requires m == "HI"
    ensures MessageToBits(m) == [0, 1, 0, 0, 1, 0, 0, 0] + [0, 1, 0, 0, 1, 0, 0, 1]
  {
    var h, i := m[0] as int, m[1] as int;
    FormatH(h);
    FormatI(i);
    assert MessageToBits(m[1..]) == Format08b(i) + MessageToBits([]);
    assert MessageToBits(m) == Format08b(h) + MessageToBits(m[1..]);
  }

  lemma FormatH(n: nat)
    requires n == 'H' as int
    ensures Format08b(n) == [0, 1, 0, 0, 1, 0, 0, 0]
  {
    Format08bExplicit(n);
  }

  lemma FormatI(n: nat)
    requires n == 'I' as int
    ensures Format08b(n) == [0, 1, 0, 0, 1, 0, 0, 1]
  {
    Format08bExplicit(n);
  }

  /** The 16 bits of "HI" decode back to "HI". */
  lemma HiDecodes()
    ensures DecodeText([0, 1, 0, 0, 1, 0, 0, 0] + [0, 1, 0, 0, 1, 0, 0, 1]) == "HI"
  {
    HiBits("HI");
    DecodeEncodeRoundTrip("HI");
  }

  /** A genuine zero character in the message is lost on decoding. */
  lemma NulIsLost()
    ensures DecodeText(MessageToBits("H\0I")) == "HI"
  {
    DecodeEncode("H\0I");
    assert WithoutNul("H\0I") == "HI";
  }
}
