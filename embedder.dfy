/**
 The embedder of `embed_message`: the carrier is the image's pixel list in
 traversal order, each pixel an (R, G, B) triple of 8-bit channels. Channel
 ch of pixel i sits at flat position 3*i + ch (R = 0, G = 1, B = 2), and the
 bit at position k of the message's bit string is written into the least
 significant bit of the channel at flat position k, for every k that the
 image has room for. Every other channel is copied unchanged.
 */
module Embedder {
  import opened Binary
  import opened TextCodec

  /** One RGB pixel. */
  datatype Pixel = Pixel(r: Byte, g: Byte, b: Byte)

  /** Channel ch of a pixel: 0 is R, 1 is G, 2 is B. */
  function Channel(p: Pixel, ch: nat): Byte
    requires ch < 3
  {
    if ch == 0 then p.r else if ch == 1 then p.g else p.b
  }

  /** All channels of the pixel list in traversal order: R, G, B of the first pixel, then of the next, ... */
  function Flatten(pixels: seq<Pixel>): (r: seq<Byte>)
    ensures |r| == 3 * |pixels|
  {
    if pixels == [] then []
    else [pixels[0].r, pixels[0].g, pixels[0].b] + Flatten(pixels[1..])
  }

  /** Channel ch of pixel i is at flat position 3*i + ch. */
  lemma {:induction false} FlattenAt(pixels: seq<Pixel>, i: nat, ch: nat)
    requires i < |pixels| && ch < 3
    ensures Flatten(pixels)[3 * i + ch] == Channel(pixels[i], ch)
  {
    if i > 0 {
      FlattenAt(pixels[1..], i - 1, ch);
      assert Flatten(pixels)[3 * i + ch] == Flatten(pixels[1..])[3 * (i - 1) + ch];
    }
  }

  /** The channel with the bit at flat position k written into it, if the bit string is that long. */
  function Put(c: Byte, bits: seq<Bit>, k: nat): (r: Byte)
    ensures r / 2 == c / 2
    ensures k < |bits| ==> r % 2 == bits[k]
    ensures k >= |bits| ==> r == c
  {
    if k < |bits| then SetLsb(c, bits[k]) else c
  }

  /** The pixel whose R, G, B sit at flat positions k, k + 1, k + 2, with those bits written into it. */
  function EmbedPixel(p: Pixel, bits: seq<Bit>, k: nat): Pixel
  {
    Pixel(Put(p.r, bits, k), Put(p.g, bits, k + 1), Put(p.b, bits, k + 2))
  }

  /** The pixel list with the bit string written into it, pixel i taking bits 3*i, 3*i + 1 and 3*i + 2 where they exist. */
  function Embed(pixels: seq<Pixel>, bits: seq<Bit>): (r: seq<Pixel>)
    ensures |r| == |pixels|
  {
    seq(|pixels|, i requires 0 <= i < |pixels| => EmbedPixel(pixels[i], bits, 3 * i))
  }

  /** Channel ch of pixel i after embedding is the old channel with bit 3*i + ch written into it. */
  lemma EmbedAt(pixels: seq<Pixel>, bits: seq<Bit>, i: nat, ch: nat)
    requires i < |pixels| && ch < 3
    ensures Channel(Embed(pixels, bits)[i], ch) == Put(Channel(pixels[i], ch), bits, 3 * i + ch)
  {
    var p := pixels[i];
    var q := Embed(pixels, bits)[i];
    assert q == EmbedPixel(p, bits, 3 * i);
    assert q.r == Put(p.r, bits, 3 * i) && q.g == Put(p.g, bits, 3 * i + 1) && q.b == Put(p.b, bits, 3 * i + 2);
  }

  /**
   At every flat position k of the image, a channel with k < |bits| keeps its upper
   seven bits and takes bits[k] as its least significant bit; a channel with
   k >= |bits| is left exactly as it was.
   */
  lemma EmbedFlat(pixels: seq<Pixel>, bits: seq<Bit>, k: nat)
    requires k < 3 * |pixels|
    ensures |Flatten(Embed(pixels, bits))| == |Flatten(pixels)|
    ensures k < |bits| ==> Flatten(Embed(pixels, bits))[k] == SetLsb(Flatten(pixels)[k], bits[k])
    ensures k >= |bits| ==> Flatten(Embed(pixels, bits))[k] == Flatten(pixels)[k]
  {
    var i, ch := k / 3, k % 3;
    assert k == 3 * i + ch;
    FlattenAt(pixels, i, ch);
    FlattenAt(Embed(pixels, bits), i, ch);
    EmbedAt(pixels, bits, i, ch);
  }

  /** Bits beyond the capacity of 3 * |pixels| have no effect: they are silently dropped. */
  lemma EmbedDropsExcess(pixels: seq<Pixel>, bits: seq<Bit>)
    ensures Embed(pixels, bits) == Embed(pixels, bits[..Min(|bits|, 3 * |pixels|)])
  {
  }

  /** An empty bit string leaves the carrier unchanged. */
  lemma EmbedNothing(pixels: seq<Pixel>)
    ensures Embed(pixels, []) == pixels
  {
    forall i | 0 <= i < |pixels|
      ensures Embed(pixels, [])[i] == pixels[i]
    {
    }
  }

  /** The embedded list up to pixel i + 1 extends the one up to pixel i by the embedded pixel i. */
  lemma EmbedPrefixStep(pixels: seq<Pixel>, bits: seq<Bit>, i: nat)
    requires i < |pixels|
    ensures Embed(pixels, bits)[..i + 1] == Embed(pixels, bits)[..i] + [EmbedPixel(pixels[i], bits, 3 * i)]
  {
  }

  function Min(a: int, b: int): int
  {
    if a <= b then a else b
  }

  /**
   `embed_message` with the image I/O taken away: walks the pixels in order and
   R, G, B within each pixel, writing the next bit of the message's bit string
   into each channel while bits remain, and copying the channel once they run out.
   */
  method EmbedMessage(pixels: seq<Pixel>, message: string) returns (newPixels: seq<Pixel>)
    ensures |newPixels| == |pixels|
    ensures newPixels == Embed(pixels, MessageToBits(message))
  {
    var messageBits := MessageToBits(message);
    var messageLength := |messageBits|;
    var dataIndex := 0;
    newPixels := [];
    for i := 0 to |pixels|
      invariant dataIndex == Min(messageLength, 3 * i)
      invariant newPixels == Embed(pixels, messageBits)[..i]
    {
      var Pixel(r, g, b) := pixels[i];
      if dataIndex < messageLength {
        r := SetLsb(r, messageBits[dataIndex]);
        dataIndex := dataIndex + 1;
      }
      assert r == Put(pixels[i].r, messageBits, 3 * i);
      assert dataIndex == Min(messageLength, 3 * i + 1);
      if dataIndex < messageLength {
        g := SetLsb(g, messageBits[dataIndex]);
        dataIndex := dataIndex + 1;
      }
      assert g == Put(pixels[i].g, messageBits, 3 * i + 1);
      assert dataIndex == Min(messageLength, 3 * i + 2);
      if dataIndex < messageLength {
        b := SetLsb(b, messageBits[dataIndex]);
        dataIndex := dataIndex + 1;
      }
      assert b == Put(pixels[i].b, messageBits, 3 * i + 2);
      EmbedPrefixStep(pixels, messageBits, i);
      newPixels := newPixels + [Pixel(r, g, b)];
    }
    // Every bit within capacity was consumed; the rest were dropped.
    assert dataIndex == Min(messageLength, 3 * |pixels|);
  }
}
