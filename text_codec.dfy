/**
 The text side of the codec: turning a message into its bit string
 (`message_to_bits`), cutting a bit string read back from an image into
 eight-bit groups, turning the groups back into characters with the
 zero-valued groups dropped, and completing the result with '=' to a
 multiple of four characters.

 Characters are Dafny `char`s; a character's code is `c as int`, as
 Python's `ord(c)` gives it.
 */
module TextCodec {
  import opened Binary

  /** Every character of the text has a code below 256. */
  predicate IsByteText(t: string) {
    forall i :: 0 <= i < |t| ==> t[i] as int < 256
  }

  /** `message_to_bits`: the `'08b'` numeral of each character's code, concatenated in order. */
  function MessageToBits(message: string): seq<Bit>
  {
    if message == [] then [] else Format08b(message[0] as int) + MessageToBits(message[1..])
  }

  /** For text of 8-bit codes, the bit string has exactly eight digits per character. */
  lemma {:induction false} MessageToBitsLength(message: string)
    requires IsByteText(message)
    ensures |MessageToBits(message)| == 8 * |message|
    ensures |MessageToBits(message)| % 8 == 0
  {
    if message != [] {
      var rest := message[1..];
      assert IsByteText(rest);
      MessageToBitsLength(rest);
      Format08bSpec(message[0] as int);
      LengthStep(MessageToBits(message), Format08b(message[0] as int), MessageToBits(rest), |rest|);
    }
  }

  lemma LengthStep(m: seq<Bit>, f: seq<Bit>, y: seq<Bit>, n: nat)
    requires m == f + y && |f| == 8 && |y| == 8 * n
    ensures |m| == 8 * (n + 1) && |m| % 8 == 0
  {
  }

  /** The bit string of a concatenation is the concatenation of the bit strings. */
  lemma {:induction false} MessageToBitsAppend(a: string, b: string)
    ensures MessageToBits(a + b) == MessageToBits(a) + MessageToBits(b)
  {
    if a == [] {
      assert a + b == b;
    } else {
      assert (a + b)[1..] == a[1..] + b;
      MessageToBitsAppend(a[1..], b);
    }
  }

  /** The bit string around character i: the bits of the text before it, its numeral, the bits of the text after it. */
  lemma MessageToBitsSplit(message: string, i: nat)
    requires i < |message|
    ensures MessageToBits(message)
         == MessageToBits(message[..i]) + (Format08b(message[i] as int) + MessageToBits(message[i + 1..]))
  {
    var post := message[i..];
    assert message == message[..i] + post;
    MessageToBitsAppend(message[..i], post);
    assert post[1..] == message[i + 1..];
  }

  /** For text of 8-bit codes, bits [8i, 8i+8) are the `'08b'` numeral of character i. */
  lemma MessageToBitsGroup(message: string, i: nat)
    requires IsByteText(message) && i < |message|
    ensures |MessageToBits(message)| == 8 * |message|
    ensures MessageToBits(message)[8 * i..8 * i + 8] == Format08b(message[i] as int)
  {
    MessageToBitsLength(message);
    MessageToBitsSplit(message, i);
    PrefixLength(message, i);
    Format08bSpec(message[i] as int);
    GroupAt(MessageToBits(message), MessageToBits(message[..i]), Format08b(message[i] as int), MessageToBits(message[i + 1..]), i);
  }

  lemma GroupAt(m: seq<Bit>, x: seq<Bit>, f: seq<Bit>, y: seq<Bit>, i: nat)
    requires m == x + (f + y) && |x| == 8 * i && |f| == 8
    ensures m[8 * i..8 * i + 8] == f
  {
    MiddleSlice(x, f, y);
  }

  lemma PrefixLength(message: string, i: nat)
    requires IsByteText(message) && i <= |message|
    ensures |MessageToBits(message[..i])| == 8 * i
  {
    assert IsByteText(message[..i]);
    MessageToBitsLength(message[..i]);
  }

  lemma MiddleSlice(x: seq<Bit>, f: seq<Bit>, y: seq<Bit>)
    ensures (x + (f + y))[|x|..|x| + |f|] == f
  {
  }

  /** For text of 8-bit codes, bit 8i+j is bit 7-j of the code of character i (most significant bit first). */
  lemma MessageToBitsAt(message: string, i: nat, j: nat)
    requires IsByteText(message) && i < |message| && j < 8
    ensures |MessageToBits(message)| == 8 * |message|
    ensures MessageToBits(message)[8 * i + j] == (message[i] as int) / Pow2(7 - j) % 2
  {
    MessageToBitsGroup(message, i);
    Format08bDigit(message[i] as int, j);
    assert MessageToBits(message)[8 * i + j] == MessageToBits(message)[8 * i..8 * i + 8][j];
  }

  /** The slices `s[i:i+8]` for i in `range(0, len(s), 8)`: eight-bit groups, the last one shorter when |s| is not a multiple of 8. */
  function Chunks(s: seq<Bit>): (r: seq<seq<Bit>>)
    ensures |r| == (|s| + 7) / 8
    ensures forall k :: 0 <= k < |r| ==> 1 <= |r[k]| <= 8
    decreases |s|
  {
    if s == [] then []
    else if |s| <= 8 then [s]
    else [s[..8]] + Chunks(s[8..])
  }

  /** The concatenation of a sequence of groups. */
  function Concat(groups: seq<seq<Bit>>): (r: seq<Bit>)
  {
    if groups == [] then [] else groups[0] + Concat(groups[1..])
  }

  /** The groups partition the bit string: read in order they give it back. */
  lemma {:induction false} ChunksPartition(s: seq<Bit>)
    ensures Concat(Chunks(s)) == s
    decreases |s|
  {
    if |s| > 8 {
      ChunksPartition(s[8..]);
      assert ([s[..8]] + Chunks(s[8..]))[1..] == Chunks(s[8..]);
      assert s[..8] + s[8..] == s;
    } else if s != [] {
      assert Concat([s]) == s + Concat([]);
    }
  }

  /** Every group but the last has eight bits; the last has |s| mod 8 bits, or eight when that is 0. */
  lemma {:induction false} ChunksShape(s: seq<Bit>, k: nat)
    requires k < |Chunks(s)|
    ensures k < |Chunks(s)| - 1 ==> |Chunks(s)[k]| == 8
    ensures k == |Chunks(s)| - 1 ==> |Chunks(s)[k]| == if |s| % 8 == 0 then 8 else |s| % 8
    ensures Chunks(s)[k] == s[8 * k..8 * k + |Chunks(s)[k]|]
    decreases |s|
  {
    if |s| <= 8 {
      ShapeSingle(s, Chunks(s), k);
    } else {
      var t := s[8..];
      assert Chunks(s) == [s[..8]] + Chunks(t);
      if k == 0 {
        ShapeHead(s, Chunks(s), Chunks(t));
      } else {
        ChunksShape(t, k - 1);
        ShapeStep(s, t, Chunks(s), Chunks(t), k);
      }
    }
  }

  lemma ShapeSingle(s: seq<Bit>, c: seq<seq<Bit>>, k: nat)
    requires 0 < |s| <= 8 && c == [s] && k < |c|
    ensures k == |c| - 1 && |c[k]| == if |s| % 8 == 0 then 8 else |s| % 8
    ensures c[k] == s[8 * k..8 * k + |c[k]|]
  {
    assert s[0..|s|] == s;
  }

  lemma ShapeHead(s: seq<Bit>, c: seq<seq<Bit>>, d: seq<seq<Bit>>)
    requires |s| > 8 && c == [s[..8]] + d && |d| >= 1
    ensures 0 < |c| - 1 && |c[0]| == 8
    ensures c[0] == s[0..8]
  {
  }

  lemma ShapeStep(s: seq<Bit>, t: seq<Bit>, c: seq<seq<Bit>>, d: seq<seq<Bit>>, k: nat)
    requires |s| > 8 && t == s[8..] && c == [s[..8]] + d && 0 < k < |c|
    requires k - 1 < |d| - 1 ==> |d[k - 1]| == 8
    requires k - 1 == |d| - 1 ==> |d[k - 1]| == if |t| % 8 == 0 then 8 else |t| % 8
    requires 8 * (k - 1) + |d[k - 1]| <= |t| && d[k - 1] == t[8 * (k - 1)..8 * (k - 1) + |d[k - 1]|]
    ensures k < |c| - 1 ==> |c[k]| == 8
    ensures k == |c| - 1 ==> |c[k]| == if |s| % 8 == 0 then 8 else |s| % 8
    ensures c[k] == s[8 * k..8 * k + |c[k]|]
  {
    assert c[k] == d[k - 1];
    assert |t| % 8 == |s| % 8;
  }

  /** Cutting at a multiple of eight: the groups of a + b are those of a followed by those of b. */
  lemma {:induction false} ChunksAppend(a: seq<Bit>, b: seq<Bit>)
    requires |a| % 8 == 0
    ensures Chunks(a + b) == Chunks(a) + Chunks(b)
    decreases |a|
  {
    if a == [] {
      assert a + b == b;
    } else if b == [] {
      assert a + b == a;
    } else {
      assert |a| >= 8;
      assert (a + b)[..8] == a[..8];
      assert (a + b)[8..] == a[8..] + b;
      ChunksAppend(a[8..], b);
      if |a| == 8 {
        assert a[8..] == [];
        assert a[..8] == a;
      }
    }
  }

  /** The list comprehension over the groups: each group's value as a character, zero-valued groups left out. */
  function DecodeGroups(groups: seq<seq<Bit>>): (r: string)
    requires forall k :: 0 <= k < |groups| ==> |groups[k]| <= 8
    ensures |r| <= |groups|
    ensures forall i :: 0 <= i < |r| ==> 1 <= r[i] as int < 256
  {
    if groups == [] then []
    else
      var v := BinValue(groups[0]);
      Pow2Monotone(|groups[0]|, 8);
      assert Pow2(8) == 256;
      (if v == 0 then [] else [v as char]) + DecodeGroups(groups[1..])
  }

  /** Decoding distributes over concatenation of groups: it works group by group. */
  lemma {:induction false} DecodeGroupsAppend(a: seq<seq<Bit>>, b: seq<seq<Bit>>)
    requires forall k :: 0 <= k < |a| ==> |a[k]| <= 8
    requires forall k :: 0 <= k < |b| ==> |b[k]| <= 8
    ensures DecodeGroups(a + b) == DecodeGroups(a) + DecodeGroups(b)
    decreases |a|
  {
    if a == [] {
      assert a + b == b;
    } else {
      assert (a + b)[1..] == a[1..] + b;
      DecodeGroupsAppend(a[1..], b);
    }
  }

  /** Dropping zero-valued groups is the only filtering: a group worth v > 0 becomes the character v, one worth 0 vanishes. */
  lemma DecodeOneGroup(g: seq<Bit>)
    requires |g| <= 8
    ensures BinValue(g) < 256
    ensures BinValue(g) == 0 ==> DecodeGroups([g]) == []
    ensures BinValue(g) != 0 ==> DecodeGroups([g]) == [BinValue(g) as char]
  {
    Pow2Monotone(|g|, 8);
    assert Pow2(8) == 256;
    assert [g][1..] == [];
  }

  /** `''.join(...)` over the groups of a bit string read back from an image. */
  function DecodeText(bits: seq<Bit>): (r: string)
    ensures forall i :: 0 <= i < |r| ==> 1 <= r[i] as int < 256
  {
    DecodeGroups(Chunks(bits))
  }

  /** The text with its NUL characters removed. */
  function WithoutNul(t: string): (r: string)
    ensures |r| <= |t|
    ensures forall i :: 0 <= i < |r| ==> r[i] != 0 as char
  {
    if t == [] then [] else (if t[0] == 0 as char then [] else [t[0]]) + WithoutNul(t[1..])
  }

  /** Text without NUL characters is left as it is by WithoutNul. */
  lemma {:induction false} WithoutNulNoNul(t: string)
    requires forall i :: 0 <= i < |t| ==> t[i] != 0 as char
    ensures WithoutNul(t) == t
  {
    if t != [] {
      WithoutNulNoNul(t[1..]);
      assert [t[0]] + t[1..] == t;
    }
  }

  /**
   Decoding the bit string of a text of 8-bit codes gives the text back with its NUL
   characters lost: a genuine zero character decodes to a zero-valued group and is dropped.
   */
  lemma {:induction false} DecodeEncode(t: string)
    requires IsByteText(t)
    ensures DecodeText(MessageToBits(t)) == WithoutNul(t)
  {
    if t != [] {
      var c := t[0];
      var head := Format08b(c as int);
      Format08bSpec(c as int);
      assert IsByteText(t[1..]);
      MessageToBitsLength(t[1..]);
      ChunksAppend(head, MessageToBits(t[1..]));
      assert Chunks(head) == [head];
      DecodeGroupsAppend([head], Chunks(MessageToBits(t[1..])));
      DecodeOneGroup(head);
      if c as int != 0 {
        assert (c as int) as char == c;
      }
      DecodeEncode(t[1..]);
    }
  }

  /** For text whose codes are all in 1..255, decoding its bit string returns the text exactly. */
  lemma DecodeEncodeRoundTrip(t: string)
    requires forall i :: 0 <= i < |t| ==> 1 <= t[i] as int < 256
    ensures DecodeText(MessageToBits(t)) == t
  {
    DecodeEncode(t);
    WithoutNulNoNul(t);
  }

  /** Bits that are all zero decode to no characters at all. */
  lemma {:induction false} DecodeZeros(s: seq<Bit>)
    requires forall i :: 0 <= i < |s| ==> s[i] == 0
    ensures DecodeText(s) == []
    decreases |s|
  {
    if s != [] {
      var head := if |s| <= 8 then s else s[..8];
      var tail := if |s| <= 8 then [] else s[8..];
      assert Chunks(s) == [head] + Chunks(tail);
      AllZerosValue(head);
      DecodeGroupsAppend([head], Chunks(tail));
      DecodeOneGroup(head);
      DecodeZeros(tail);
    }
  }

  /** The '=' padding: the text followed by '=' up to the next multiple of four characters. */
  function PadToQuad(m: string): (r: string)
    ensures |r| % 4 == 0
    ensures |m| <= |r| <= |m| + 3
    ensures r[..|m|] == m
    ensures forall i :: |m| <= i < |r| ==> r[i] == '='
  {
    m + seq((4 - |m| % 4) % 4, _ => '=')
  }

  /** Padding is the identity on text already a multiple of four long, and is idempotent. */
  lemma PadToQuadIdempotent(m: string)
    ensures |m| % 4 == 0 ==> PadToQuad(m) == m
    ensures PadToQuad(PadToQuad(m)) == PadToQuad(m)
  {
  }
}
