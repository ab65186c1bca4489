/**
 Binary numerals as the steganography codec writes and reads them: the
 digit strings of `format(n, '08b')` and `int(s, 2)`, and the two bitwise
 operations it applies to an 8-bit colour channel.

 A digit string is a `seq<Bit>`; a channel is an integer in 0..255. The
 channel operations are written arithmetically, and lemmas over `bv8` show
 that they are the codec's `(c & 0xFE) | bit` and `c & 1`.
 */
module Binary {

  /** One binary digit, the '0' or '1' character of a digit string. */
  type Bit = b: int | 0 <= b <= 1

  /** 2 to the power k. */
  function Pow2(k: nat): (r: nat)
    ensures r >= 1
  {
    if k == 0 then 1 else 2 * Pow2(k - 1)
  }

  lemma {:induction false} Pow2Monotone(j: nat, k: nat)
    requires j <= k
    ensures Pow2(j) <= Pow2(k)
    decreases k
  {
    if j < k {
      Pow2Monotone(j, k - 1);
    }
  }

  /** The value of a digit string read most significant digit first, as `int(s, 2)` reads it. */
  function BinValue(s: seq<Bit>): (r: nat)
    ensures r < Pow2(|s|)
  {
    if s == [] then 0 else 2 * BinValue(s[..|s| - 1]) + s[|s| - 1]
  }

  /** The shortest binary numeral of n, as `format(n, 'b')` writes it ("0" for zero). */
  function Digits(n: nat): (r: seq<Bit>)
    ensures |r| >= 1
    ensures BinValue(r) == n
    ensures n > 0 ==> r[0] == 1
    decreases n
  {
    if n < 2 then [n]
    else
      var d := Digits(n / 2) + [n % 2];
      assert d[..|d| - 1] == Digits(n / 2);
      d
  }

  /** k zero digits. */
  function Zeros(k: nat): (r: seq<Bit>)
    ensures |r| == k
    ensures forall i :: 0 <= i < k ==> r[i] == 0
  {
    seq(k, i => 0)
  }

  /** Leading zero digits do not change the value of a numeral. */
  lemma {:induction false} LeadingZeros(z: seq<Bit>, s: seq<Bit>)
    requires forall i :: 0 <= i < |z| ==> z[i] == 0
    ensures BinValue(z + s) == BinValue(s)
    decreases |s|, |z|
  {
    if s == [] {
      assert z + s == z;
      if z != [] {
        LeadingZeros(z[..|z| - 1], []);
        assert z[..|z| - 1] + [] == z[..|z| - 1];
      }
    } else {
      assert (z + s)[..|z + s| - 1] == z + s[..|s| - 1];
      LeadingZeros(z, s[..|s| - 1]);
    }
  }

  /** A numeral made only of zero digits is worth 0. */
  lemma AllZerosValue(z: seq<Bit>)
    requires forall i :: 0 <= i < |z| ==> z[i] == 0
    ensures BinValue(z) == 0
  {
    LeadingZeros(z, []);
    assert z + [] == z;
  }

  /** The shortest numeral of n fits in w digits exactly when n is below 2^w. */
  lemma {:induction false} DigitsWidth(n: nat, w: nat)
    requires w >= 1
    ensures |Digits(n)| <= w <==> n < Pow2(w)
    decreases n
  {
    if n >= 2 {
      if w == 1 {
        assert |Digits(n / 2)| >= 1;
      } else {
        DigitsWidth(n / 2, w - 1);
      }
    }
  }

  /** `format(n, '08b')`: the binary numeral of n, left-padded with zeros to at least eight digits. */
  function Format08b(n: nat): seq<Bit>
  {
    var d := Digits(n);
    if |d| >= 8 then d else Zeros(8 - |d|) + d
  }

  /**
   `format(n, '08b')` has at least eight digits, exactly eight when n is below 256
   ('08b' is only a minimum width), and reads back as n.
   */
  lemma Format08bSpec(n: nat)
    ensures |Format08b(n)| >= 8
    ensures |Format08b(n)| == 8 <==> n < 256
    ensures BinValue(Format08b(n)) == n
    ensures n >= 256 ==> Format08b(n) == Digits(n)
  {
    var d := Digits(n);
    DigitsWidth(n, 8);
    assert Pow2(8) == 256;
    if |d| < 8 {
      LeadingZeros(Zeros(8 - |d|), d);
    }
  }

  /** Euclidean division by 2p is division by 2 followed by division by p. */
  lemma DivTwice(x: nat, p: nat)
    requires p > 0
    ensures x / (2 * p) == x / 2 / p
  {
    var q := x / 2 / p;
    var r := x / 2 % p;
    assert x / 2 == q * p + r;
    assert x == (2 * p) * q + (2 * r + x % 2);
    assert 0 <= 2 * r + x % 2 < 2 * p;
    DivUnique(x, 2 * p, q, 2 * r + x % 2);
  }

  lemma DivUnique(x: int, d: int, q: int, r: int)
    requires d > 0 && 0 <= r < d && x == d * q + r
    ensures x / d == q
  {
    var k := x / d - q;
    assert d * k == r - x % d;
    MulSmall(d, k);
  }

  /** A multiple of d strictly between -d and d is zero. */
  lemma MulSmall(d: int, k: int)
    requires d > 0 && -d < d * k < d
    ensures k == 0
  {
    if k > 0 {
      MulAtLeast(d, k);
    } else if k < 0 {
      MulAtLeast(d, -k);
    }
  }

  lemma MulAtLeast(d: int, k: int)
    requires d > 0 && k >= 1
    ensures d * k >= d
  {
  }

  /** Digit j of a numeral is bit number |s|-1-j of its value: the numeral is most significant digit first. */
  lemma {:induction false} DigitAt(s: seq<Bit>, j: nat)
    requires j < |s|
    ensures s[j] == BinValue(s) / Pow2(|s| - 1 - j) % 2
    decreases |s|
  {
    var init := s[..|s| - 1];
    assert BinValue(s) == 2 * BinValue(init) + s[|s| - 1];
    if j < |s| - 1 {
      DigitAt(init, j);
      var p := Pow2(|init| - 1 - j);
      assert Pow2(|s| - 1 - j) == 2 * p;
      DivTwice(BinValue(s), p);
      assert BinValue(s) / 2 == BinValue(init);
      assert s[j] == init[j];
    }
  }

  /** For a code below 256, digit j of `format(n, '08b')` is bit 7-j of n. */
  lemma Format08bDigit(n: nat, j: nat)
    requires n < 256 && j < 8
    ensures |Format08b(n)| == 8
    ensures Format08b(n)[j] == n / Pow2(7 - j) % 2
  {
    Format08bSpec(n);
    DigitAt(Format08b(n), j);
  }

  /** `format(n, '08b')` written out digit by digit for a code below 256. */
  lemma Format08bExplicit(n: nat)
    requires n < 256
    ensures Format08b(n)
         == [n / 128 % 2, n / 64 % 2, n / 32 % 2, n / 16 % 2, n / 8 % 2, n / 4 % 2, n / 2 % 2, n % 2]
  {
    var s := Format08b(n);
    Format08bSpec(n);
    assert s[0] == n / 128 % 2 by { Format08bDigit(n, 0); assert Pow2(7) == 128; }
    assert s[1] == n / 64 % 2 by { Format08bDigit(n, 1); assert Pow2(6) == 64; }
    assert s[2] == n / 32 % 2 by { Format08bDigit(n, 2); assert Pow2(5) == 32; }
    assert s[3] == n / 16 % 2 by { Format08bDigit(n, 3); assert Pow2(4) == 16; }
    assert s[4] == n / 8 % 2 by { Format08bDigit(n, 4); assert Pow2(3) == 8; }
    assert s[5] == n / 4 % 2 by { Format08bDigit(n, 5); assert Pow2(2) == 4; }
    assert s[6] == n / 2 % 2 by { Format08bDigit(n, 6); assert Pow2(1) == 2; }
    assert s[7] == n % 2 by { Format08bDigit(n, 7); }
  }

  /** An 8-bit colour channel value. */
  type Byte = n: int | 0 <= n < 256

  /** `c & 0xFE | bit` on the 8-bit pattern of a channel. */
  function MaskOr(c: bv8, bit: Bit): bv8
  {
    (c & 0xFE) | (bit as bv8)
  }

  /** `c & 1` on the 8-bit pattern of a channel. */
  function AndOne(c: bv8): bv8
  {
    c & 1
  }

  /**
   `(c & 0xFE) | bit`: the channel with its least significant bit replaced by bit.
   The upper seven bits are kept and the result is again a channel value. It is
   written arithmetically; SetLsbIsMaskOr shows it is the bitwise expression.
   */
  function SetLsb(c: Byte, bit: Bit): (r: Byte)
    ensures r % 2 == bit
    ensures r / 2 == c / 2
  {
    c - c % 2 + bit
  }

  /** SetLsb is `(c & 0xFE) | bit` computed on the channel's 8-bit pattern x. */
  lemma SetLsbIsMaskOr(x: bv8, bit: Bit)
    ensures MaskOr(x, bit) as int == SetLsb(x as int, bit)
  {
    AndOneValue(x);
    ClearLowBit(x);
    var y := x & 0xFE;
    if bit == 1 {
      assert y | 1 == y + 1;
    } else {
      assert y | 0 == y;
    }
  }

  lemma ClearLowBit(x: bv8)
    ensures (x & 0xFE) as int == x as int - (x & 1) as int
  {
    assert x & 0xFE == x - (x & 1);
  }

  lemma AndOneValue(x: bv8)
    ensures (x & 1) as int == x as int % 2
  {
  }

  /** `c & 1`: the least significant bit of a channel, written arithmetically. */
  function Lsb(c: Byte): (r: Bit)
  {
    c % 2
  }

  /** Lsb is `c & 1` computed on the channel's 8-bit pattern x. */
  lemma LsbIsAndOne(x: bv8)
    ensures AndOne(x) as int == Lsb(x as int)
  {
    AndOneValue(x);
  }

  /** The bit SetLsb writes is the bit Lsb reads back. */
  lemma LsbOfSetLsb(c: Byte, bit: Bit)
    ensures Lsb(SetLsb(c, bit)) == bit
  {
  }
}
