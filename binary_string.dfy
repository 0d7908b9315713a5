/** `Number.prototype.toString(2)` on a non-negative integer: base-2 digits,
    most significant first, with no leading zeros ("0" for zero). The
    directory decoder reads the status byte through this string, so its
    length depends on the byte's value. */
module BinaryString {

  function Pow2(k: nat): (r: nat)
    ensures r >= 1
  {
    if k == 0 then 1 else 2 * Pow2(k - 1)
  }

  /** Bit j of n, counting from the least significant bit 0. */
  function Bit(n: nat, j: nat): (b: nat)
    ensures b < 2
  {
    if j == 0 then n % 2 else Bit(n / 2, j - 1)
  }

  function Digit(b: nat): (c: char)
    requires b < 2
    ensures c == '0' || c == '1'
  {
    if b == 0 then '0' else '1'
  }

  function ToBinaryString(n: nat): (s: string)
    ensures 1 <= |s|
    ensures forall i :: 0 <= i < |s| ==> s[i] == '0' || s[i] == '1'
    ensures n > 0 ==> s[0] == '1'
    decreases n
  {
    if n < 2 then [Digit(n)] else ToBinaryString(n / 2) + [Digit(n % 2)]
  }

  /** The string has at most k digits exactly when n is below 2^k. */
  lemma {:induction false} BinaryLength(n: nat, k: nat)
    requires 1 <= k
    ensures n < Pow2(k) <==> |ToBinaryString(n)| <= k
    decreases n
  {
    if n >= 2 {
      if k == 1 {
        assert Pow2(1) == 2;
      } else {
        BinaryLength(n / 2, k - 1);
      }
    }
  }

  /** Reading the string from the right gives the bits of n. */
  lemma {:induction false} BinaryDigit(n: nat, j: nat)
    requires j < |ToBinaryString(n)|
    ensures ToBinaryString(n)[|ToBinaryString(n)| - 1 - j] == Digit(Bit(n, j))
    decreases n
  {
    if n >= 2 && j > 0 {
      BinaryDigit(n / 2, j - 1);
    }
  }

  /** A byte with its top bit set prints as exactly eight digits, bit 7 first. */
  lemma EightDigitByte(v: nat)
    requires 0x80 <= v < 0x100
    ensures |ToBinaryString(v)| == 8
    ensures forall i :: 0 <= i < 8 ==> ToBinaryString(v)[i] == Digit(Bit(v, 7 - i))
  {
    assert Pow2(7) == 0x80 && Pow2(8) == 0x100;
    BinaryLength(v, 7);
    BinaryLength(v, 8);
    forall i | 0 <= i < 8
      ensures ToBinaryString(v)[i] == Digit(Bit(v, 7 - i))
    {
      BinaryDigit(v, 7 - i);
    }
  }

  /** A value below 0x80 prints as at most seven digits. */
  lemma ShortByte(v: nat)
    requires v < 0x80
    ensures |ToBinaryString(v)| <= 7
  {
    assert Pow2(7) == 0x80;
    BinaryLength(v, 7);
  }

  /** The bits the status byte is read by, in terms of the byte's value. */
  lemma StatusBits(v: nat)
    requires 0x80 <= v < 0x100
    ensures Bit(v, 7) == 1
    ensures Bit(v, 6) == (if v % 0x80 >= 0x40 then 1 else 0)
    ensures 4 * Bit(v, 2) + 2 * Bit(v, 1) + Bit(v, 0) == v % 8
  {
    HighBits(v);
    LowBits(v);
  }

  /** Bits 7 and 6: v halved six and seven times. */
  lemma HighBits(v: nat)
    requires 0x80 <= v < 0x100
    ensures Bit(v, 7) == 1
    ensures Bit(v, 6) == (if v % 0x80 >= 0x40 then 1 else 0)
  {
    var h1 := v / 2;
    var h2 := h1 / 2;
    var h3 := h2 / 2;
    var h4 := h3 / 2;
    var h5 := h4 / 2;
    var h6 := h5 / 2;
    assert 0x40 <= h1 < 0x80 && 0x20 <= h2 < 0x40 && 0x10 <= h3 < 0x20;
    assert 0x08 <= h4 < 0x10 && 0x04 <= h5 < 0x08 && 0x02 <= h6 < 0x04;
    assert (h6 == 3) == (h5 >= 6) == (h4 >= 12) == (h3 >= 24) == (h2 >= 48) == (h1 >= 96) == (v >= 0xC0);
    assert Bit(v, 6) == Bit(h1, 5) == Bit(h2, 4) == Bit(h3, 3) == Bit(h4, 2) == Bit(h5, 1) == h6 % 2;
    assert Bit(v, 7) == Bit(h1, 6) == Bit(h2, 5) == Bit(h3, 4) == Bit(h4, 3) == Bit(h5, 2) == Bit(h6, 1) == (h6 / 2) % 2;
  }

  /** Bits 2, 1 and 0 spell out v mod 8. */
  lemma LowBits(v: nat)
    ensures 4 * Bit(v, 2) + 2 * Bit(v, 1) + Bit(v, 0) == v % 8
  {
    var h1 := v / 2;
    var h2 := h1 / 2;
    var h3 := h2 / 2;
    var b0, b1, b2 := v % 2, h1 % 2, h2 % 2;
    assert v == 2 * h1 + b0 && h1 == 2 * h2 + b1 && h2 == 2 * h3 + b2;
    RemainderOfEight(v, h3, 4 * b2 + 2 * b1 + b0);
    assert Bit(v, 1) == b1;
    assert Bit(v, 2) == Bit(h1, 1) == b2;
  }

  lemma RemainderOfEight(v: nat, q: nat, r: nat)
    requires r < 8 && v == 8 * q + r
    ensures v % 8 == r
  {
  }
}
