/** Place-relative 31-bit offsets ("prel31"), as used by the index table entries of
    section 6 of the Exception Handling ABI for the ARM Architecture: a 31-bit two's
    complement offset added to the address of the word that holds it, wrapped to 32 bits. */
module Prel31 {

  const TwoPow32: int := 0x1_0000_0000

  function Pow2(n: nat): (r: nat)
    ensures r >= 1
  {
    if n == 0 then 1 else 2 * Pow2(n - 1)
  }

  /** `c_uint(x).value`: reduction to an unsigned 32-bit value. */
  function ToU32(x: int): (r: int)
    ensures 0 <= r < TwoPow32
    ensures (x - r) % TwoPow32 == 0
  {
    x % TwoPow32
  }

  /** `sign_extend(value, bits)`: `(value & (sign_bit - 1)) - (value & sign_bit)` with
      `sign_bit = 1 << (bits - 1)`. */
  function SignExtend(value: int, bits: nat): (r: int)
    requires bits >= 1
    ensures -(Pow2(bits - 1) as int) <= r < Pow2(bits - 1)
  {
    SignExtendAt(value, Pow2(bits - 1))
  }

  /** The body of `sign_extend` for a given `sign_bit`. On Python's integers
      `value & (sign_bit - 1)` is `value` modulo `sign_bit`, and `value & sign_bit` is
      `sign_bit` exactly when that bit of `value` is set. */
  function SignExtendAt(value: int, signBit: nat): (r: int)
    requires signBit >= 1
    ensures -(signBit as int) <= r < signBit
  {
    value % signBit - (if (value / signBit) % 2 == 1 then signBit else 0)
  }

  /** `1 << 30`, the sign bit of a prel31 field. */
  const Prel31SignBit: nat := 0x4000_0000

  /** `prel31_to_addr(ptr, refptr)`: the absolute address a prel31 field designates.
      `sign_extend(ptr, 31)` is written with its sign bit spelled out (see
      `Prel31ToAddrIsSignExtend`). */
  function Prel31ToAddr(ptr: int, refptr: int): (r: int)
    ensures 0 <= r < TwoPow32
  {
    ToU32(refptr + SignExtendAt(ptr, Prel31SignBit))
  }

  /** `prel31_to_addr` is `c_uint(refptr + sign_extend(ptr, 31))`. */
  lemma Prel31ToAddrIsSignExtend(ptr: int, refptr: int)
    ensures Prel31ToAddr(ptr, refptr) == ToU32(refptr + SignExtend(ptr, 31))
  {
    Pow2Thirty();
  }

  lemma {:induction false} Pow2Succ(n: nat)
    ensures Pow2(n + 1) == 2 * Pow2(n)
  {
  }

  lemma MulAtLeast(d: int, m: int)
    requires d >= 1 && m > 0
    ensures d * m >= m
  {
  }

  /** Only a zero multiple of `m` lies strictly between `-m` and `m`. */
  lemma SmallMultipleIsZero(d: int, m: int)
    requires m > 0
    requires -m < d * m < m
    ensures d == 0
  {
    if d >= 1 {
      MulAtLeast(d, m);
      assert false;
    } else if d <= -1 {
      MulAtLeast(-d, m);
      assert false;
    }
  }

  lemma MulModZero(q: int, m: int)
    requires m > 0
    ensures (q * m) % m == 0
  {
    var r := (q * m) % m;
    var d := (q * m) / m;
    assert q * m == d * m + r;
    assert (q - d) * m == q * m - d * m;
    SmallMultipleIsZero(q - d, m);
  }

  /** The arithmetic behind `SignExtendCongruent`, for any positive sign bit `s`. */
  lemma SplitSignBit(value: int, s: int)
    requires s > 0
    ensures ((value % s - (if (value / s) % 2 == 1 then s else 0)) - value) % (2 * s) == 0
  {
    var q := value / s;
    var m := value % s;
    var bit := q % 2;
    var q2 := q / 2;
    assert value == q * s + m;
    assert q == 2 * q2 + bit;
    var r := m - bit * s;
    assert r == value % s - (if (value / s) % 2 == 1 then s else 0);
    assert q * s == 2 * q2 * s + bit * s;
    assert r - value == -(2 * q2 * s + 2 * bit * s);
    assert -(2 * q2 * s + 2 * bit * s) == (-(q2 + bit)) * (2 * s);
    MulModZero(-(q2 + bit), 2 * s);
  }

  /** Sign extension keeps the value modulo 2^bits. */
  lemma SignExtendCongruent(value: int, bits: nat)
    requires bits >= 1
    ensures (SignExtend(value, bits) - value) % Pow2(bits) == 0
  {
    var s: int := Pow2(bits - 1);
    var n: int := Pow2(bits);
    assert n == 2 * s by { Pow2Succ(bits - 1); }
    var r := value % s - (if (value / s) % 2 == 1 then s else 0);
    assert SignExtend(value, bits) == r;
    SplitSignBit(value, s);
    assert (r - value) % (2 * s) == 0;
  }

  /** A value in the lower half of the field is its own sign extension. */
  lemma SignExtendSmall(value: int, bits: nat)
    requires bits >= 1
    requires 0 <= value < Pow2(bits - 1)
    ensures SignExtend(value, bits) == value
  {
    var s: int := Pow2(bits - 1);
    var q := value / s;
    var r := value % s;
    assert value == q * s + r;
    SmallMultipleIsZero(q, s);
    assert SignExtend(value, bits) == SignExtendAt(value, s);
  }

  /** The sign extension is the only value of the signed range that agrees with `value`
      modulo 2^bits, so the function is the two's complement reading of the field. */
  lemma SignExtendUnique(value: int, bits: nat, x: int)
    requires bits >= 1
    requires -(Pow2(bits - 1) as int) <= x < Pow2(bits - 1)
    requires (x - value) % Pow2(bits) == 0
    ensures x == SignExtend(value, bits)
  {
    var r := SignExtend(value, bits);
    var n: int := Pow2(bits);
    Pow2Succ(bits - 1);
    SignExtendCongruent(value, bits);
    CongruentClose(x, r, value, n);
  }

  /** Two values congruent to `v` modulo `n` and less than `n` apart are equal. */
  lemma CongruentClose(x: int, r: int, v: int, n: int)
    requires n > 0
    requires (x - v) % n == 0 && (r - v) % n == 0
    requires -n < x - r < n
    ensures x == r
  {
    var a := (x - v) / n;
    var b := (r - v) / n;
    assert x - v == a * n;
    assert r - v == b * n;
    assert (a - b) * n == a * n - b * n;
    SmallMultipleIsZero(a - b, n);
  }

  /** For a field with bit 31 clear, bit 30 is the sign: the offset is the field itself
      when bit 30 is clear and the field minus 2^31 when it is set. */
  lemma Prel31Offset(ptr: int)
    requires 0 <= ptr < 0x8000_0000
    ensures SignExtend(ptr, 31) == if ptr < 0x4000_0000 then ptr else ptr - 0x8000_0000
  {
    Pow2Thirty();
  }

  lemma Pow2Thirty()
    ensures Pow2(30) == Prel31SignBit
  {
    assert Pow2(10) == 1024;
    assert Pow2(20) == 1024 * 1024 by { Pow2Mul(10, 10); }
    Pow2Mul(20, 10);
  }

  lemma {:induction false} Pow2Mul(a: nat, b: nat)
    ensures Pow2(a + b) == Pow2(a) * Pow2(b)
  {
    if b > 0 {
      Pow2Mul(a, b - 1);
      assert Pow2(a + b) == 2 * Pow2(a + b - 1);
    }
  }

  /** The resolved address is the reference plus the signed offset, modulo 2^32; with no
      wrap-around it is exactly that sum: at or after `refptr` when bit 30 is clear,
      before it when bit 30 is set. */
  lemma Prel31ToAddrNoWrap(ptr: int, refptr: int)
    requires 0 <= ptr < 0x8000_0000
    requires 0 <= refptr + SignExtend(ptr, 31) < TwoPow32
    ensures Prel31ToAddr(ptr, refptr) == refptr + SignExtend(ptr, 31)
    ensures ptr < 0x4000_0000 ==> Prel31ToAddr(ptr, refptr) >= refptr
    ensures ptr >= 0x4000_0000 ==> Prel31ToAddr(ptr, refptr) < refptr
  {
    Prel31Offset(ptr);
    Prel31ToAddrIsSignExtend(ptr, refptr);
  }
}
