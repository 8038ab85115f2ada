/**
 * Java's 32-bit `int` arithmetic as used by the frame decoder: the widening
 * cast of a signed `byte`, the bitwise `&` and `|` and the left shift `<<`.
 * A Java int is an ordinary integer in [-2^31, 2^31); its bit pattern is the
 * 32-bit two's complement representation, a natural number below 2^32.
 */
module JavaInt {

  /** Java's `byte`: a signed 8-bit value. */
  newtype Int8 = x: int | -128 <= x < 128

  const Modulus32: nat := 0x1_0000_0000

  function Pow2(k: nat): (r: nat)
    ensures r >= 1
  {
    if k == 0 then 1 else 2 * Pow2(k - 1)
  }

  /** The two's complement bit pattern of a Java int value. */
  function Bits(v: int): (p: nat)
    ensures p < Modulus32
  {
    v % Modulus32
  }

  /** The Java int value of a 32-bit pattern. */
  function FromBits(p: nat): (v: int)
    requires p < Modulus32
    ensures -0x8000_0000 <= v < 0x8000_0000
    ensures Bits(v) == p
  {
    if p < 0x8000_0000 then p else p - Modulus32
  }

  /** Bitwise and of two bit patterns. */
  function BitAnd(a: nat, b: nat): (r: nat)
    ensures r <= a && r <= b
    decreases a
  {
    if a == 0 || b == 0 then 0
    else 2 * BitAnd(a / 2, b / 2) + (if a % 2 == 1 && b % 2 == 1 then 1 else 0)
  }

  /** Bitwise or of two bit patterns. */
  function BitOr(a: nat, b: nat): nat
    decreases a
  {
    if a == 0 then b
    else if b == 0 then a
    else 2 * BitOr(a / 2, b / 2) + (if a % 2 == 1 || b % 2 == 1 then 1 else 0)
  }

  /** The values of Java's `int`: [-2^31, 2^31). */
  predicate IsInt32(v: int)
  {
    -0x8000_0000 <= v < 0x8000_0000
  }

  /**
   * Java `a & b` on int operands. The result is again an int, and a
   * non-negative mask bounds it: `m & v` lies in 0..m.
   */
  function And(a: int, b: int): (r: int)
    requires IsInt32(a) && IsInt32(b)
    ensures IsInt32(r)
    ensures 0 <= a ==> 0 <= r <= a
  {
    BitsRoundTrip(a);
    FromBits(BitAnd(Bits(a), Bits(b)))
  }

  /** Java `a | b` on int operands. The result is again an int, and 0 is the identity on either side. */
  function Or(a: int, b: int): (r: int)
    requires IsInt32(a) && IsInt32(b)
    ensures IsInt32(r)
    ensures b == 0 ==> r == a
    ensures a == 0 ==> r == b
  {
    BitsRoundTrip(a);
    BitsRoundTrip(b);
    FromBits(BitOr(Bits(a), Bits(b)) % Modulus32)
  }

  /**
   * Java `a << n` on an int: the result wraps to an int, and only the low five
   * bits of `n` count, so a shift by a multiple of 32 leaves `a` unchanged.
   */
  function ShiftLeft(a: int, n: int): (r: int)
    requires IsInt32(a)
    ensures IsInt32(r)
    ensures n % 32 == 0 ==> r == a
  {
    BitsRoundTrip(a);
    assert n % 32 == 0 ==> Pow2(n % 32) == 1;
    FromBits(Bits(a) * Pow2(n % 32) % Modulus32)
  }

  /** An int is recovered from its bit pattern. */
  lemma BitsRoundTrip(v: int)
    requires IsInt32(v)
    ensures FromBits(Bits(v)) == v
    ensures Bits(v) % Modulus32 == Bits(v)
  {
    if v < 0 {
      ModUnique(v, Modulus32, -1, v + Modulus32);
    } else {
      BitsOfSmall(v);
    }
    ModUnique(Bits(v), Modulus32, 0, Bits(v));
  }

  /** The unsigned reading of a signed byte. */
  function Unsigned(b: Int8): (u: nat)
    ensures u < 256
  {
    if b < 0 then b as int + 256 else b as int
  }

  /** Masking with 2^k - 1 keeps the low k bits. */
  lemma {:induction false} BitAndLowMask(k: nat, a: nat)
    ensures BitAnd(Pow2(k) - 1, a) == a % Pow2(k)
  {
    if k == 0 {
      assert Pow2(0) == 1;
    } else if a == 0 {
    } else {
      var q := Pow2(k - 1);
      var m := Pow2(k) - 1;
      assert m == 2 * (q - 1) + 1;
      assert m / 2 == q - 1 && m % 2 == 1;
      BitAndLowMask(k - 1, a / 2);
      assert BitAnd(m, a) == 2 * ((a / 2) % q) + a % 2;
      ModTwice(a, q);
    }
  }

  lemma ModTwice(a: nat, q: nat)
    requires q >= 1
    ensures a % (2 * q) == 2 * ((a / 2) % q) + a % 2
  {
    var h := a / 2;
    var t := h / q;
    var r := 2 * (h % q) + a % 2;
    assert h == q * t + h % q;
    assert a == 2 * h + a % 2;
    assert a == (2 * q) * t + r;
    ModUnique(a, 2 * q, t, r);
  }

  lemma ModUnique(a: int, d: int, t: int, r: int)
    requires d > 0 && 0 <= r < d && a == d * t + r
    ensures a % d == r
  {
    var t', r' := a / d, a % d;
    assert d * t + r == d * t' + r';
    if t > t' {
      MulStep(d, t - t');
    } else if t < t' {
      MulStep(d, t' - t);
    }
  }

  lemma MulStep(d: int, k: int)
    requires d > 0 && k >= 1
    ensures d * k >= d
  {
    assert d * k == d * (k - 1) + d;
  }

  /** Or-ing a value below 2^k with a multiple of 2^k is addition: the bits do not overlap. */
  lemma {:induction false} BitOrDisjoint(k: nat, x: nat, y: nat)
    requires x < Pow2(k)
    ensures BitOr(x, y * Pow2(k)) == x + y * Pow2(k)
  {
    if x == 0 || y == 0 {
    } else {
      assert k > 0;
      var z := y * Pow2(k);
      assert z == 2 * (y * Pow2(k - 1));
      assert z / 2 == y * Pow2(k - 1) && z % 2 == 0;
      BitOrDisjoint(k - 1, x / 2, y);
    }
  }

  /** A value that already fits in 32 bits is its own bit pattern. */
  lemma BitsOfSmall(v: int)
    requires 0 <= v < Modulus32
    ensures Bits(v) == v
  {
    ModUnique(v, Modulus32, 0, v);
  }

  /** Java `0xFF & v` is the low byte of `v`, for every int `v`, negative ones included. */
  lemma AndLowByte(v: int)
    requires IsInt32(v)
    ensures And(0xFF, v) == v % 256
  {
    var p := Bits(v);
    var t := v / Modulus32;
    assert v == Modulus32 * t + p;
    assert p == 256 * (p / 256) + p % 256;
    assert v == 256 * (0x100_0000 * t + p / 256) + p % 256;
    ModUnique(v, 256, 0x100_0000 * t + p / 256, p % 256);
    BitsOfSmall(0xFF);
    assert Pow2(8) == 256;
    BitAndLowMask(8, p);
  }

  /** Java `h << 8` for a value below 256: nothing reaches the sign bit. */
  lemma ShiftLeftByte(h: int)
    requires 0 <= h < 256
    ensures ShiftLeft(h, 8) == h * 256
  {
    BitsOfSmall(h);
    ModUnique(8, 32, 0, 8);
    assert Pow2(8) == 256;
    ModUnique(h * 256, Modulus32, 0, h * 256);
  }

  /** Java `l | h * 256` for a low byte `l`: the two operands share no bit. */
  lemma OrLowByte(l: int, h: int)
    requires 0 <= l < 256 && 0 <= h < 256
    ensures Or(l, h * 256) == l + h * 256
  {
    var y := h * 256;
    var sum := l + y;
    BitsOfSmall(l);
    BitsOfSmall(y);
    assert Pow2(8) == 256;
    BitOrDisjoint(8, l, h);
    assert BitOr(Bits(l), Bits(y)) == sum;
    ModUnique(sum, Modulus32, 0, sum);
    assert Or(l, y) == FromBits(sum);
  }

  /** The quotient is fixed by any decomposition with a remainder in range. */
  lemma DivUnique(a: int, d: int, t: int, r: int)
    requires d > 0 && 0 <= r < d && a == d * t + r
    ensures a / d == t
  {
    ModUnique(a, d, t, r);
  }
}
