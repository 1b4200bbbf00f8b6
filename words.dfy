/**
 * Machine words as the C sources use them: fixed-width unsigned and signed
 * integers, the conversions (casts) between them, C's truncating division and
 * remainder, and the bitwise operators, all defined on mathematical integers.
 */
module Words {

  const TWO8: int := 0x100
  const TWO16: int := 0x1_0000
  const TWO31: int := 0x8000_0000
  const TWO32: int := 0x1_0000_0000
  const TWO63: int := 0x8000_0000_0000_0000
  const TWO64: int := 0x1_0000_0000_0000_0000
  const TWO127: int := 0x8000_0000_0000_0000_0000_0000_0000_0000
  const TWO128: int := 0x1_0000_0000_0000_0000_0000_0000_0000_0000

  type u8 = x: int | 0 <= x < 0x100
  type u16 = x: int | 0 <= x < 0x1_0000
  type u32 = x: int | 0 <= x < 0x1_0000_0000
  type u64 = x: int | 0 <= x < 0x1_0000_0000_0000_0000
  type u128 = x: int | 0 <= x < 0x1_0000_0000_0000_0000_0000_0000_0000_0000
  type i32 = x: int | -0x8000_0000 <= x < 0x8000_0000
  type i64 = x: int | -0x8000_0000_0000_0000 <= x < 0x8000_0000_0000_0000
  type i128 = x: int | -0x8000_0000_0000_0000_0000_0000_0000_0000 <= x < 0x8000_0000_0000_0000_0000_0000_0000_0000

  /** C truth values: a relational operator yields 1 or 0. */
  function B2I(b: bool): int { if b then 1 else 0 }

  function Abs(x: int): nat { if x < 0 then -x else x }

  // ---------------------------------------------------------------------------
  // Congruence modulo m and the wrap-around conversions
  // ---------------------------------------------------------------------------

  /** a and b are congruent modulo m. (The `decreases` clause only keeps the verifier from unfolding Cong for every literal modulus.) */
  predicate Cong(a: int, b: int, m: int)
    requires m > 0
    decreases a, b
  {
    (a - b) % m == 0
  }

  lemma MulIsCong(a: int, b: int, k: int, m: int)
    requires m > 0
    requires a - b == k * m
    ensures Cong(a, b, m)
  {
    DivModUnique(a - b, m, k, 0);
  }

  // Small facts of nonlinear arithmetic, stated once so that larger proofs can cite them.

  lemma MulSign(k: int, m: int)
    requires m >= 0
    ensures k >= 1 ==> k * m >= m
    ensures k <= -1 ==> k * m <= -m
    ensures k >= 0 ==> k * m >= 0
  {
  }

  lemma Distrib(x: int, y: int, b: int)
    ensures (x - y) * b == x * b - y * b
    ensures (x + y) * b == x * b + y * b
  {
  }

  lemma MulNeg(x: int, y: int)
    ensures (-x) * y == -(x * y) && x * (-y) == -(x * y)
  {
  }

  /** The sign of a product. */
  lemma ProductSign(a: int, b: int)
    ensures a * b > 0 <==> (a > 0 && b > 0) || (a < 0 && b < 0)
    ensures a * b < 0 <==> (a > 0 && b < 0) || (a < 0 && b > 0)
  {
    MulNeg(a, b);
    MulNeg(-a, b);
    if a > 0 { MulSign(b, a); MulSign(-b, a); }
    if a < 0 { MulSign(b, -a); MulSign(-b, -a); }
  }

  /** Multiplying both sides of `a <= b` by a non-negative factor. */
  lemma MulLe(a: int, b: int, c: int)
    requires a <= b && c >= 0
    ensures a * c <= b * c
  {
    Distrib(b, a, c);
    MulSign(b - a, c);
  }

  /** Operands bounded by b in absolute value give a product bounded by b * b. */
  lemma ProductBound(x: int, y: int, b: int)
    requires -b <= x <= b && -b <= y <= b
    ensures -(b * b) <= x * y <= b * b
  {
    MulLe(Abs(x), b, Abs(y));
    MulLe(Abs(y), b, b);
    MulNeg(x, y);
    MulNeg(x, -y);
    assert x * y == Abs(x) * Abs(y) || x * y == -(Abs(x) * Abs(y));
  }

  lemma DivModUnique(a: int, b: int, q: int, r: int)
    requires b > 0 && 0 <= r < b && a == q * b + r
    ensures a / b == q && a % b == r
  {
    var q0 := a / b;
    var r0 := a % b;
    assert a == q0 * b + r0;
    Distrib(q, q0, b);
    MulSign(q - q0, b);
  }

  lemma DivBounds(x: int, d: int)
    requires x >= 0 && d > 0
    ensures (x / d) * d <= x < (x / d + 1) * d
    ensures 0 <= x / d <= x
  {
    var q := x / d;
    assert x == q * d + x % d;
    Distrib(q, -1, d);
    MulSign(q, d);
    MulSign(d - 1, q);
    assert q * d == (d - 1) * q + q;
  }

  lemma CongWitness(a: int, b: int, m: int) returns (k: int)
    requires m > 0
    requires Cong(a, b, m)
    ensures a - b == k * m
  {
    k := (a - b) / m;
  }

  lemma CongMod(a: int, m: int)
    requires m > 0
    ensures Cong(a % m, a, m)
  {
    MulIsCong(a % m, a, -(a / m), m);
  }

  lemma CongRefl(a: int, m: int)
    requires m > 0
    ensures Cong(a, a, m)
  {
  }

  lemma CongSym(a: int, b: int, m: int)
    requires m > 0
    requires Cong(a, b, m)
    ensures Cong(b, a, m)
  {
    var k := CongWitness(a, b, m);
    MulIsCong(b, a, -k, m);
  }

  lemma CongTrans(a: int, b: int, c: int, m: int)
    requires m > 0
    requires Cong(a, b, m) && Cong(b, c, m)
    ensures Cong(a, c, m)
  {
    var k1 := CongWitness(a, b, m);
    var k2 := CongWitness(b, c, m);
    MulIsCong(a, c, k1 + k2, m);
  }

  lemma CongAdd(a: int, b: int, c: int, d: int, m: int)
    requires m > 0
    requires Cong(a, b, m) && Cong(c, d, m)
    ensures Cong(a + c, b + d, m)
  {
    var k1 := CongWitness(a, b, m);
    var k2 := CongWitness(c, d, m);
    MulIsCong(a + c, b + d, k1 + k2, m);
  }

  lemma CongSub(a: int, b: int, c: int, d: int, m: int)
    requires m > 0
    requires Cong(a, b, m) && Cong(c, d, m)
    ensures Cong(a - c, b - d, m)
  {
    var k1 := CongWitness(a, b, m);
    var k2 := CongWitness(c, d, m);
    MulIsCong(a - c, b - d, k1 - k2, m);
  }

  lemma CongMul(a: int, b: int, c: int, d: int, m: int)
    requires m > 0
    requires Cong(a, b, m) && Cong(c, d, m)
    ensures Cong(a * c, b * d, m)
  {
    var k1 := CongWitness(a, b, m);
    var k2 := CongWitness(c, d, m);
    assert a * c - b * d == (k1 * c + b * k2) * m by {
      assert a == b + k1 * m;
      assert c == d + k2 * m;
      calc {
        a * c - b * d;
        (b + k1 * m) * c - b * d;
        b * c + k1 * m * c - b * d;
        { assert c == d + k2 * m; }
        b * (d + k2 * m) + k1 * m * c - b * d;
        b * k2 * m + k1 * m * c;
        (k1 * c + b * k2) * m;
      }
    }
    MulIsCong(a * c, b * d, k1 * c + b * k2, m);
  }

  /** Two representatives of one residue class that lie in the same window of width m are equal. */
  lemma CongWindow(w: int, v: int, lo: int, m: int)
    requires m > 0
    requires lo <= w < lo + m && lo <= v < lo + m
    requires Cong(w, v, m)
    ensures w == v
  {
    var k := CongWitness(w, v, m);
    MulSign(k, m);
  }

  /** Two values of one window of width m that are congruent to the same v are equal. */
  lemma CongSame(p: int, q: int, v: int, lo: int, m: int)
    requires m > 0
    requires lo <= p < lo + m && lo <= q < lo + m
    requires Cong(p, v, m) && Cong(q, v, m)
    ensures p == q
  {
    CongSym(q, v, m);
    CongTrans(p, v, q, m);
    CongWindow(p, q, lo, m);
  }

  /** The unsigned conversion: the unique value in [0, m) congruent to x. */
  function WrapM(x: int, m: int): (r: int)
    requires m > 0
    ensures 0 <= r < m && Cong(r, x, m)
    ensures 0 <= x < m ==> r == x
    ensures -m <= x < 0 ==> r == x + m
  {
    CongMod(x, m);
    if -m <= x < 0 then DivModUnique(x, m, -1, x + m); x % m else
    x % m
  }

  lemma WrapMUnique(w: int, x: int, m: int)
    requires m > 0
    requires 0 <= w < m && Cong(w, x, m)
    ensures w == WrapM(x, m)
  {
    var r := WrapM(x, m);
    CongSym(r, x, m);
    CongTrans(w, x, r, m);
    CongWindow(w, r, 0, m);
  }

  lemma WrapMCong(a: int, b: int, m: int)
    requires m > 0
    requires Cong(a, b, m)
    ensures WrapM(a, m) == WrapM(b, m)
  {
    CongTrans(WrapM(a, m), a, b, m);
    WrapMUnique(WrapM(a, m), b, m);
  }

  /** The two's-complement conversion: the unique value in [-h, h) congruent to x modulo 2h. */
  function SWrapM(x: int, h: int): (r: int)
    requires h > 0
    ensures -h <= r < h && Cong(r, x, 2 * h)
    ensures -h <= x < h ==> r == x
  {
    var u := WrapM(x, 2 * h);
    SWrapMProps(x, h, u);
    if u >= h then u - 2 * h else u
  }

  lemma SWrapMProps(x: int, h: int, u: int)
    requires h > 0 && u == WrapM(x, 2 * h)
    ensures Cong(u - 2 * h, x, 2 * h)
    ensures -h <= x < 0 ==> u == x + 2 * h
    ensures 0 <= x < h ==> u == x
  {
    MulIsCong(u - 2 * h, u, -1, 2 * h);
    CongTrans(u - 2 * h, u, x, 2 * h);
    WrapNegative(x, h);
  }

  lemma WrapNegative(x: int, h: int)
    requires h > 0
    ensures -h <= x < 0 ==> WrapM(x, 2 * h) == x + 2 * h
  {
    if -h <= x < 0 {
      MulIsCong(x + 2 * h, x, 1, 2 * h);
      WrapMUnique(x + 2 * h, x, 2 * h);
    }
  }

  lemma SWrapMUnique(w: int, x: int, h: int)
    requires h > 0
    requires -h <= w < h && Cong(w, x, 2 * h)
    ensures w == SWrapM(x, h)
  {
    var r := SWrapM(x, h);
    CongSym(r, x, 2 * h);
    CongTrans(w, x, r, 2 * h);
    CongWindow(w, r, -h, 2 * h);
  }

  /** A value at most one period above the range wraps once. */
  lemma WrapOnce(s: int, m: int)
    requires m > 0
    ensures m <= s < 2 * m ==> WrapM(s, m) == s - m
  {
    if m <= s < 2 * m {
      MulIsCong(s - m, s, -1, m);
      WrapMUnique(s - m, s, m);
    }
  }

  /** A value at most one period outside [-h, h) wraps once. */
  lemma SWrapOnce(s: int, h: int)
    requires h > 0
    ensures h <= s < 3 * h ==> SWrapM(s, h) == s - 2 * h
    ensures -3 * h <= s < -h ==> SWrapM(s, h) == s + 2 * h
  {
    if h <= s < 3 * h {
      MulIsCong(s - 2 * h, s, -1, 2 * h);
      SWrapMUnique(s - 2 * h, s, h);
    } else if -3 * h <= s < -h {
      MulIsCong(s + 2 * h, s, 1, 2 * h);
      SWrapMUnique(s + 2 * h, s, h);
    }
  }

  /** The signed reading of an unsigned pattern. */
  lemma SWrapOfUnsigned(u: int, h: int)
    requires h > 0 && 0 <= u < 2 * h
    ensures SWrapM(u, h) == if u < h then u else u - 2 * h
  {
    if u >= h {
      MulIsCong(u - 2 * h, u, -1, 2 * h);
      SWrapMUnique(u - 2 * h, u, h);
    }
  }

  lemma SWrapMCong(a: int, b: int, h: int)
    requires h > 0
    requires Cong(a, b, 2 * h)
    ensures SWrapM(a, h) == SWrapM(b, h)
  {
    CongTrans(SWrapM(a, h), a, b, 2 * h);
    SWrapMUnique(SWrapM(a, h), b, h);
  }

  /** Conversions to the C fixed-width types: `(uint8_t)x`, `(uint32_t)x`, `(int32_t)x`, ... */
  function Wrap8(x: int): u8 { WrapM(x, TWO8) }
  function Wrap16(x: int): u16 { WrapM(x, TWO16) }
  function Wrap32(x: int): u32 { WrapM(x, TWO32) }
  function Wrap64(x: int): u64 { WrapM(x, TWO64) }
  function Wrap128(x: int): u128 { WrapM(x, TWO128) }
  function SWrap32(x: int): i32 { SWrapM(x, TWO31) }
  function SWrap64(x: int): i64 { SWrapM(x, TWO63) }
  function SWrap128(x: int): i128 { SWrapM(x, TWO127) }

  // ---------------------------------------------------------------------------
  // C division and remainder (truncation toward zero)
  // ---------------------------------------------------------------------------

  /** C's `%`: the remainder has the sign of the dividend and is smaller than the divisor in magnitude. */
  function CRem(a: int, b: int): (r: int)
    requires b != 0
    ensures Abs(r) < Abs(b)
    ensures a >= 0 ==> 0 <= r
    ensures a <= 0 ==> r <= 0
    ensures Cong(r, a, Abs(b))
  {
    if a >= 0 then
      CongMod(a, Abs(b));
      a % Abs(b)
    else
      CongMod(-a, Abs(b));
      CongSub(0, 0, (-a) % Abs(b), -a, Abs(b));
      -((-a) % Abs(b))
  }

  /** C's `/`: quotient truncated toward zero, so that `CDiv(a, b) * b + CRem(a, b) == a`. */
  function CDiv(a: int, b: int): (r: int)
    requires b != 0
    ensures r * b + CRem(a, b) == a
  {
    var q := Abs(a) / Abs(b);
    CDivEquation(a, b, q);
    if (a >= 0) == (b > 0) then q else -q
  }

  lemma CDivEquation(a: int, b: int, q: int)
    requires b != 0 && q == Abs(a) / Abs(b)
    ensures (if (a >= 0) == (b > 0) then q else -q) * b + CRem(a, b) == a
  {
    var A: int, B: int := Abs(a), Abs(b);
    var s: int := A % B;
    assert A == q * B + s;
    assert CRem(a, b) == if a >= 0 then s else -s;
    MulNeg(q, B);
    if b > 0 {
      assert b == B;
    } else {
      assert b == -B;
    }
  }

  lemma CDivNonNeg(a: int, b: int)
    requires a >= 0 && b > 0
    ensures CDiv(a, b) == a / b && CRem(a, b) == a % b
  {
  }

  /** A common positive factor cancels in C division and scales the C remainder. */
  lemma CDivScale(a: int, b: int, c: int)
    requires b != 0 && c > 0
    ensures CDiv(c * a, c * b) == CDiv(a, b)
    ensures CRem(c * a, c * b) == c * CRem(a, b)
  {
    var A: int, B: int := Abs(a), Abs(b);
    var q: int, s: int := A / B, A % B;
    var ca: int, cb: int := c * a, c * b;
    AbsScale(a, c);
    AbsScale(b, c);
    ScaledDivMod(A, B, c);
    CDivByAbs(a, b);
    CDivByAbs(ca, cb);
    MulNeg(c, s);
  }

  /** CDiv and CRem in terms of Euclidean division of the magnitudes. */
  lemma CDivByAbs(a: int, b: int)
    requires b != 0
    ensures CRem(a, b) == if a >= 0 then Abs(a) % Abs(b) else -(Abs(a) % Abs(b))
    ensures CDiv(a, b) == if (a >= 0) == (b > 0) then Abs(a) / Abs(b) else -(Abs(a) / Abs(b))
  {
  }

  lemma ScaledDivMod(A: int, B: int, c: int)
    requires A >= 0 && B > 0 && c > 0
    ensures (c * A) / (c * B) == A / B && (c * A) % (c * B) == c * (A % B)
  {
    var q: int, s: int := A / B, A % B;
    assert A == q * B + s;
    var cA: int, cB: int, cs: int := c * A, c * B, c * s;
    assert cA == q * cB + cs by {
      assert c * (q * B + s) == q * (c * B) + c * s;
    }
    assert 0 <= cs < cB by {
      MulSign(c, s);
      MulSign(c, B - s);
      Distrib(B, s, c);
    }
    DivModUnique(cA, cB, q, cs);
  }

  /** Outside `-h / -1`, C division of values in [-h, h) stays in [-h, h). */
  lemma CDivRange(a: int, b: int, h: int)
    requires b != 0 && h > 0 && -h <= a < h && !(a == -h && b == -1)
    ensures -h <= CDiv(a, b) < h
  {
    var A: int, B: int := Abs(a), Abs(b);
    var q: int := A / B;
    assert q * B + A % B == A;
    MulSign(q, B - 1);
    Distrib(B, 1, q);
    assert q * B == q * (B - 1) + q by { Distrib(B - 1, -1, q); }
    if B >= 2 {
      MulSign(q, B - 2);
      assert q * B == q * (B - 2) + 2 * q by { Distrib(B - 2, -2, q); }
    }
    CDivByAbs(a, b);
  }

  /** Negating both operands keeps the quotient and negates the remainder. */
  lemma CDivNegBoth(a: int, b: int)
    requires b != 0
    ensures CDiv(-a, -b) == CDiv(a, b) && CRem(-a, -b) == -CRem(a, b)
  {
    CDivByAbs(a, b);
    CDivByAbs(-a, -b);
  }

  /** A dividend smaller in magnitude than the divisor gives quotient 0 and itself as remainder. */
  lemma CDivSmall(a: int, b: int)
    requires b != 0 && Abs(a) < Abs(b)
    ensures CDiv(a, b) == 0 && CRem(a, b) == a
  {
    CDivByAbs(a, b);
    DivModUnique(Abs(a), Abs(b), 0, Abs(a));
  }

  /** A value congruent to a modulo m, of the sign of a and below m in magnitude, is the C remainder of a by m. */
  lemma CRemUnique(c: int, a: int, m: int)
    requires m > 0 && -m < c < m && Cong(c, a, m)
    requires a > 0 ==> c >= 0
    requires a < 0 ==> c <= 0
    ensures c == CRem(a, m)
  {
    var r := CRem(a, m);
    CongSym(r, a, m);
    CongTrans(c, a, r, m);
    if c >= 0 && r >= 0 {
      CongWindow(c, r, 0, m);
    } else {
      CongWindow(c, r, 1 - m, m);
    }
  }

  /**
   * The divisor of a ones'-complement division is `y_c1 + 1`, i.e. -b after wrap-around:
   * for b = -h it stays -h. With a dividend other than -h the quotient and remainder are
   * those of dividing -a by -b.
   */
  lemma CDivNegWrapped(a: int, b: int, h: int)
    requires h > 0 && -h < a < h && -h <= b < h && b != 0
    ensures CDiv(-a, SWrapM(-b, h)) == CDiv(a, b)
    ensures CRem(-a, SWrapM(-b, h)) == -CRem(a, b)
  {
    if b == -h {
      MulIsCong(-h, h, -1, 2 * h);
      SWrapMUnique(-h, h, h);
      CDivSmall(-a, b);
      CDivSmall(a, b);
    } else {
      CDivNegBoth(a, b);
    }
  }

  lemma AbsScale(a: int, c: int)
    requires c > 0
    ensures Abs(c * a) == c * Abs(a)
    ensures (c * a >= 0) == (a >= 0) && (c * a > 0) == (a > 0)
  {
    MulSign(a, c);
    MulSign(-a, c);
    MulNeg(a, c);
  }

  // ---------------------------------------------------------------------------
  // Bitwise operators on the low n bits of naturals
  // ---------------------------------------------------------------------------

  function Pow2(n: nat): (r: nat)
    ensures r >= 1
  {
    if n == 0 then 1 else 2 * Pow2(n - 1)
  }

  lemma {:induction false} Pow2Add(a: nat, b: nat)
    ensures Pow2(a + b) == Pow2(a) * Pow2(b)
    decreases a
  {
    if a > 0 {
      Pow2Add(a - 1, b);
      assert Pow2(a + b) == 2 * Pow2(a - 1 + b);
    }
  }

  lemma {:induction false} Pow2Mono(a: nat, b: nat)
    requires a <= b
    ensures Pow2(a) <= Pow2(b)
    decreases b
  {
    if a < b {
      Pow2Mono(a, b - 1);
    }
  }

  /** The powers of two behind the word sizes. */
  lemma Widths8()
    ensures Pow2(8) == TWO8 && Pow2(16) == TWO16
  {
    assert Pow2(8) == 256;
    Pow2Add(8, 8);
  }

  lemma Widths32()
    ensures Pow2(31) == TWO31 && Pow2(32) == TWO32
  {
    Pow2Widths();
  }

  lemma Widths64()
    ensures Pow2(63) == TWO63 && Pow2(64) == TWO64
  {
    Pow2Widths();
  }

  lemma Widths128()
    ensures Pow2(127) == TWO127 && Pow2(128) == TWO128
  {
    Pow2Widths();
  }

  lemma Pow2Widths()
    ensures Pow2(8) == TWO8 && Pow2(16) == TWO16 && Pow2(31) == TWO31 && Pow2(32) == TWO32
    ensures Pow2(63) == TWO63 && Pow2(64) == TWO64 && Pow2(127) == TWO127 && Pow2(128) == TWO128
  {
    assert Pow2(8) == 256;
    Pow2Add(8, 8);
    Pow2Add(16, 15);
    Pow2Add(16, 16);
    Pow2Add(32, 31);
    Pow2Add(32, 32);
    Pow2Add(64, 63);
    Pow2Add(64, 64);
  }

  /** Bit i of a (bit 0 is the least significant). */
  predicate Bit(a: nat, i: nat)
    decreases i
  {
    if i == 0 then a % 2 == 1 else Bit(a / 2, i - 1)
  }

  function BitAnd(a: nat, b: nat, n: nat): (r: nat)
    ensures r < Pow2(n)
  {
    if n == 0 then 0
    else 2 * BitAnd(a / 2, b / 2, n - 1) + (if a % 2 == 1 && b % 2 == 1 then 1 else 0)
  }

  function BitOr(a: nat, b: nat, n: nat): (r: nat)
    ensures r < Pow2(n)
  {
    if n == 0 then 0
    else 2 * BitOr(a / 2, b / 2, n - 1) + (if a % 2 == 1 || b % 2 == 1 then 1 else 0)
  }

  function BitXor(a: nat, b: nat, n: nat): (r: nat)
    ensures r < Pow2(n)
  {
    if n == 0 then 0
    else 2 * BitXor(a / 2, b / 2, n - 1) + (if (a % 2 == 1) != (b % 2 == 1) then 1 else 0)
  }

  /** `~a` on an n-bit word. */
  function BitNot(a: nat, n: nat): (r: nat)
    requires a < Pow2(n)
    ensures r < Pow2(n)
  {
    Pow2(n) - 1 - a
  }

  /** The number of set bits, counted one bit at a time from the bottom. */
  function Popcount(a: nat): nat
  {
    if a == 0 then 0 else a % 2 + Popcount(a / 2)
  }

  lemma NotStep(a: nat, n: nat)
    requires n > 0 && a < Pow2(n)
    ensures a / 2 < Pow2(n - 1)
    ensures BitNot(a, n) / 2 == BitNot(a / 2, n - 1)
    ensures BitNot(a, n) % 2 == 1 - a % 2
  {
  }

  /** The low bit and the remaining bits of an and, or and exclusive or. */
  lemma OpsStep(a: nat, b: nat, n: nat)
    requires n > 0
    ensures BitAnd(a, b, n) / 2 == BitAnd(a / 2, b / 2, n - 1)
    ensures BitAnd(a, b, n) % 2 == (if a % 2 == 1 && b % 2 == 1 then 1 else 0)
    ensures BitOr(a, b, n) / 2 == BitOr(a / 2, b / 2, n - 1)
    ensures BitOr(a, b, n) % 2 == (if a % 2 == 1 || b % 2 == 1 then 1 else 0)
    ensures BitXor(a, b, n) / 2 == BitXor(a / 2, b / 2, n - 1)
    ensures BitXor(a, b, n) % 2 == (if (a % 2 == 1) != (b % 2 == 1) then 1 else 0)
  {
  }

  /** Below Pow2(n), bit-by-bit recomposition is the identity. */
  lemma {:induction false} LowBits(a: nat, n: nat)
    requires a < Pow2(n)
    ensures BitAnd(a, a, n) == a && BitOr(a, a, n) == a
    decreases n
  {
    if n > 0 {
      LowBits(a / 2, n - 1);
    }
  }

  lemma {:induction false} AndComm(a: nat, b: nat, n: nat)
    ensures BitAnd(a, b, n) == BitAnd(b, a, n)
    decreases n
  {
    if n > 0 { AndComm(a / 2, b / 2, n - 1); }
  }

  lemma {:induction false} OrComm(a: nat, b: nat, n: nat)
    ensures BitOr(a, b, n) == BitOr(b, a, n)
    decreases n
  {
    if n > 0 { OrComm(a / 2, b / 2, n - 1); }
  }

  lemma {:induction false} XorComm(a: nat, b: nat, n: nat)
    ensures BitXor(a, b, n) == BitXor(b, a, n)
    decreases n
  {
    if n > 0 { XorComm(a / 2, b / 2, n - 1); }
  }

  /** De Morgan: `~(~a | ~b) == a & b`. */
  lemma {:induction false} DeMorganAnd(a: nat, b: nat, n: nat)
    requires a < Pow2(n) && b < Pow2(n)
    ensures BitNot(BitOr(BitNot(a, n), BitNot(b, n), n), n) == BitAnd(a, b, n)
    decreases n
  {
    if n > 0 {
      NotStep(a, n);
      NotStep(b, n);
      var o := BitOr(BitNot(a, n), BitNot(b, n), n);
      NotStep(o, n);
      DeMorganAnd(a / 2, b / 2, n - 1);
    }
  }

  /** De Morgan: `~(~a & ~b) == a | b`. */
  lemma {:induction false} DeMorganOr(a: nat, b: nat, n: nat)
    requires a < Pow2(n) && b < Pow2(n)
    ensures BitNot(BitAnd(BitNot(a, n), BitNot(b, n), n), n) == BitOr(a, b, n)
    decreases n
  {
    if n > 0 {
      NotStep(a, n);
      NotStep(b, n);
      var o := BitAnd(BitNot(a, n), BitNot(b, n), n);
      NotStep(o, n);
      DeMorganOr(a / 2, b / 2, n - 1);
    }
  }

  /** `~a | ~b == ~(a & b)` and `~a & ~b == ~(a | b)`: the complement swaps and and or. */
  lemma ComplementSwaps(a: nat, b: nat, n: nat)
    requires a < Pow2(n) && b < Pow2(n)
    ensures BitOr(BitNot(a, n), BitNot(b, n), n) == BitNot(BitAnd(a, b, n), n)
    ensures BitAnd(BitNot(a, n), BitNot(b, n), n) == BitNot(BitOr(a, b, n), n)
  {
    DeMorganAnd(a, b, n);
    DeMorganOr(a, b, n);
  }

  /** `(~a & b) | (a & ~b) == a ^ b`. */
  lemma {:induction false} XorByAndOr(a: nat, b: nat, n: nat)
    requires a < Pow2(n) && b < Pow2(n)
    ensures BitOr(BitAnd(BitNot(a, n), b, n), BitAnd(a, BitNot(b, n), n), n) == BitXor(a, b, n)
    decreases n
  {
    if n > 0 {
      var na, nb := BitNot(a, n), BitNot(b, n);
      NotStep(a, n);
      NotStep(b, n);
      var l, r := BitAnd(na, b, n), BitAnd(a, nb, n);
      OpsStep(na, b, n);
      OpsStep(a, nb, n);
      XorByAndOr(a / 2, b / 2, n - 1);
    }
  }

  /** `~a ^ ~b == a ^ b`. */
  lemma {:induction false} XorNotNot(a: nat, b: nat, n: nat)
    requires a < Pow2(n) && b < Pow2(n)
    ensures BitXor(BitNot(a, n), BitNot(b, n), n) == BitXor(a, b, n)
    decreases n
  {
    if n > 0 {
      NotStep(a, n);
      NotStep(b, n);
      XorNotNot(a / 2, b / 2, n - 1);
    }
  }

  /** `(a ^ b) ^ b == a`. */
  lemma {:induction false} XorCancel(a: nat, b: nat, n: nat)
    requires a < Pow2(n)
    ensures BitXor(BitXor(a, b, n), b, n) == a
    decreases n
  {
    if n > 0 {
      XorCancel(a / 2, b / 2, n - 1);
    }
  }

  /** `a ^ b == 0` exactly when a and b agree on the low n bits. */
  lemma {:induction false} XorZero(a: nat, b: nat, n: nat)
    requires a < Pow2(n) && b < Pow2(n)
    ensures BitXor(a, b, n) == 0 <==> a == b
    decreases n
  {
    if n > 0 {
      XorZero(a / 2, b / 2, n - 1);
    }
  }

  /** `a & 0 == 0`, `a | 0 == a`, `a ^ 0 == a`. */
  lemma {:induction false} OpsWithZero(a: nat, n: nat)
    requires a < Pow2(n)
    ensures BitAnd(a, 0, n) == 0 && BitOr(a, 0, n) == a && BitXor(a, 0, n) == a
    decreases n
  {
    if n > 0 {
      OpsWithZero(a / 2, n - 1);
    }
  }

  /** `(a & m) & m == a & m` and `(a | m) | m == a | m`. */
  lemma {:induction false} AndOrIdempotent(a: nat, m: nat, n: nat)
    ensures BitAnd(BitAnd(a, m, n), m, n) == BitAnd(a, m, n)
    ensures BitOr(BitOr(a, m, n), m, n) == BitOr(a, m, n)
    decreases n
  {
    if n > 0 {
      AndOrIdempotent(a / 2, m / 2, n - 1);
    }
  }

  lemma {:induction false} PopcountBound(a: nat, n: nat)
    requires a < Pow2(n)
    ensures Popcount(a) <= n
    decreases n
  {
    if n > 0 && a > 0 {
      PopcountBound(a / 2, n - 1);
    }
  }

  lemma PopcountZero(a: nat)
    ensures Popcount(a) == 0 <==> a == 0
  {
  }

  /** Pow2(p) has the single set bit p. */
  lemma {:induction false} PopcountPow2(p: nat)
    ensures Popcount(Pow2(p)) == 1
    decreases p
  {
    if p > 0 {
      PopcountPow2(p - 1);
      assert Pow2(p) / 2 == Pow2(p - 1);
    }
  }

  // Bit-level facts about the operators.

  lemma {:induction false} BitOfAnd(a: nat, b: nat, n: nat, i: nat)
    requires i < n
    ensures Bit(BitAnd(a, b, n), i) == (Bit(a, i) && Bit(b, i))
    decreases i
  {
    if i > 0 {
      BitOfAnd(a / 2, b / 2, n - 1, i - 1);
    }
  }

  lemma {:induction false} BitOfOr(a: nat, b: nat, n: nat, i: nat)
    requires i < n
    ensures Bit(BitOr(a, b, n), i) == (Bit(a, i) || Bit(b, i))
    decreases i
  {
    if i > 0 {
      BitOfOr(a / 2, b / 2, n - 1, i - 1);
    }
  }

  lemma {:induction false} BitOfXor(a: nat, b: nat, n: nat, i: nat)
    requires i < n
    ensures Bit(BitXor(a, b, n), i) == (Bit(a, i) != Bit(b, i))
    decreases i
  {
    if i > 0 {
      BitOfXor(a / 2, b / 2, n - 1, i - 1);
    }
  }

  lemma {:induction false} BitOfNot(a: nat, n: nat, i: nat)
    requires i < n && a < Pow2(n)
    ensures Bit(BitNot(a, n), i) == !Bit(a, i)
    decreases i
  {
    NotStep(a, n);
    if i > 0 {
      BitOfNot(a / 2, n - 1, i - 1);
    }
  }

  lemma {:induction false} BitOfPow2(p: nat, i: nat)
    ensures Bit(Pow2(p), i) == (i == p)
    decreases i
  {
    if i > 0 {
      if p > 0 {
        assert Pow2(p) / 2 == Pow2(p - 1);
        BitOfPow2(p - 1, i - 1);
      } else {
        BitOfZero(i - 1);
      }
    }
  }

  lemma {:induction false} BitOfZero(i: nat)
    ensures !Bit(0, i)
    decreases i
  {
    if i > 0 { BitOfZero(i - 1); }
  }

  /** Every bit at or above n of a value below Pow2(n) is clear. */
  lemma {:induction false} BitAboveWidth(a: nat, n: nat, i: nat)
    requires a < Pow2(n) && n <= i
    ensures !Bit(a, i)
    decreases i
  {
    if n == 0 {
      assert a == 0;
      BitOfZero(i);
    } else {
      BitAboveWidth(a / 2, n - 1, i - 1);
    }
  }

  /** Two n-bit values with the same low n bits are equal. */
  lemma {:induction false} BitsEqual(a: nat, b: nat, n: nat)
    requires a < Pow2(n) && b < Pow2(n)
    requires forall i :: 0 <= i < n ==> Bit(a, i) == Bit(b, i)
    ensures a == b
    decreases n
  {
    if n > 0 {
      forall i | 0 <= i < n - 1
        ensures Bit(a / 2, i) == Bit(b / 2, i)
      {
        assert Bit(a, i + 1) == Bit(b, i + 1);
      }
      assert Bit(a, 0) == Bit(b, 0);
      BitsEqual(a / 2, b / 2, n - 1);
    }
  }

  // ---------------------------------------------------------------------------
  // Two's-complement views: signed bitwise operators act on the unsigned pattern
  // ---------------------------------------------------------------------------

  predicate InSigned(a: int, n: nat)
    requires n >= 1
  {
    -(Pow2(n - 1) as int) <= a < Pow2(n - 1)
  }

  /** The bit pattern of a signed n-bit value. */
  function Pattern(a: int, n: nat): (r: nat)
    ensures r < Pow2(n)
  {
    WrapM(a, Pow2(n))
  }

  /** The signed n-bit value of a bit pattern. */
  function Signed(u: int, n: nat): (r: int)
    requires n >= 1
    ensures InSigned(r, n)
  {
    assert Pow2(n) == 2 * Pow2(n - 1);
    SWrapM(u, Pow2(n - 1))
  }

  lemma SignedOfPattern(a: int, n: nat)
    requires n >= 1 && InSigned(a, n)
    ensures Signed(Pattern(a, n), n) == a
  {
    assert Pow2(n) == 2 * Pow2(n - 1);
    CongSym(Pattern(a, n), a, Pow2(n));
    SWrapMUnique(a, Pattern(a, n), Pow2(n - 1));
  }

  lemma PatternOfSigned(u: int, n: nat)
    requires n >= 1
    ensures Pattern(Signed(u, n), n) == Pattern(u, n)
  {
    assert Pow2(n) == 2 * Pow2(n - 1);
    WrapMCong(Signed(u, n), u, Pow2(n));
  }

  lemma PatternInjective(a: int, b: int, n: nat)
    requires n >= 1 && InSigned(a, n) && InSigned(b, n)
    requires Pattern(a, n) == Pattern(b, n)
    ensures a == b
  {
    SignedOfPattern(a, n);
    SignedOfPattern(b, n);
  }

  /** C's `~` on a signed value is `-1 - a`; its pattern is the complemented pattern. */
  lemma PatternOfComplement(a: int, n: nat)
    ensures Pattern(-1 - a, n) == BitNot(Pattern(a, n), n)
  {
    var M := Pow2(n);
    CongSub(-1, -1, Pattern(a, n), a, M);
    MulIsCong(M - 1 - Pattern(a, n), -1 - Pattern(a, n), 1, M);
    CongTrans(M - 1 - Pattern(a, n), -1 - Pattern(a, n), -1 - a, M);
    WrapMUnique(M - 1 - Pattern(a, n), -1 - a, M);
  }

  function SBitAnd(a: int, b: int, n: nat): (r: int)
    requires n >= 1
    ensures InSigned(r, n)
  {
    Signed(BitAnd(Pattern(a, n), Pattern(b, n), n), n)
  }

  function SBitOr(a: int, b: int, n: nat): (r: int)
    requires n >= 1
    ensures InSigned(r, n)
  {
    Signed(BitOr(Pattern(a, n), Pattern(b, n), n), n)
  }

  function SBitXor(a: int, b: int, n: nat): (r: int)
    requires n >= 1
    ensures InSigned(r, n)
  {
    Signed(BitXor(Pattern(a, n), Pattern(b, n), n), n)
  }

  lemma PatternOfOps(a: int, b: int, n: nat)
    requires n >= 1
    ensures Pattern(SBitAnd(a, b, n), n) == BitAnd(Pattern(a, n), Pattern(b, n), n)
    ensures Pattern(SBitOr(a, b, n), n) == BitOr(Pattern(a, n), Pattern(b, n), n)
    ensures Pattern(SBitXor(a, b, n), n) == BitXor(Pattern(a, n), Pattern(b, n), n)
  {
    PatternOfAnd(a, b, n);
    PatternOfOr(a, b, n);
    PatternOfXor(a, b, n);
  }

  lemma PatternOfAnd(a: int, b: int, n: nat)
    requires n >= 1
    ensures Pattern(SBitAnd(a, b, n), n) == BitAnd(Pattern(a, n), Pattern(b, n), n)
  {
    var r := BitAnd(Pattern(a, n), Pattern(b, n), n);
    PatternOfSigned(r, n);
    WrapMUnique(r, r, Pow2(n));
  }

  lemma PatternOfOr(a: int, b: int, n: nat)
    requires n >= 1
    ensures Pattern(SBitOr(a, b, n), n) == BitOr(Pattern(a, n), Pattern(b, n), n)
  {
    var r := BitOr(Pattern(a, n), Pattern(b, n), n);
    PatternOfSigned(r, n);
    WrapMUnique(r, r, Pow2(n));
  }

  lemma PatternOfXor(a: int, b: int, n: nat)
    requires n >= 1
    ensures Pattern(SBitXor(a, b, n), n) == BitXor(Pattern(a, n), Pattern(b, n), n)
  {
    var r := BitXor(Pattern(a, n), Pattern(b, n), n);
    PatternOfSigned(r, n);
    WrapMUnique(r, r, Pow2(n));
  }


  /** Signed De Morgan: `-1 - ((-1 - a) | (-1 - b)) == a & b` and dually. */
  lemma SignedDeMorgan(a: int, b: int, n: nat)
    requires n >= 1 && InSigned(a, n) && InSigned(b, n)
    ensures -1 - SBitOr(-1 - a, -1 - b, n) == SBitAnd(a, b, n)
    ensures -1 - SBitAnd(-1 - a, -1 - b, n) == SBitOr(a, b, n)
  {
    SignedDeMorganAnd(a, b, n);
    SignedDeMorganOr(a, b, n);
  }

  lemma SignedDeMorganAnd(a: int, b: int, n: nat)
    requires n >= 1 && InSigned(a, n) && InSigned(b, n)
    ensures -1 - SBitOr(-1 - a, -1 - b, n) == SBitAnd(a, b, n)
  {
    var A, B := Pattern(a, n), Pattern(b, n);
    var nA, nB := BitNot(A, n), BitNot(B, n);
    var o := SBitOr(-1 - a, -1 - b, n);
    assert Pattern(o, n) == BitOr(nA, nB, n) by {
      PatternOfComplement(a, n);
      PatternOfComplement(b, n);
      PatternOfOr(-1 - a, -1 - b, n);
    }
    assert Pattern(-1 - o, n) == BitAnd(A, B, n) by {
      PatternOfComplement(o, n);
      DeMorganAnd(A, B, n);
    }
    assert Pattern(SBitAnd(a, b, n), n) == BitAnd(A, B, n) by {
      PatternOfAnd(a, b, n);
    }
    PatternInjective(-1 - o, SBitAnd(a, b, n), n);
  }

  lemma SignedDeMorganOr(a: int, b: int, n: nat)
    requires n >= 1 && InSigned(a, n) && InSigned(b, n)
    ensures -1 - SBitAnd(-1 - a, -1 - b, n) == SBitOr(a, b, n)
  {
    var A, B := Pattern(a, n), Pattern(b, n);
    var nA, nB := BitNot(A, n), BitNot(B, n);
    var d := SBitAnd(-1 - a, -1 - b, n);
    assert Pattern(d, n) == BitAnd(nA, nB, n) by {
      PatternOfComplement(a, n);
      PatternOfComplement(b, n);
      PatternOfAnd(-1 - a, -1 - b, n);
    }
    assert Pattern(-1 - d, n) == BitOr(A, B, n) by {
      PatternOfComplement(d, n);
      DeMorganOr(A, B, n);
    }
    assert Pattern(SBitOr(a, b, n), n) == BitOr(A, B, n) by {
      PatternOfOr(a, b, n);
    }
    PatternInjective(-1 - d, SBitOr(a, b, n), n);
  }

  /** Signed form of ComplementSwaps: `~a | ~b == ~(a & b)` and `~a & ~b == ~(a | b)`. */
  lemma SignedComplementSwaps(a: int, b: int, n: nat)
    requires n >= 1 && InSigned(a, n) && InSigned(b, n)
    ensures SBitOr(-1 - a, -1 - b, n) == -1 - SBitAnd(a, b, n)
    ensures SBitAnd(-1 - a, -1 - b, n) == -1 - SBitOr(a, b, n)
  {
    SignedDeMorgan(a, b, n);
  }

  /** Signed form of XorNotNot: `~a ^ ~b == a ^ b`. */
  lemma SignedXorNotNot(a: int, b: int, n: nat)
    requires n >= 1 && InSigned(a, n) && InSigned(b, n)
    ensures SBitXor(-1 - a, -1 - b, n) == SBitXor(a, b, n)
  {
    PatternOfComplement(a, n);
    PatternOfComplement(b, n);
    PatternOfOps(-1 - a, -1 - b, n);
    PatternOfOps(a, b, n);
    XorNotNot(Pattern(a, n), Pattern(b, n), n);
    PatternInjective(SBitXor(-1 - a, -1 - b, n), SBitXor(a, b, n), n);
  }

  /** Signed form of XorByAndOr: `(~a & b) | (a & ~b) == a ^ b`. */
  lemma SignedXorByAndOr(a: int, b: int, n: nat)
    requires n >= 1 && InSigned(a, n) && InSigned(b, n)
    ensures SBitOr(SBitAnd(-1 - a, b, n), SBitAnd(a, -1 - b, n), n) == SBitXor(a, b, n)
  {
    var A, B := Pattern(a, n), Pattern(b, n);
    var l, r := SBitAnd(-1 - a, b, n), SBitAnd(a, -1 - b, n);
    PatternOfComplement(a, n);
    PatternOfComplement(b, n);
    assert Pattern(l, n) == BitAnd(BitNot(A, n), B, n) by { PatternOfOps(-1 - a, b, n); }
    assert Pattern(r, n) == BitAnd(A, BitNot(B, n), n) by { PatternOfOps(a, -1 - b, n); }
    assert Pattern(SBitOr(l, r, n), n) == BitOr(Pattern(l, n), Pattern(r, n), n) by { PatternOfOps(l, r, n); }
    assert Pattern(SBitXor(a, b, n), n) == BitXor(A, B, n) by { PatternOfOps(a, b, n); }
    XorByAndOr(A, B, n);
    PatternInjective(SBitOr(l, r, n), SBitXor(a, b, n), n);
  }

  /** Signed form of XorCancel: `(a ^ b) ^ b == a`. */
  lemma SignedXorCancel(a: int, b: int, n: nat)
    requires n >= 1 && InSigned(a, n) && InSigned(b, n)
    ensures SBitXor(SBitXor(a, b, n), b, n) == a
  {
    PatternOfOps(a, b, n);
    PatternOfOps(SBitXor(a, b, n), b, n);
    XorCancel(Pattern(a, n), Pattern(b, n), n);
    SignedOfPattern(a, n);
  }

  // Bitwise operators, bit by bit, for every position below the width.

  lemma BitsOfOps(a: nat, b: nat, n: nat)
    ensures forall i :: 0 <= i < n ==> Bit(BitAnd(a, b, n), i) == (Bit(a, i) && Bit(b, i))
    ensures forall i :: 0 <= i < n ==> Bit(BitOr(a, b, n), i) == (Bit(a, i) || Bit(b, i))
    ensures forall i :: 0 <= i < n ==> Bit(BitXor(a, b, n), i) == (Bit(a, i) != Bit(b, i))
  {
    forall i | 0 <= i < n
      ensures Bit(BitAnd(a, b, n), i) == (Bit(a, i) && Bit(b, i))
      ensures Bit(BitOr(a, b, n), i) == (Bit(a, i) || Bit(b, i))
      ensures Bit(BitXor(a, b, n), i) == (Bit(a, i) != Bit(b, i))
    {
      BitOfAnd(a, b, n, i);
      BitOfOr(a, b, n, i);
      BitOfXor(a, b, n, i);
    }
  }

  lemma BitsOfNot(a: nat, n: nat)
    requires a < Pow2(n)
    ensures forall i :: 0 <= i < n ==> Bit(BitNot(a, n), i) == !Bit(a, i)
  {
    forall i | 0 <= i < n
      ensures Bit(BitNot(a, n), i) == !Bit(a, i)
    {
      BitOfNot(a, n, i);
    }
  }
}
