/**
 * The uncoded baseline of codings/none_64.h: encode and decode are the identity and
 * every operation is the native 64-bit C operator. The other codings state their
 * homomorphisms against these functions.
 */
module None64 {
  import opened Words

  function Encode(x: i64): (r: i64)
    ensures Decode(r) == x
  {
    x
  }

  function UEncode(x: u64): (r: u64)
    ensures UDecode(r) == x
  {
    x
  }

  function Decode(x: i64): i64 { x }
  function UDecode(x: u64): u64 { x }

  /** Signed `+`, `-`, `*` wrap around (two's complement); exact when the result fits. */
  function Add(x: i64, y: i64): (r: i64)
    ensures Cong(r, x + y, TWO64)
    ensures -TWO63 <= x + y < TWO63 ==> r == x + y
  {
    SWrap64(x + y)
  }

  function UAdd(x: u64, y: u64): (r: u64)
    ensures Cong(r, x + y, TWO64)
    ensures x + y < TWO64 ==> r == x + y
  {
    Wrap64(x + y)
  }

  function Sub(x: i64, y: i64): (r: i64)
    ensures Cong(r, x - y, TWO64)
    ensures -TWO63 <= x - y < TWO63 ==> r == x - y
  {
    SWrap64(x - y)
  }

  function USub(x: u64, y: u64): (r: u64)
    ensures Cong(r, x - y, TWO64)
    ensures y <= x ==> r == x - y
  {
    Wrap64(x - y)
  }

  function Mul(x: i64, y: i64): (r: i64)
    ensures Cong(r, x * y, TWO64)
    ensures -TWO63 <= x * y < TWO63 ==> r == x * y
  {
    SWrap64(x * y)
  }

  function UMul(x: u64, y: u64): (r: u64)
    ensures Cong(r, x * y, TWO64)
    ensures x * y < TWO64 ==> r == x * y
  {
    Wrap64(x * y)
  }

  /** Signed `/` truncates toward zero; division by zero and MIN / -1 are undefined in C. */
  function Div(x: i64, y: i64): (r: i64)
    requires y != 0 && !(x == -TWO63 && y == -1)
    ensures Abs(x - r * y) < Abs(y)
    ensures x - r * y == 0 || (x - r * y > 0) == (x > 0)
  {
    CDivRange(x, y, TWO63);
    CDiv(x, y)
  }

  function UDiv(x: u64, y: u64): (r: u64)
    requires y != 0
    ensures r * y <= x < r * y + y
  {
    x / y
  }

  /** The reverse check `q * y + x % y == x` of the coded divisions holds for every dividend and non-zero divisor. */
  lemma ReverseCheck(x: u64, y: u64)
    requires y != 0
    ensures Wrap64(UDiv(x, y) * y + UMod(x, y)) == x
  {
    assert (x / y) * y + x % y == x;
  }

  /** Signed `%` takes the sign of the dividend. */
  function Mod(x: i64, y: i64): (r: i64)
    requires y != 0 && !(x == -TWO63 && y == -1)
    ensures Abs(r) < Abs(y) && Cong(r, x, Abs(y))
    ensures r == 0 || (r > 0) == (x > 0)
  {
    CRem(x, y)
  }

  function UMod(x: u64, y: u64): (r: u64)
    requires y != 0
    ensures r < y && Cong(r, x, y)
  {
    CongMod(x, y);
    x % y
  }

  // Relational operators yield 1 or 0.

  function Eq(x: i64, y: i64): (r: i64)
    ensures r == 0 || r == 1
    ensures r == 1 <==> x == y
  {
    B2I(x == y)
  }

  function UEq(x: u64, y: u64): (r: u64)
    ensures r == 0 || r == 1
    ensures r == 1 <==> x == y
  {
    B2I(x == y)
  }

  function Neq(x: i64, y: i64): (r: i64)
    ensures r == 0 || r == 1
    ensures r == 1 <==> x != y
  {
    B2I(x != y)
  }

  function UNeq(x: u64, y: u64): (r: u64)
    ensures r == 0 || r == 1
    ensures r == 1 <==> x != y
  {
    B2I(x != y)
  }

  function Less(x: i64, y: i64): (r: i64)
    ensures r == 0 || r == 1
    ensures r == 1 <==> x < y
  {
    B2I(x < y)
  }

  function ULess(x: u64, y: u64): (r: u64)
    ensures r == 0 || r == 1
    ensures r == 1 <==> x < y
  {
    B2I(x < y)
  }

  function Grt(x: i64, y: i64): (r: i64)
    ensures r == 0 || r == 1
    ensures r == 1 <==> x > y
  {
    B2I(x > y)
  }

  function UGrt(x: u64, y: u64): (r: u64)
    ensures r == 0 || r == 1
    ensures r == 1 <==> x > y
  {
    B2I(x > y)
  }

  function Leq(x: i64, y: i64): (r: i64)
    ensures r == 0 || r == 1
    ensures r == 1 <==> x <= y
  {
    B2I(x <= y)
  }

  function ULeq(x: u64, y: u64): (r: u64)
    ensures r == 0 || r == 1
    ensures r == 1 <==> x <= y
  {
    B2I(x <= y)
  }

  function Geq(x: i64, y: i64): (r: i64)
    ensures r == 0 || r == 1
    ensures r == 1 <==> x >= y
  {
    B2I(x >= y)
  }

  function UGeq(x: u64, y: u64): (r: u64)
    ensures r == 0 || r == 1
    ensures r == 1 <==> x >= y
  {
    B2I(x >= y)
  }

  /** `x << y`: multiplication by 2^y, wrapped; a shift by the width or more is undefined in C. */
  function Shl(x: i64, y: i64): (r: i64)
    requires 0 <= y < 64
    ensures Cong(r, x * Pow2(y), TWO64)
  {
    SWrap64(x * Pow2(y))
  }

  function UShl(x: u64, y: u64): (r: u64)
    requires y < 64
    ensures Cong(r, x * Pow2(y), TWO64)
  {
    Wrap64(x * Pow2(y))
  }

  /** The unsigned right shift of the baseline is a stub: it returns 0 whatever its operands. */
  function UShr(x: u64, y: u64): (r: u64)
    ensures r == 0
  {
    0
  }

  /** The stub discards the value: `2 >> 1` is 1, the stub gives 0. */
  lemma UShrStubDiffers()
    ensures UShr(2, 1) == 0 && UShrCorrected(2, 1) == 1
  {
    assert Pow2(1) == 2;
  }

  /** The logical right shift the stub stands in for: the floor of x / 2^y. */
  function UShrCorrected(x: u64, y: u64): (r: u64)
    requires y < 64
    ensures r * Pow2(y) <= x < (r + 1) * Pow2(y)
  {
    DivBounds(x, Pow2(y));
    x / Pow2(y)
  }

  function Land(x: i64, y: i64): (r: i64)
    ensures r == 0 || r == 1
    ensures r == 1 <==> x != 0 && y != 0
  {
    B2I(x != 0 && y != 0)
  }

  function ULand(x: u64, y: u64): (r: u64)
    ensures r == 0 || r == 1
    ensures r == 1 <==> x != 0 && y != 0
  {
    B2I(x != 0 && y != 0)
  }

  function Lor(x: i64, y: i64): (r: i64)
    ensures r == 0 || r == 1
    ensures r == 1 <==> x != 0 || y != 0
  {
    B2I(x != 0 || y != 0)
  }

  function ULor(x: u64, y: u64): (r: u64)
    ensures r == 0 || r == 1
    ensures r == 1 <==> x != 0 || y != 0
  {
    B2I(x != 0 || y != 0)
  }

  // Bitwise operators act on the two's-complement bit patterns, bit by bit; the lemmas
  // after each operator state this bit by bit.

  function And(x: i64, y: i64): i64
  {
    Widths64();
    SBitAnd(x, y, 64)
  }

  lemma AndBits(x: i64, y: i64)
    ensures forall i :: 0 <= i < 64 ==> Bit(Pattern(And(x, y), 64), i) == (Bit(Pattern(x, 64), i) && Bit(Pattern(y, 64), i))
  {
    Widths64();
    PatternOfOps(x, y, 64);
    BitsOfOps(Pattern(x, 64), Pattern(y, 64), 64);
  }

  function UAnd(x: u64, y: u64): u64
  {
    Widths64();
    BitAnd(x, y, 64)
  }

  lemma UAndBits(x: u64, y: u64)
    ensures forall i :: 0 <= i < 64 ==> Bit(UAnd(x, y), i) == (Bit(x, i) && Bit(y, i))
  {
    Widths64();
    BitsOfOps(x, y, 64);
  }

  function Or(x: i64, y: i64): i64
  {
    Widths64();
    SBitOr(x, y, 64)
  }

  lemma OrBits(x: i64, y: i64)
    ensures forall i :: 0 <= i < 64 ==> Bit(Pattern(Or(x, y), 64), i) == (Bit(Pattern(x, 64), i) || Bit(Pattern(y, 64), i))
  {
    Widths64();
    PatternOfOps(x, y, 64);
    BitsOfOps(Pattern(x, 64), Pattern(y, 64), 64);
  }

  function UOr(x: u64, y: u64): u64
  {
    Widths64();
    BitOr(x, y, 64)
  }

  lemma UOrBits(x: u64, y: u64)
    ensures forall i :: 0 <= i < 64 ==> Bit(UOr(x, y), i) == (Bit(x, i) || Bit(y, i))
  {
    Widths64();
    BitsOfOps(x, y, 64);
  }

  /** De Morgan on unsigned 64-bit values, with the complement written as `0xFFFF_FFFF_FFFF_FFFF - v`. */
  lemma ComplementAnd(x: u64, y: u64)
    ensures BitOr(0xFFFF_FFFF_FFFF_FFFF - x, 0xFFFF_FFFF_FFFF_FFFF - y, 64) <= 0xFFFF_FFFF_FFFF_FFFF
    ensures 0xFFFF_FFFF_FFFF_FFFF - BitOr(0xFFFF_FFFF_FFFF_FFFF - x, 0xFFFF_FFFF_FFFF_FFFF - y, 64) == BitAnd(x, y, 64)
  {
    assert Pow2(64) == TWO64 by { Widths64(); }
    var nx, ny := BitNot(x, 64), BitNot(y, 64);
    assert nx == 0xFFFF_FFFF_FFFF_FFFF - x && ny == 0xFFFF_FFFF_FFFF_FFFF - y;
    var t := BitOr(nx, ny, 64);
    DeMorganAnd(x, y, 64);
    assert BitNot(t, 64) == 0xFFFF_FFFF_FFFF_FFFF - t;
  }

  lemma ComplementOr(x: u64, y: u64)
    ensures BitAnd(0xFFFF_FFFF_FFFF_FFFF - x, 0xFFFF_FFFF_FFFF_FFFF - y, 64) <= 0xFFFF_FFFF_FFFF_FFFF
    ensures 0xFFFF_FFFF_FFFF_FFFF - BitAnd(0xFFFF_FFFF_FFFF_FFFF - x, 0xFFFF_FFFF_FFFF_FFFF - y, 64) == BitOr(x, y, 64)
  {
    assert Pow2(64) == TWO64 by { Widths64(); }
    var nx, ny := BitNot(x, 64), BitNot(y, 64);
    assert nx == 0xFFFF_FFFF_FFFF_FFFF - x && ny == 0xFFFF_FFFF_FFFF_FFFF - y;
    var t := BitAnd(nx, ny, 64);
    DeMorganOr(x, y, 64);
    assert BitNot(t, 64) == 0xFFFF_FFFF_FFFF_FFFF - t;
  }

  /** `~x`: every bit of the pattern inverted. */
  function Neg(x: i64): i64
  {
    -1 - x
  }

  lemma NegBits(x: i64)
    ensures forall i :: 0 <= i < 64 ==> Bit(Pattern(Neg(x), 64), i) == !Bit(Pattern(x, 64), i)
  {
    PatternOfComplement(x, 64);
    BitsOfNot(Pattern(x, 64), 64);
  }

  function UNeg(x: u64): u64
  {
    Widths64();
    BitNot(x, 64)
  }

  lemma UNegBits(x: u64)
    ensures forall i :: 0 <= i < 64 ==> Bit(UNeg(x), i) == !Bit(x, i)
  {
    Widths64();
    BitsOfNot(x, 64);
  }

  function Xor(x: i64, y: i64): i64
  {
    Widths64();
    SBitXor(x, y, 64)
  }

  lemma XorBits(x: i64, y: i64)
    ensures forall i :: 0 <= i < 64 ==> Bit(Pattern(Xor(x, y), 64), i) == (Bit(Pattern(x, 64), i) != Bit(Pattern(y, 64), i))
  {
    Widths64();
    PatternOfOps(x, y, 64);
    BitsOfOps(Pattern(x, 64), Pattern(y, 64), 64);
  }

  function UXor(x: u64, y: u64): u64
  {
    Widths64();
    BitXor(x, y, 64)
  }

  lemma UXorBits(x: u64, y: u64)
    ensures forall i :: 0 <= i < 64 ==> Bit(UXor(x, y), i) == (Bit(x, i) != Bit(y, i))
  {
    Widths64();
    BitsOfOps(x, y, 64);
  }
}
