/**
 * The uncoded baseline of codings/none_32.h: encode and decode are the identity and
 * every operation is the native 32-bit C operator. The other codings state their
 * homomorphisms against these functions.
 */
module None32 {
  import opened Words

  function Encode(x: i32): (r: i32)
    ensures Decode(r) == x
  {
    x
  }

  function UEncode(x: u32): (r: u32)
    ensures UDecode(r) == x
  {
    x
  }

  function Decode(x: i32): i32 { x }
  function UDecode(x: u32): u32 { x }

  /** Signed `+`, `-`, `*` wrap around (two's complement); exact when the result fits. */
  function Add(x: i32, y: i32): (r: i32)
    ensures Cong(r, x + y, TWO32)
    ensures -TWO31 <= x + y < TWO31 ==> r == x + y
  {
    SWrap32(x + y)
  }

  function UAdd(x: u32, y: u32): (r: u32)
    ensures Cong(r, x + y, TWO32)
    ensures x + y < TWO32 ==> r == x + y
  {
    Wrap32(x + y)
  }

  function Sub(x: i32, y: i32): (r: i32)
    ensures Cong(r, x - y, TWO32)
    ensures -TWO31 <= x - y < TWO31 ==> r == x - y
  {
    SWrap32(x - y)
  }

  function USub(x: u32, y: u32): (r: u32)
    ensures Cong(r, x - y, TWO32)
    ensures y <= x ==> r == x - y
  {
    Wrap32(x - y)
  }

  function Mul(x: i32, y: i32): (r: i32)
    ensures Cong(r, x * y, TWO32)
    ensures -TWO31 <= x * y < TWO31 ==> r == x * y
  {
    SWrap32(x * y)
  }

  function UMul(x: u32, y: u32): (r: u32)
    ensures Cong(r, x * y, TWO32)
    ensures x * y < TWO32 ==> r == x * y
  {
    Wrap32(x * y)
  }

  /** Signed `/` truncates toward zero; division by zero and MIN / -1 are undefined in C. */
  function Div(x: i32, y: i32): (r: i32)
    requires y != 0 && !(x == -TWO31 && y == -1)
    ensures Abs(x - r * y) < Abs(y)
    ensures x - r * y == 0 || (x - r * y > 0) == (x > 0)
  {
    CDivRange(x, y, TWO31);
    CDiv(x, y)
  }

  function UDiv(x: u32, y: u32): (r: u32)
    requires y != 0
    ensures r * y <= x < r * y + y
  {
    x / y
  }

  /** The reverse check `q * y + x % y == x` of the coded divisions holds for every dividend and non-zero divisor. */
  lemma ReverseCheck(x: u32, y: u32)
    requires y != 0
    ensures Wrap32(UDiv(x, y) * y + UMod(x, y)) == x
  {
    assert (x / y) * y + x % y == x;
  }

  /** Signed `%` takes the sign of the dividend. */
  function Mod(x: i32, y: i32): (r: i32)
    requires y != 0 && !(x == -TWO31 && y == -1)
    ensures Abs(r) < Abs(y) && Cong(r, x, Abs(y))
    ensures r == 0 || (r > 0) == (x > 0)
  {
    CRem(x, y)
  }

  function UMod(x: u32, y: u32): (r: u32)
    requires y != 0
    ensures r < y && Cong(r, x, y)
  {
    CongMod(x, y);
    x % y
  }

  // Relational operators yield 1 or 0.

  function Eq(x: i32, y: i32): (r: i32)
    ensures r == 0 || r == 1
    ensures r == 1 <==> x == y
  {
    B2I(x == y)
  }

  function UEq(x: u32, y: u32): (r: u32)
    ensures r == 0 || r == 1
    ensures r == 1 <==> x == y
  {
    B2I(x == y)
  }

  function Neq(x: i32, y: i32): (r: i32)
    ensures r == 0 || r == 1
    ensures r == 1 <==> x != y
  {
    B2I(x != y)
  }

  function UNeq(x: u32, y: u32): (r: u32)
    ensures r == 0 || r == 1
    ensures r == 1 <==> x != y
  {
    B2I(x != y)
  }

  function Less(x: i32, y: i32): (r: i32)
    ensures r == 0 || r == 1
    ensures r == 1 <==> x < y
  {
    B2I(x < y)
  }

  function ULess(x: u32, y: u32): (r: u32)
    ensures r == 0 || r == 1
    ensures r == 1 <==> x < y
  {
    B2I(x < y)
  }

  function Grt(x: i32, y: i32): (r: i32)
    ensures r == 0 || r == 1
    ensures r == 1 <==> x > y
  {
    B2I(x > y)
  }

  function UGrt(x: u32, y: u32): (r: u32)
    ensures r == 0 || r == 1
    ensures r == 1 <==> x > y
  {
    B2I(x > y)
  }

  function Leq(x: i32, y: i32): (r: i32)
    ensures r == 0 || r == 1
    ensures r == 1 <==> x <= y
  {
    B2I(x <= y)
  }

  function ULeq(x: u32, y: u32): (r: u32)
    ensures r == 0 || r == 1
    ensures r == 1 <==> x <= y
  {
    B2I(x <= y)
  }

  function Geq(x: i32, y: i32): (r: i32)
    ensures r == 0 || r == 1
    ensures r == 1 <==> x >= y
  {
    B2I(x >= y)
  }

  function UGeq(x: u32, y: u32): (r: u32)
    ensures r == 0 || r == 1
    ensures r == 1 <==> x >= y
  {
    B2I(x >= y)
  }

  /** `x << y`: multiplication by 2^y, wrapped; a shift by the width or more is undefined in C. */
  function Shl(x: i32, y: i32): (r: i32)
    requires 0 <= y < 32
    ensures Cong(r, x * Pow2(y), TWO32)
  {
    SWrap32(x * Pow2(y))
  }

  function UShl(x: u32, y: u32): (r: u32)
    requires y < 32
    ensures Cong(r, x * Pow2(y), TWO32)
  {
    Wrap32(x * Pow2(y))
  }

  /** The unsigned right shift of the baseline is a stub: it returns 0 whatever its operands. */
  function UShr(x: u32, y: u32): (r: u32)
    ensures r == 0
  {
    0
  }

  /** The stub discards the value: `2 >> 1` is 1, the stub gives 0. */
  lemma UShrStubDiffers()
    ensures UShr(2, 1) == 0 && UShrCorrected(2, 1) == 1
  {
    assert Pow2(1) == 2;
  }

  /** The logical right shift the stub stands in for: the floor of x / 2^y. */
  function UShrCorrected(x: u32, y: u32): (r: u32)
    requires y < 32
    ensures r * Pow2(y) <= x < (r + 1) * Pow2(y)
  {
    DivBounds(x, Pow2(y));
    x / Pow2(y)
  }

  function Land(x: i32, y: i32): (r: i32)
    ensures r == 0 || r == 1
    ensures r == 1 <==> x != 0 && y != 0
  {
    B2I(x != 0 && y != 0)
  }

  function ULand(x: u32, y: u32): (r: u32)
    ensures r == 0 || r == 1
    ensures r == 1 <==> x != 0 && y != 0
  {
    B2I(x != 0 && y != 0)
  }

  function Lor(x: i32, y: i32): (r: i32)
    ensures r == 0 || r == 1
    ensures r == 1 <==> x != 0 || y != 0
  {
    B2I(x != 0 || y != 0)
  }

  function ULor(x: u32, y: u32): (r: u32)
    ensures r == 0 || r == 1
    ensures r == 1 <==> x != 0 || y != 0
  {
    B2I(x != 0 || y != 0)
  }

  // Bitwise operators act on the two's-complement bit patterns, bit by bit; the lemmas
  // after each operator state this bit by bit.

  function And(x: i32, y: i32): i32
  {
    Widths32();
    SBitAnd(x, y, 32)
  }

  lemma AndBits(x: i32, y: i32)
    ensures forall i :: 0 <= i < 32 ==> Bit(Pattern(And(x, y), 32), i) == (Bit(Pattern(x, 32), i) && Bit(Pattern(y, 32), i))
  {
    Widths32();
    PatternOfOps(x, y, 32);
    BitsOfOps(Pattern(x, 32), Pattern(y, 32), 32);
  }

  function UAnd(x: u32, y: u32): u32
  {
    Widths32();
    BitAnd(x, y, 32)
  }

  lemma UAndBits(x: u32, y: u32)
    ensures forall i :: 0 <= i < 32 ==> Bit(UAnd(x, y), i) == (Bit(x, i) && Bit(y, i))
  {
    Widths32();
    BitsOfOps(x, y, 32);
  }

  function Or(x: i32, y: i32): i32
  {
    Widths32();
    SBitOr(x, y, 32)
  }

  lemma OrBits(x: i32, y: i32)
    ensures forall i :: 0 <= i < 32 ==> Bit(Pattern(Or(x, y), 32), i) == (Bit(Pattern(x, 32), i) || Bit(Pattern(y, 32), i))
  {
    Widths32();
    PatternOfOps(x, y, 32);
    BitsOfOps(Pattern(x, 32), Pattern(y, 32), 32);
  }

  function UOr(x: u32, y: u32): u32
  {
    Widths32();
    BitOr(x, y, 32)
  }

  lemma UOrBits(x: u32, y: u32)
    ensures forall i :: 0 <= i < 32 ==> Bit(UOr(x, y), i) == (Bit(x, i) || Bit(y, i))
  {
    Widths32();
    BitsOfOps(x, y, 32);
  }

  /** De Morgan on unsigned 32-bit values, with the complement written as `0xFFFF_FFFF - v`. */
  lemma ComplementAnd(x: u32, y: u32)
    ensures BitOr(0xFFFF_FFFF - x, 0xFFFF_FFFF - y, 32) <= 0xFFFF_FFFF
    ensures 0xFFFF_FFFF - BitOr(0xFFFF_FFFF - x, 0xFFFF_FFFF - y, 32) == BitAnd(x, y, 32)
  {
    assert Pow2(32) == TWO32 by { Widths32(); }
    var nx, ny := BitNot(x, 32), BitNot(y, 32);
    assert nx == 0xFFFF_FFFF - x && ny == 0xFFFF_FFFF - y;
    var t := BitOr(nx, ny, 32);
    DeMorganAnd(x, y, 32);
    assert BitNot(t, 32) == 0xFFFF_FFFF - t;
  }

  lemma ComplementOr(x: u32, y: u32)
    ensures BitAnd(0xFFFF_FFFF - x, 0xFFFF_FFFF - y, 32) <= 0xFFFF_FFFF
    ensures 0xFFFF_FFFF - BitAnd(0xFFFF_FFFF - x, 0xFFFF_FFFF - y, 32) == BitOr(x, y, 32)
  {
    assert Pow2(32) == TWO32 by { Widths32(); }
    var nx, ny := BitNot(x, 32), BitNot(y, 32);
    assert nx == 0xFFFF_FFFF - x && ny == 0xFFFF_FFFF - y;
    var t := BitAnd(nx, ny, 32);
    DeMorganOr(x, y, 32);
    assert BitNot(t, 32) == 0xFFFF_FFFF - t;
  }

  /** `~x`: every bit of the pattern inverted. */
  function Neg(x: i32): i32
  {
    -1 - x
  }

  lemma NegBits(x: i32)
    ensures forall i :: 0 <= i < 32 ==> Bit(Pattern(Neg(x), 32), i) == !Bit(Pattern(x, 32), i)
  {
    PatternOfComplement(x, 32);
    BitsOfNot(Pattern(x, 32), 32);
  }

  function UNeg(x: u32): u32
  {
    Widths32();
    BitNot(x, 32)
  }

  lemma UNegBits(x: u32)
    ensures forall i :: 0 <= i < 32 ==> Bit(UNeg(x), i) == !Bit(x, i)
  {
    Widths32();
    BitsOfNot(x, 32);
  }

  function Xor(x: i32, y: i32): i32
  {
    Widths32();
    SBitXor(x, y, 32)
  }

  lemma XorBits(x: i32, y: i32)
    ensures forall i :: 0 <= i < 32 ==> Bit(Pattern(Xor(x, y), 32), i) == (Bit(Pattern(x, 32), i) != Bit(Pattern(y, 32), i))
  {
    Widths32();
    PatternOfOps(x, y, 32);
    BitsOfOps(Pattern(x, 32), Pattern(y, 32), 32);
  }

  function UXor(x: u32, y: u32): u32
  {
    Widths32();
    BitXor(x, y, 32)
  }

  lemma UXorBits(x: u32, y: u32)
    ensures forall i :: 0 <= i < 32 ==> Bit(UXor(x, y), i) == (Bit(x, i) != Bit(y, i))
  {
    Widths32();
    BitsOfOps(x, y, 32);
  }
}
