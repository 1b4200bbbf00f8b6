/**
 * Ones'-complement coding of codings/ones_comp_32.h: a value is stored as its bitwise
 * complement `~x`. Every 32-bit word is the encoding of exactly one value, and each
 * operation on encodings yields the encoding of the native result of None32.
 */
module OnesComp32 {
  import opened Words
  import None32

  function Encode(x: i32): (r: i32)
    ensures Decode(r) == x
    ensures forall i :: 0 <= i < 32 ==> Bit(Pattern(r, 32), i) == !Bit(Pattern(x, 32), i)
  {
    None32.Neg(x)
  }

  function UEncode(x: u32): (r: u32)
    ensures UDecode(r) == x
    ensures forall i :: 0 <= i < 32 ==> Bit(r, i) == !Bit(x, i)
  {
    None32.UNeg(x)
  }

  function Decode(x_c1: i32): (r: i32)
    ensures forall i :: 0 <= i < 32 ==> Bit(Pattern(r, 32), i) == !Bit(Pattern(x_c1, 32), i)
  {
    None32.NegBits(x_c1);
    None32.Neg(x_c1)
  }

  function UDecode(x_c1: u32): (r: u32)
    ensures forall i :: 0 <= i < 32 ==> Bit(r, i) == !Bit(x_c1, i)
  {
    None32.UNegBits(x_c1);
    None32.UNeg(x_c1)
  }

  /** Every word is a valid encoding: decoding and re-encoding gives it back. */
  lemma EveryWordIsACode(x_c1: i32, u_c1: u32)
    ensures Encode(Decode(x_c1)) == x_c1 && UEncode(UDecode(u_c1)) == u_c1
  {
  }

  function Check(val: i32, valc: i32): (r: bool)
    ensures r <==> valc == Encode(val)
  {
    val == Decode(valc)
  }

  function UCheck(val: u32, valc: u32): (r: bool)
    ensures r <==> valc == UEncode(val)
  {
    val == UDecode(valc)
  }

  // Proof helpers: a word whose complement is congruent to the native result encodes it.

  lemma EncodeOfCong(r: i32, n: i32, v: int)
    requires Cong(-1 - r, v, TWO32) && Cong(n, v, TWO32)
    ensures r == Encode(n)
  {
    CongSame(-1 - r, n, v, -TWO31, TWO32);
  }

  lemma UEncodeOfCong(r: u32, n: u32, v: int)
    requires Cong(-1 - r, v, TWO32) && Cong(n, v, TWO32)
    ensures r == UEncode(n)
  {
    Widths32();
    MulIsCong(TWO32 - 1 - r, -1 - r, 1, TWO32);
    CongTrans(TWO32 - 1 - r, -1 - r, v, TWO32);
    CongSame(TWO32 - 1 - r, n, v, 0, TWO32);
  }

  /** `x_c1 + y_c1 + 1`: the complement of x + y. */
  function Add(x_c1: i32, y_c1: i32): (r: i32)
    ensures r == Encode(None32.Add(Decode(x_c1), Decode(y_c1)))
  {
    var s := x_c1 + y_c1 + 1;
    CongSub(-1, -1, SWrap32(s), s, TWO32);
    EncodeOfCong(SWrap32(s), None32.Add(Decode(x_c1), Decode(y_c1)), -1 - s);
    SWrap32(s)
  }

  function UAdd(x_c1: u32, y_c1: u32): (r: u32)
    ensures r == UEncode(None32.UAdd(UDecode(x_c1), UDecode(y_c1)))
  {
    var s := x_c1 + y_c1 + 1;
    Widths32();
    CongSub(-1, -1, Wrap32(s), s, TWO32);
    MulIsCong(UDecode(x_c1) + UDecode(y_c1), -1 - s, 2, TWO32);
    CongTrans(None32.UAdd(UDecode(x_c1), UDecode(y_c1)), UDecode(x_c1) + UDecode(y_c1), -1 - s, TWO32);
    UEncodeOfCong(Wrap32(s), None32.UAdd(UDecode(x_c1), UDecode(y_c1)), -1 - s);
    Wrap32(s)
  }

  /** `x_c1 - y_c1 - 1`: the complement of x - y. */
  function Sub(x_c1: i32, y_c1: i32): (r: i32)
    ensures r == Encode(None32.Sub(Decode(x_c1), Decode(y_c1)))
  {
    var s := x_c1 - y_c1 - 1;
    CongSub(-1, -1, SWrap32(s), s, TWO32);
    EncodeOfCong(SWrap32(s), None32.Sub(Decode(x_c1), Decode(y_c1)), -1 - s);
    SWrap32(s)
  }

  function USub(x_c1: u32, y_c1: u32): (r: u32)
    ensures r == UEncode(None32.USub(UDecode(x_c1), UDecode(y_c1)))
  {
    var s := x_c1 - y_c1 - 1;
    Widths32();
    CongSub(-1, -1, Wrap32(s), s, TWO32);
    assert UDecode(x_c1) - UDecode(y_c1) == -1 - s;
    UEncodeOfCong(Wrap32(s), None32.USub(UDecode(x_c1), UDecode(y_c1)), -1 - s);
    Wrap32(s)
  }

  /** `~((x_c1 + 1) * (y_c1 + 1))`: x_c1 + 1 is -x, so the product is x * y. */
  function Mul(x_c1: i32, y_c1: i32): (r: i32)
    ensures r == Encode(None32.Mul(Decode(x_c1), Decode(y_c1)))
  {
    var a: int, b: int := Decode(x_c1), Decode(y_c1);
    MulNeg(a, -b);
    MulNeg(a, b);
    -1 - SWrap32((x_c1 + 1) * (y_c1 + 1))
  }

  function UMul(x_c1: u32, y_c1: u32): (r: u32)
    ensures r == UEncode(None32.UMul(UDecode(x_c1), UDecode(y_c1)))
  {
    var a: int, b: int := UDecode(x_c1), UDecode(y_c1);
    Widths32();
    MulIsCong(x_c1 + 1, -a, 1, TWO32);
    MulIsCong(y_c1 + 1, -b, 1, TWO32);
    CongMul(x_c1 + 1, -a, y_c1 + 1, -b, TWO32);
    MulNeg(a, -b);
    MulNeg(a, b);
    WrapMCong((x_c1 + 1) * (y_c1 + 1), a * b, TWO32);
    None32.UNeg(Wrap32((x_c1 + 1) * (y_c1 + 1)))
  }

  /**
   * `~((x_c1 + 1) / (y_c1 + 1))`. The requires are C's conditions on the division it performs
   * (no division by zero, no MIN / -1). The dividend x_c1 + 1 overflows for x = MIN.
   */
  function Div(x_c1: i32, y_c1: i32): (r: i32)
    requires y_c1 != -1 && !(x_c1 == TWO31 - 1 && y_c1 == -2)
    ensures Decode(x_c1) != -TWO31 ==> r == Encode(None32.Div(Decode(x_c1), Decode(y_c1)))
  {
    CDivRange(SWrap32(x_c1 + 1), SWrap32(y_c1 + 1), TWO31);
    DivideDecoded(x_c1, y_c1);
    -1 - CDiv(SWrap32(x_c1 + 1), SWrap32(y_c1 + 1))
  }

  /** x_c1 + 1 is -x unless x is MIN, and y_c1 + 1 is -y after wrap-around. */
  lemma DivideDecoded(x_c1: i32, y_c1: i32)
    requires y_c1 != -1
    ensures Decode(x_c1) != -TWO31 ==>
      CDiv(SWrap32(x_c1 + 1), SWrap32(y_c1 + 1)) == CDiv(Decode(x_c1), Decode(y_c1)) &&
      CRem(SWrap32(x_c1 + 1), SWrap32(y_c1 + 1)) == -CRem(Decode(x_c1), Decode(y_c1))
  {
    if Decode(x_c1) != -TWO31 {
      assert SWrap32(x_c1 + 1) == -Decode(x_c1);
      assert y_c1 + 1 == -(Decode(y_c1) as int);
      CDivNegWrapped(Decode(x_c1), Decode(y_c1), TWO31);
    }
  }

  /**
   * Decode, divide, and re-encode only if the reverse check `q * y + x % y == x`
   * holds; otherwise the raw quotient is returned.
   */
  function UDiv(x_c1: u32, y_c1: u32): (r: u32)
    requires UDecode(y_c1) != 0
    ensures r == UEncode(None32.UDiv(UDecode(x_c1), UDecode(y_c1)))
  {
    var x_d1: u32, y_d1: u32 := UDecode(x_c1), UDecode(y_c1);
    var q: u32 := None32.UDiv(x_d1, y_d1);
    None32.ReverseCheck(x_d1, y_d1);
    if Wrap32(q * y_d1 + None32.UMod(x_d1, y_d1)) == x_d1 then None32.UNeg(q) else q
  }

  /** `(x_c1 + 1) % (y_c1 + 1) - 1`, under the same C conditions as Div. */
  function Mod(x_c1: i32, y_c1: i32): (r: i32)
    requires y_c1 != -1 && !(x_c1 == TWO31 - 1 && y_c1 == -2)
    ensures Decode(x_c1) != -TWO31 ==> r == Encode(None32.Mod(Decode(x_c1), Decode(y_c1)))
  {
    DivideDecoded(x_c1, y_c1);
    CRem(SWrap32(x_c1 + 1), SWrap32(y_c1 + 1)) - 1
  }

  function UMod(x_c1: u32, y_c1: u32): (r: u32)
    requires UDecode(y_c1) != 0
    ensures r == UEncode(None32.UMod(UDecode(x_c1), UDecode(y_c1)))
  {
    var x_d1: u32, y_d1: u32 := UDecode(x_c1), UDecode(y_c1);
    var m: u32 := None32.UMod(x_d1, y_d1);
    None32.ReverseCheck(x_d1, y_d1);
    if Wrap32(None32.UDiv(x_d1, y_d1) * y_d1 + m) == x_d1 then None32.UNeg(m) else m
  }

  // Comparisons: `-(b) - 1` is `~b`, the encoding of the truth value b. Complementing
  // reverses the order, so less compares with `>` and so on.

  function Eq(x_c1: i32, y_c1: i32): (r: i32)
    ensures r == Encode(None32.Eq(Decode(x_c1), Decode(y_c1)))
  {
    -B2I(x_c1 == y_c1) - 1
  }

  function UEq(x_c1: u32, y_c1: u32): (r: u32)
    ensures r == UEncode(None32.UEq(UDecode(x_c1), UDecode(y_c1)))
  {
    Widths32();
    Wrap32(-B2I(x_c1 == y_c1) - 1)
  }

  function Neq(x_c1: i32, y_c1: i32): (r: i32)
    ensures r == Encode(None32.Neq(Decode(x_c1), Decode(y_c1)))
  {
    -B2I(x_c1 != y_c1) - 1
  }

  function UNeq(x_c1: u32, y_c1: u32): (r: u32)
    ensures r == UEncode(None32.UNeq(UDecode(x_c1), UDecode(y_c1)))
  {
    Widths32();
    Wrap32(-B2I(x_c1 != y_c1) - 1)
  }

  function Less(x_c1: i32, y_c1: i32): (r: i32)
    ensures r == Encode(None32.Less(Decode(x_c1), Decode(y_c1)))
  {
    -B2I(x_c1 > y_c1) - 1
  }

  function ULess(x_c1: u32, y_c1: u32): (r: u32)
    ensures r == UEncode(None32.ULess(UDecode(x_c1), UDecode(y_c1)))
  {
    Widths32();
    Wrap32(-B2I(x_c1 > y_c1) - 1)
  }

  function Grt(x_c1: i32, y_c1: i32): (r: i32)
    ensures r == Encode(None32.Grt(Decode(x_c1), Decode(y_c1)))
  {
    -B2I(x_c1 < y_c1) - 1
  }

  function UGrt(x_c1: u32, y_c1: u32): (r: u32)
    ensures r == UEncode(None32.UGrt(UDecode(x_c1), UDecode(y_c1)))
  {
    Widths32();
    Wrap32(-B2I(x_c1 < y_c1) - 1)
  }

  function Leq(x_c1: i32, y_c1: i32): (r: i32)
    ensures r == Encode(None32.Leq(Decode(x_c1), Decode(y_c1)))
  {
    -B2I(x_c1 >= y_c1) - 1
  }

  function ULeq(x_c1: u32, y_c1: u32): (r: u32)
    ensures r == UEncode(None32.ULeq(UDecode(x_c1), UDecode(y_c1)))
  {
    Widths32();
    Wrap32(-B2I(x_c1 >= y_c1) - 1)
  }

  function Geq(x_c1: i32, y_c1: i32): (r: i32)
    ensures r == Encode(None32.Geq(Decode(x_c1), Decode(y_c1)))
  {
    -B2I(x_c1 <= y_c1) - 1
  }

  function UGeq(x_c1: u32, y_c1: u32): (r: u32)
    ensures r == UEncode(None32.UGeq(UDecode(x_c1), UDecode(y_c1)))
  {
    Widths32();
    Wrap32(-B2I(x_c1 <= y_c1) - 1)
  }

  /** `((x_c1 + 1) << y) - 1` with y the decoded shift amount. */
  function Shl(x_c1: i32, y_c1: i32): (r: i32)
    requires 0 <= Decode(y_c1) < 32
    ensures r == Encode(None32.Shl(Decode(x_c1), Decode(y_c1)))
  {
    var y := Decode(y_c1);
    var s := (x_c1 + 1) * Pow2(y) - 1;
    MulNeg(Decode(x_c1), Pow2(y));
    CongSub(-1, -1, SWrap32(s), s, TWO32);
    EncodeOfCong(SWrap32(s), None32.Shl(Decode(x_c1), y), -1 - s);
    SWrap32(s)
  }

  function UShl(x_c1: u32, y_c1: u32): (r: u32)
    requires UDecode(y_c1) < 32
    ensures r == UEncode(None32.UShl(UDecode(x_c1), UDecode(y_c1)))
  {
    var y := UDecode(y_c1);
    var s := (x_c1 + 1) * Pow2(y) - 1;
    Widths32();
    var a: int := UDecode(x_c1);
    MulIsCong(x_c1 + 1, -a, 1, TWO32);
    CongMul(x_c1 + 1, -a, Pow2(y), Pow2(y), TWO32);
    MulNeg(a, Pow2(y));
    CongSub(-1, -1, Wrap32(s), s, TWO32);
    CongSub(-1, -1, s, -a * Pow2(y) - 1, TWO32);
    CongTrans(-1 - Wrap32(s), -1 - s, a * Pow2(y), TWO32);
    UEncodeOfCong(Wrap32(s), None32.UShl(UDecode(x_c1), y), a * Pow2(y));
    Wrap32(s)
  }

  /**
   * `u_div(x_c1, ~(1 << y))`. The shift `1 << y` is done on a 32-bit int, so it is
   * defined only for y < 31; `~` of it, converted to the word, is the encoding of 2^y.
   */
  function UShr(x_c1: u32, y_c1: u32): (r: u32)
    requires UDecode(y_c1) < 31
    ensures r == UEncode(None32.UShrCorrected(UDecode(x_c1), UDecode(y_c1)))
  {
    var y := UDecode(y_c1);
    Widths32();
    Pow2Mono(y, 31);
    var d := Wrap32(-1 - Pow2(y));
    assert d == UEncode(Pow2(y));
    UDiv(x_c1, d)
  }

  /** `-(x_c1 + 1 && y_c1 + 1) - 1`: x_c1 + 1 is zero exactly when x is zero. */
  function Land(x_c1: i32, y_c1: i32): (r: i32)
    ensures r == Encode(None32.Land(Decode(x_c1), Decode(y_c1)))
  {
    -B2I(SWrap32(x_c1 + 1) != 0 && SWrap32(y_c1 + 1) != 0) - 1
  }

  function ULand(x_c1: u32, y_c1: u32): (r: u32)
    ensures r == UEncode(None32.ULand(UDecode(x_c1), UDecode(y_c1)))
  {
    Widths32();
    Wrap32(-B2I(Wrap32(x_c1 + 1) != 0 && Wrap32(y_c1 + 1) != 0) - 1)
  }

  function Lor(x_c1: i32, y_c1: i32): (r: i32)
    ensures r == Encode(None32.Lor(Decode(x_c1), Decode(y_c1)))
  {
    -B2I(SWrap32(x_c1 + 1) != 0 || SWrap32(y_c1 + 1) != 0) - 1
  }

  /** Delegates to the signed Lor; the operands and the result are converted. */
  function ULor(x_c1: u32, y_c1: u32): (r: u32)
    ensures r == UEncode(None32.ULor(UDecode(x_c1), UDecode(y_c1)))
  {
    Widths32();
    SWrapOfUnsigned(x_c1, TWO31);
    SWrapOfUnsigned(y_c1, TWO31);
    Wrap32(Lor(SWrap32(x_c1), SWrap32(y_c1)))
  }

  /** A code's complement is its value, so or on codes encodes and on values. */
  lemma OrOfCodes(x_c1: i32, y_c1: i32)
    ensures None32.Or(x_c1, y_c1) == Encode(None32.And(Decode(x_c1), Decode(y_c1)))
  {
    var a, b := Decode(x_c1), Decode(y_c1);
    assert -1 - a == x_c1 && -1 - b == y_c1;
    Widths32();
    SignedComplementSwaps(a, b, 32);
  }

  /** Likewise and on codes encodes or on values. */
  lemma AndOfCodes(x_c1: i32, y_c1: i32)
    ensures None32.And(x_c1, y_c1) == Encode(None32.Or(Decode(x_c1), Decode(y_c1)))
  {
    var a, b := Decode(x_c1), Decode(y_c1);
    assert -1 - a == x_c1 && -1 - b == y_c1;
    Widths32();
    SignedComplementSwaps(a, b, 32);
  }

  /** `x_c1 | y_c1`: or of the complements is the complement of and. */
  function And(x_c1: i32, y_c1: i32): (r: i32)
    ensures r == Encode(None32.And(Decode(x_c1), Decode(y_c1)))
  {
    OrOfCodes(x_c1, y_c1);
    None32.Or(x_c1, y_c1)
  }

  // The unsigned bitwise operations delegate to the signed ones, with conversions.

  lemma UnsignedView(u: u32)
    ensures Pattern(SWrap32(u), 32) == u
  {
    Widths32();
    PatternOfSigned(u, 32);
  }

  function UAnd(x_c1: u32, y_c1: u32): (r: u32)
    ensures r == UEncode(None32.UAnd(UDecode(x_c1), UDecode(y_c1)))
  {
    Widths32();
    UnsignedView(x_c1);
    UnsignedView(y_c1);
    PatternOfOps(SWrap32(x_c1), SWrap32(y_c1), 32);
    ComplementSwaps(UDecode(x_c1), UDecode(y_c1), 32);
    Wrap32(And(SWrap32(x_c1), SWrap32(y_c1)))
  }

  /** `x_c1 & y_c1`: and of the complements is the complement of or. */
  function Or(x_c1: i32, y_c1: i32): (r: i32)
    ensures r == Encode(None32.Or(Decode(x_c1), Decode(y_c1)))
  {
    AndOfCodes(x_c1, y_c1);
    None32.And(x_c1, y_c1)
  }

  function UOr(x_c1: u32, y_c1: u32): (r: u32)
    ensures r == UEncode(None32.UOr(UDecode(x_c1), UDecode(y_c1)))
  {
    Widths32();
    UnsignedView(x_c1);
    UnsignedView(y_c1);
    PatternOfOps(SWrap32(x_c1), SWrap32(y_c1), 32);
    ComplementSwaps(UDecode(x_c1), UDecode(y_c1), 32);
    Wrap32(Or(SWrap32(x_c1), SWrap32(y_c1)))
  }

  function Neg(x_c1: i32): (r: i32)
    ensures r == Encode(None32.Neg(Decode(x_c1)))
  {
    None32.Neg(x_c1)
  }

  function UNeg(x_c1: u32): (r: u32)
    ensures r == UEncode(None32.UNeg(UDecode(x_c1)))
  {
    Widths32();
    UnsignedView(x_c1);
    PatternOfComplement(SWrap32(x_c1), 32);
    Wrap32(Neg(SWrap32(x_c1)))
  }

  /** `~(x_c1 ^ y_c1)`: complementing both operands leaves xor unchanged. */
  function Xor(x_c1: i32, y_c1: i32): (r: i32)
    ensures r == Encode(None32.Xor(Decode(x_c1), Decode(y_c1)))
  {
    Widths32();
    SignedXorNotNot(Decode(x_c1), Decode(y_c1), 32);
    None32.Neg(None32.Xor(x_c1, y_c1))
  }

  function UXor(x_c1: u32, y_c1: u32): (r: u32)
    ensures r == UEncode(None32.UXor(UDecode(x_c1), UDecode(y_c1)))
  {
    Widths32();
    XorNotNot(UDecode(x_c1), UDecode(y_c1), 32);
    None32.UNeg(None32.UXor(x_c1, y_c1))
  }
}
