/**
 * Ones'-complement coding of codings/ones_comp_64.h: a value is stored as its bitwise
 * complement `~x`. Every 64-bit word is the encoding of exactly one value, and each
 * operation on encodings yields the encoding of the native result of None64.
 */
module OnesComp64 {
  import opened Words
  import None64

  function Encode(x: i64): (r: i64)
    ensures Decode(r) == x
    ensures forall i :: 0 <= i < 64 ==> Bit(Pattern(r, 64), i) == !Bit(Pattern(x, 64), i)
  {
    None64.Neg(x)
  }

  function UEncode(x: u64): (r: u64)
    ensures UDecode(r) == x
    ensures forall i :: 0 <= i < 64 ==> Bit(r, i) == !Bit(x, i)
  {
    None64.UNeg(x)
  }

  function Decode(x_c1: i64): (r: i64)
    ensures forall i :: 0 <= i < 64 ==> Bit(Pattern(r, 64), i) == !Bit(Pattern(x_c1, 64), i)
  {
    None64.NegBits(x_c1);
    None64.Neg(x_c1)
  }

  function UDecode(x_c1: u64): (r: u64)
    ensures forall i :: 0 <= i < 64 ==> Bit(r, i) == !Bit(x_c1, i)
  {
    None64.UNegBits(x_c1);
    None64.UNeg(x_c1)
  }

  /** Every word is a valid encoding: decoding and re-encoding gives it back. */
  lemma EveryWordIsACode(x_c1: i64, u_c1: u64)
    ensures Encode(Decode(x_c1)) == x_c1 && UEncode(UDecode(u_c1)) == u_c1
  {
  }

  function Check(val: i64, valc: i64): (r: bool)
    ensures r <==> valc == Encode(val)
  {
    val == Decode(valc)
  }

  function UCheck(val: u64, valc: u64): (r: bool)
    ensures r <==> valc == UEncode(val)
  {
    val == UDecode(valc)
  }

  // Proof helpers: a word whose complement is congruent to the native result encodes it.

  lemma EncodeOfCong(r: i64, n: i64, v: int)
    requires Cong(-1 - r, v, TWO64) && Cong(n, v, TWO64)
    ensures r == Encode(n)
  {
    CongSame(-1 - r, n, v, -TWO63, TWO64);
  }

  lemma UEncodeOfCong(r: u64, n: u64, v: int)
    requires Cong(-1 - r, v, TWO64) && Cong(n, v, TWO64)
    ensures r == UEncode(n)
  {
    Widths64();
    MulIsCong(TWO64 - 1 - r, -1 - r, 1, TWO64);
    CongTrans(TWO64 - 1 - r, -1 - r, v, TWO64);
    CongSame(TWO64 - 1 - r, n, v, 0, TWO64);
  }

  /** `x_c1 + y_c1 + 1`: the complement of x + y. */
  function Add(x_c1: i64, y_c1: i64): (r: i64)
    ensures r == Encode(None64.Add(Decode(x_c1), Decode(y_c1)))
  {
    var s := x_c1 + y_c1 + 1;
    CongSub(-1, -1, SWrap64(s), s, TWO64);
    EncodeOfCong(SWrap64(s), None64.Add(Decode(x_c1), Decode(y_c1)), -1 - s);
    SWrap64(s)
  }

  function UAdd(x_c1: u64, y_c1: u64): (r: u64)
    ensures r == UEncode(None64.UAdd(UDecode(x_c1), UDecode(y_c1)))
  {
    var s := x_c1 + y_c1 + 1;
    Widths64();
    CongSub(-1, -1, Wrap64(s), s, TWO64);
    MulIsCong(UDecode(x_c1) + UDecode(y_c1), -1 - s, 2, TWO64);
    CongTrans(None64.UAdd(UDecode(x_c1), UDecode(y_c1)), UDecode(x_c1) + UDecode(y_c1), -1 - s, TWO64);
    UEncodeOfCong(Wrap64(s), None64.UAdd(UDecode(x_c1), UDecode(y_c1)), -1 - s);
    Wrap64(s)
  }

  /** `x_c1 - y_c1 - 1`: the complement of x - y. */
  function Sub(x_c1: i64, y_c1: i64): (r: i64)
    ensures r == Encode(None64.Sub(Decode(x_c1), Decode(y_c1)))
  {
    var s := x_c1 - y_c1 - 1;
    CongSub(-1, -1, SWrap64(s), s, TWO64);
    EncodeOfCong(SWrap64(s), None64.Sub(Decode(x_c1), Decode(y_c1)), -1 - s);
    SWrap64(s)
  }

  function USub(x_c1: u64, y_c1: u64): (r: u64)
    ensures r == UEncode(None64.USub(UDecode(x_c1), UDecode(y_c1)))
  {
    var s := x_c1 - y_c1 - 1;
    Widths64();
    CongSub(-1, -1, Wrap64(s), s, TWO64);
    assert UDecode(x_c1) - UDecode(y_c1) == -1 - s;
    UEncodeOfCong(Wrap64(s), None64.USub(UDecode(x_c1), UDecode(y_c1)), -1 - s);
    Wrap64(s)
  }

  /** `~((x_c1 + 1) * (y_c1 + 1))`: x_c1 + 1 is -x, so the product is x * y. */
  function Mul(x_c1: i64, y_c1: i64): (r: i64)
    ensures r == Encode(None64.Mul(Decode(x_c1), Decode(y_c1)))
  {
    var a: int, b: int := Decode(x_c1), Decode(y_c1);
    MulNeg(a, -b);
    MulNeg(a, b);
    -1 - SWrap64((x_c1 + 1) * (y_c1 + 1))
  }

  function UMul(x_c1: u64, y_c1: u64): (r: u64)
    ensures r == UEncode(None64.UMul(UDecode(x_c1), UDecode(y_c1)))
  {
    var a: int, b: int := UDecode(x_c1), UDecode(y_c1);
    Widths64();
    MulIsCong(x_c1 + 1, -a, 1, TWO64);
    MulIsCong(y_c1 + 1, -b, 1, TWO64);
    CongMul(x_c1 + 1, -a, y_c1 + 1, -b, TWO64);
    MulNeg(a, -b);
    MulNeg(a, b);
    WrapMCong((x_c1 + 1) * (y_c1 + 1), a * b, TWO64);
    None64.UNeg(Wrap64((x_c1 + 1) * (y_c1 + 1)))
  }

  /**
   * `~((x_c1 + 1) / (y_c1 + 1))`. The requires are C's conditions on the division it performs
   * (no division by zero, no MIN / -1). The dividend x_c1 + 1 overflows for x = MIN.
   */
  function Div(x_c1: i64, y_c1: i64): (r: i64)
    requires y_c1 != -1 && !(x_c1 == TWO63 - 1 && y_c1 == -2)
    ensures Decode(x_c1) != -TWO63 ==> r == Encode(None64.Div(Decode(x_c1), Decode(y_c1)))
  {
    CDivRange(SWrap64(x_c1 + 1), SWrap64(y_c1 + 1), TWO63);
    DivideDecoded(x_c1, y_c1);
    -1 - CDiv(SWrap64(x_c1 + 1), SWrap64(y_c1 + 1))
  }

  /** x_c1 + 1 is -x unless x is MIN, and y_c1 + 1 is -y after wrap-around. */
  lemma DivideDecoded(x_c1: i64, y_c1: i64)
    requires y_c1 != -1
    ensures Decode(x_c1) != -TWO63 ==>
      CDiv(SWrap64(x_c1 + 1), SWrap64(y_c1 + 1)) == CDiv(Decode(x_c1), Decode(y_c1)) &&
      CRem(SWrap64(x_c1 + 1), SWrap64(y_c1 + 1)) == -CRem(Decode(x_c1), Decode(y_c1))
  {
    if Decode(x_c1) != -TWO63 {
      assert SWrap64(x_c1 + 1) == -Decode(x_c1);
      assert y_c1 + 1 == -(Decode(y_c1) as int);
      CDivNegWrapped(Decode(x_c1), Decode(y_c1), TWO63);
    }
  }

  /**
   * Decode, divide, and re-encode only if the reverse check `q * y + x % y == x`
   * holds; otherwise the raw quotient is returned.
   */
  function UDiv(x_c1: u64, y_c1: u64): (r: u64)
    requires UDecode(y_c1) != 0
    ensures r == UEncode(None64.UDiv(UDecode(x_c1), UDecode(y_c1)))
  {
    var x_d1: u64, y_d1: u64 := UDecode(x_c1), UDecode(y_c1);
    var q: u64 := None64.UDiv(x_d1, y_d1);
    None64.ReverseCheck(x_d1, y_d1);
    if Wrap64(q * y_d1 + None64.UMod(x_d1, y_d1)) == x_d1 then None64.UNeg(q) else q
  }

  /** `(x_c1 + 1) % (y_c1 + 1) - 1`, under the same C conditions as Div. */
  function Mod(x_c1: i64, y_c1: i64): (r: i64)
    requires y_c1 != -1 && !(x_c1 == TWO63 - 1 && y_c1 == -2)
    ensures Decode(x_c1) != -TWO63 ==> r == Encode(None64.Mod(Decode(x_c1), Decode(y_c1)))
  {
    DivideDecoded(x_c1, y_c1);
    CRem(SWrap64(x_c1 + 1), SWrap64(y_c1 + 1)) - 1
  }

  function UMod(x_c1: u64, y_c1: u64): (r: u64)
    requires UDecode(y_c1) != 0
    ensures r == UEncode(None64.UMod(UDecode(x_c1), UDecode(y_c1)))
  {
    var x_d1: u64, y_d1: u64 := UDecode(x_c1), UDecode(y_c1);
    var m: u64 := None64.UMod(x_d1, y_d1);
    None64.ReverseCheck(x_d1, y_d1);
    if Wrap64(None64.UDiv(x_d1, y_d1) * y_d1 + m) == x_d1 then None64.UNeg(m) else m
  }

  // Comparisons: `-(b) - 1` is `~b`, the encoding of the truth value b. Complementing
  // reverses the order, so less compares with `>` and so on.

  function Eq(x_c1: i64, y_c1: i64): (r: i64)
    ensures r == Encode(None64.Eq(Decode(x_c1), Decode(y_c1)))
  {
    -B2I(x_c1 == y_c1) - 1
  }

  function UEq(x_c1: u64, y_c1: u64): (r: u64)
    ensures r == UEncode(None64.UEq(UDecode(x_c1), UDecode(y_c1)))
  {
    Widths64();
    Wrap64(-B2I(x_c1 == y_c1) - 1)
  }

  function Neq(x_c1: i64, y_c1: i64): (r: i64)
    ensures r == Encode(None64.Neq(Decode(x_c1), Decode(y_c1)))
  {
    -B2I(x_c1 != y_c1) - 1
  }

  function UNeq(x_c1: u64, y_c1: u64): (r: u64)
    ensures r == UEncode(None64.UNeq(UDecode(x_c1), UDecode(y_c1)))
  {
    Widths64();
    Wrap64(-B2I(x_c1 != y_c1) - 1)
  }

  function Less(x_c1: i64, y_c1: i64): (r: i64)
    ensures r == Encode(None64.Less(Decode(x_c1), Decode(y_c1)))
  {
    -B2I(x_c1 > y_c1) - 1
  }

  function ULess(x_c1: u64, y_c1: u64): (r: u64)
    ensures r == UEncode(None64.ULess(UDecode(x_c1), UDecode(y_c1)))
  {
    Widths64();
    Wrap64(-B2I(x_c1 > y_c1) - 1)
  }

  function Grt(x_c1: i64, y_c1: i64): (r: i64)
    ensures r == Encode(None64.Grt(Decode(x_c1), Decode(y_c1)))
  {
    -B2I(x_c1 < y_c1) - 1
  }

  function UGrt(x_c1: u64, y_c1: u64): (r: u64)
    ensures r == UEncode(None64.UGrt(UDecode(x_c1), UDecode(y_c1)))
  {
    Widths64();
    Wrap64(-B2I(x_c1 < y_c1) - 1)
  }

  function Leq(x_c1: i64, y_c1: i64): (r: i64)
    ensures r == Encode(None64.Leq(Decode(x_c1), Decode(y_c1)))
  {
    -B2I(x_c1 >= y_c1) - 1
  }

  function ULeq(x_c1: u64, y_c1: u64): (r: u64)
    ensures r == UEncode(None64.ULeq(UDecode(x_c1), UDecode(y_c1)))
  {
    Widths64();
    Wrap64(-B2I(x_c1 >= y_c1) - 1)
  }

  function Geq(x_c1: i64, y_c1: i64): (r: i64)
    ensures r == Encode(None64.Geq(Decode(x_c1), Decode(y_c1)))
  {
    -B2I(x_c1 <= y_c1) - 1
  }

  function UGeq(x_c1: u64, y_c1: u64): (r: u64)
    ensures r == UEncode(None64.UGeq(UDecode(x_c1), UDecode(y_c1)))
  {
    Widths64();
    Wrap64(-B2I(x_c1 <= y_c1) - 1)
  }

  /** `((x_c1 + 1) << y) - 1` with y the decoded shift amount. */
  function Shl(x_c1: i64, y_c1: i64): (r: i64)
    requires 0 <= Decode(y_c1) < 64
    ensures r == Encode(None64.Shl(Decode(x_c1), Decode(y_c1)))
  {
    var y := Decode(y_c1);
    var s := (x_c1 + 1) * Pow2(y) - 1;
    MulNeg(Decode(x_c1), Pow2(y));
    CongSub(-1, -1, SWrap64(s), s, TWO64);
    EncodeOfCong(SWrap64(s), None64.Shl(Decode(x_c1), y), -1 - s);
    SWrap64(s)
  }

  function UShl(x_c1: u64, y_c1: u64): (r: u64)
    requires UDecode(y_c1) < 64
    ensures r == UEncode(None64.UShl(UDecode(x_c1), UDecode(y_c1)))
  {
    var y := UDecode(y_c1);
    var s := (x_c1 + 1) * Pow2(y) - 1;
    Widths64();
    var a: int := UDecode(x_c1);
    MulIsCong(x_c1 + 1, -a, 1, TWO64);
    CongMul(x_c1 + 1, -a, Pow2(y), Pow2(y), TWO64);
    MulNeg(a, Pow2(y));
    CongSub(-1, -1, Wrap64(s), s, TWO64);
    CongSub(-1, -1, s, -a * Pow2(y) - 1, TWO64);
    CongTrans(-1 - Wrap64(s), -1 - s, a * Pow2(y), TWO64);
    UEncodeOfCong(Wrap64(s), None64.UShl(UDecode(x_c1), y), a * Pow2(y));
    Wrap64(s)
  }

  /**
   * `u_div(x_c1, ~(1 << y))`. The shift `1 << y` is done on a 32-bit int, so it is
   * defined only for y < 31; `~` of it, converted to the word, is the encoding of 2^y.
   */
  function UShr(x_c1: u64, y_c1: u64): (r: u64)
    requires UDecode(y_c1) < 31
    ensures r == UEncode(None64.UShrCorrected(UDecode(x_c1), UDecode(y_c1)))
  {
    var y := UDecode(y_c1);
    Widths32();
    Widths64();
    Pow2Mono(y, 31);
    var d := Wrap64(-1 - Pow2(y));
    assert d == UEncode(Pow2(y));
    UDiv(x_c1, d)
  }

  /** `-(x_c1 + 1 && y_c1 + 1) - 1`: x_c1 + 1 is zero exactly when x is zero. */
  function Land(x_c1: i64, y_c1: i64): (r: i64)
    ensures r == Encode(None64.Land(Decode(x_c1), Decode(y_c1)))
  {
    -B2I(SWrap64(x_c1 + 1) != 0 && SWrap64(y_c1 + 1) != 0) - 1
  }

  function ULand(x_c1: u64, y_c1: u64): (r: u64)
    ensures r == UEncode(None64.ULand(UDecode(x_c1), UDecode(y_c1)))
  {
    Widths64();
    Wrap64(-B2I(Wrap64(x_c1 + 1) != 0 && Wrap64(y_c1 + 1) != 0) - 1)
  }

  function Lor(x_c1: i64, y_c1: i64): (r: i64)
    ensures r == Encode(None64.Lor(Decode(x_c1), Decode(y_c1)))
  {
    -B2I(SWrap64(x_c1 + 1) != 0 || SWrap64(y_c1 + 1) != 0) - 1
  }

  /** Delegates to the signed Lor; the operands and the result are converted. */
  function ULor(x_c1: u64, y_c1: u64): (r: u64)
    ensures r == UEncode(None64.ULor(UDecode(x_c1), UDecode(y_c1)))
  {
    Widths64();
    SWrapOfUnsigned(x_c1, TWO63);
    SWrapOfUnsigned(y_c1, TWO63);
    Wrap64(Lor(SWrap64(x_c1), SWrap64(y_c1)))
  }

  /** A code's complement is its value, so or on codes encodes and on values. */
  lemma OrOfCodes(x_c1: i64, y_c1: i64)
    ensures None64.Or(x_c1, y_c1) == Encode(None64.And(Decode(x_c1), Decode(y_c1)))
  {
    var a, b := Decode(x_c1), Decode(y_c1);
    assert -1 - a == x_c1 && -1 - b == y_c1;
    Widths64();
    SignedComplementSwaps(a, b, 64);
  }

  /** Likewise and on codes encodes or on values. */
  lemma AndOfCodes(x_c1: i64, y_c1: i64)
    ensures None64.And(x_c1, y_c1) == Encode(None64.Or(Decode(x_c1), Decode(y_c1)))
  {
    var a, b := Decode(x_c1), Decode(y_c1);
    assert -1 - a == x_c1 && -1 - b == y_c1;
    Widths64();
    SignedComplementSwaps(a, b, 64);
  }

  /** `x_c1 | y_c1`: or of the complements is the complement of and. */
  function And(x_c1: i64, y_c1: i64): (r: i64)
    ensures r == Encode(None64.And(Decode(x_c1), Decode(y_c1)))
  {
    OrOfCodes(x_c1, y_c1);
    None64.Or(x_c1, y_c1)
  }

  // The unsigned bitwise operations delegate to the signed ones, with conversions.

  lemma UnsignedView(u: u64)
    ensures Pattern(SWrap64(u), 64) == u
  {
    Widths64();
    PatternOfSigned(u, 64);
  }

  function UAnd(x_c1: u64, y_c1: u64): (r: u64)
    ensures r == UEncode(None64.UAnd(UDecode(x_c1), UDecode(y_c1)))
  {
    Widths64();
    UnsignedView(x_c1);
    UnsignedView(y_c1);
    PatternOfOps(SWrap64(x_c1), SWrap64(y_c1), 64);
    ComplementSwaps(UDecode(x_c1), UDecode(y_c1), 64);
    Wrap64(And(SWrap64(x_c1), SWrap64(y_c1)))
  }

  /** `x_c1 & y_c1`: and of the complements is the complement of or. */
  function Or(x_c1: i64, y_c1: i64): (r: i64)
    ensures r == Encode(None64.Or(Decode(x_c1), Decode(y_c1)))
  {
    AndOfCodes(x_c1, y_c1);
    None64.And(x_c1, y_c1)
  }

  function UOr(x_c1: u64, y_c1: u64): (r: u64)
    ensures r == UEncode(None64.UOr(UDecode(x_c1), UDecode(y_c1)))
  {
    Widths64();
    UnsignedView(x_c1);
    UnsignedView(y_c1);
    PatternOfOps(SWrap64(x_c1), SWrap64(y_c1), 64);
    ComplementSwaps(UDecode(x_c1), UDecode(y_c1), 64);
    Wrap64(Or(SWrap64(x_c1), SWrap64(y_c1)))
  }

  function Neg(x_c1: i64): (r: i64)
    ensures r == Encode(None64.Neg(Decode(x_c1)))
  {
    None64.Neg(x_c1)
  }

  function UNeg(x_c1: u64): (r: u64)
    ensures r == UEncode(None64.UNeg(UDecode(x_c1)))
  {
    Widths64();
    UnsignedView(x_c1);
    PatternOfComplement(SWrap64(x_c1), 64);
    Wrap64(Neg(SWrap64(x_c1)))
  }

  /** `~(x_c1 ^ y_c1)`: complementing both operands leaves xor unchanged. */
  function Xor(x_c1: i64, y_c1: i64): (r: i64)
    ensures r == Encode(None64.Xor(Decode(x_c1), Decode(y_c1)))
  {
    Widths64();
    SignedXorNotNot(Decode(x_c1), Decode(y_c1), 64);
    None64.Neg(None64.Xor(x_c1, y_c1))
  }

  function UXor(x_c1: u64, y_c1: u64): (r: u64)
    ensures r == UEncode(None64.UXor(UDecode(x_c1), UDecode(y_c1)))
  {
    Widths64();
    XorNotNot(UDecode(x_c1), UDecode(y_c1), 64);
    None64.UNeg(None64.UXor(x_c1, y_c1))
  }
}
