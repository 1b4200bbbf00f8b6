/**
 * Two's-complement coding of codings/twos_comp_32.h: a value is stored as its negation,
 * obtained by multiplying with A1_32 = 0xFFFF_FFFF (which is -1 modulo 2^32). Encoding is its own
 * inverse; 0 and the most negative value are its fixed points. Each operation is stated
 * against the native result of None32.
 */
module TwosComp32 {
  import opened Words
  import None32

  /**
   * `(int32c1_t)A1_32 * x`, where the signed reading of A1_32 is -1: the negation, which
   * for the most negative value wraps around to the value itself (see EncodingIsProduct).
   */
  function Encode(x: i32): (r: i32)
    ensures Decode(r) == x
    ensures x != -TWO31 ==> r == -x
    ensures x == -TWO31 ==> r == x
  {
    if x == -TWO31 then x else -x
  }

  function UEncode(x: u32): (r: u32)
    ensures UDecode(r) == x
    ensures x != 0 ==> r == TWO32 - x
    ensures x == 0 ==> r == 0
  {
    if x == 0 then 0 else TWO32 - x
  }

  function Decode(x_c1: i32): (r: i32)
    ensures x_c1 != -TWO31 ==> r == -x_c1
    ensures x_c1 == -TWO31 ==> r == x_c1
  {
    if x_c1 == -TWO31 then x_c1 else -x_c1
  }

  function UDecode(x_c1: u32): (r: u32)
    ensures x_c1 != 0 ==> r == TWO32 - x_c1
    ensures x_c1 == 0 ==> r == 0
  {
    if x_c1 == 0 then 0 else TWO32 - x_c1
  }

  /** Multiplying by -1 negates, except that the most negative value is its own negation. */
  lemma Negation(x: i32)
    ensures SWrap32(-1 * x) == SWrap32(x * -1) == if x == -TWO31 then x else -x
  {
    if x == -TWO31 {
      MulIsCong(x, -(x as int), -1, TWO32);
      SWrapMUnique(x, -(x as int), TWO31);
    }
  }

  /** Multiplying by A1_32 modulo 2^32 negates. */
  lemma UNegation(x: u32)
    ensures Wrap32(x * 0xFFFF_FFFF) == if x == 0 then 0 else TWO32 - x
  {
    if x != 0 {
      MulIsCong(x * 0xFFFF_FFFF, TWO32 - x, x - 1, TWO32);
      WrapMUnique(TWO32 - x, x * 0xFFFF_FFFF, TWO32);
    }
  }

  /** Encode and decode are the C products with A1_32, converted to the word type. */
  lemma EncodingIsProduct(x: i32, u: u32)
    ensures Encode(x) == SWrap32(-1 * x) && Decode(x) == SWrap32(x * -1)
    ensures UEncode(u) == Wrap32(u * 0xFFFF_FFFF) && UDecode(u) == Wrap32(u * 0xFFFF_FFFF)
  {
    Negation(x);
    UNegation(u);
  }

  /** Every word is a valid encoding: decoding and re-encoding gives it back. */
  lemma EveryWordIsACode(x_c1: i32, u_c1: u32)
    ensures Encode(Decode(x_c1)) == x_c1 && UEncode(UDecode(u_c1)) == u_c1
  {
  }

  /** Encoding maps exactly 0 and the most negative value (unsigned: 2^31) to themselves. */
  lemma {:induction false} FixedPoints(x: i32, u: u32)
    ensures Encode(x) == x <==> x == 0 || x == -TWO31
    ensures UEncode(u) == u <==> u == 0 || u == TWO31
  {
  }

  function Check(val: i32, valc: i32): (r: bool)
    ensures r <==> valc == Encode(val)
  {
    val == Decode(valc)
  }

  function UCheck(val: u32, valc: u32): (r: bool)
    ensures r <==> valc == UEncode(val)
  {
    val == UDecode(valc)
  }

  // Proof helpers: an encoding is congruent to minus the value it encodes, and a word that
  // is congruent to minus the native result encodes it.

  lemma DecodeCong(x_c1: i32)
    ensures Cong(x_c1, -(Decode(x_c1) as int), TWO32)
  {
    if x_c1 == -TWO31 {
      MulIsCong(x_c1, -(x_c1 as int), -1, TWO32);
    }
  }

  lemma UDecodeCong(x_c1: u32)
    ensures Cong(x_c1, -(UDecode(x_c1) as int), TWO32)
  {
    if x_c1 != 0 {
      MulIsCong(x_c1, x_c1 - TWO32, 1, TWO32);
    }
  }

  lemma EncodeOfCong(r: i32, s: int, n: i32, v: int)
    requires Cong(r, s, TWO32) && Cong(s, -v, TWO32) && Cong(n, v, TWO32)
    ensures r == Encode(n)
  {
    CongTrans(r, s, -v, TWO32);
    CongSub(0, 0, n, v, TWO32);
    DecodeCong(Encode(n));
    CongTrans(Encode(n), -(n as int), -v, TWO32);
    CongSame(r, Encode(n), -v, -TWO31, TWO32);
  }

  lemma UEncodeOfCong(r: u32, s: int, n: u32, v: int)
    requires Cong(r, s, TWO32) && Cong(s, -v, TWO32) && Cong(n, v, TWO32)
    ensures r == UEncode(n)
  {
    CongTrans(r, s, -v, TWO32);
    CongSub(0, 0, n, v, TWO32);
    UDecodeCong(UEncode(n));
    CongTrans(UEncode(n), -(n as int), -v, TWO32);
    CongSame(r, UEncode(n), -v, 0, TWO32);
  }

  /** A product with A1_32, converted back to a word, is the negation of the other factor. */
  lemma TimesA(v: int)
    ensures SWrap32(v * 0xFFFF_FFFF) == SWrap32(-v) && Wrap32(v * 0xFFFF_FFFF) == Wrap32(-v)
  {
    MulIsCong(v * 0xFFFF_FFFF, -v, v, TWO32);
    SWrapMCong(v * 0xFFFF_FFFF, -v, TWO31);
    WrapMCong(v * 0xFFFF_FFFF, -v, TWO32);
  }

  /** `x_c1 + y_c1`: negation distributes over addition. */
  function Add(x_c1: i32, y_c1: i32): (r: i32)
    ensures r == Encode(None32.Add(Decode(x_c1), Decode(y_c1)))
  {
    var x: int, y: int := Decode(x_c1), Decode(y_c1);
    DecodeCong(x_c1);
    DecodeCong(y_c1);
    CongAdd(x_c1, -x, y_c1, -y, TWO32);
    EncodeOfCong(SWrap32(x_c1 + y_c1), x_c1 + y_c1, None32.Add(x, y), x + y);
    SWrap32(x_c1 + y_c1)
  }

  function UAdd(x_c1: u32, y_c1: u32): (r: u32)
    ensures r == UEncode(None32.UAdd(UDecode(x_c1), UDecode(y_c1)))
  {
    var x: int, y: int := UDecode(x_c1), UDecode(y_c1);
    UDecodeCong(x_c1);
    UDecodeCong(y_c1);
    CongAdd(x_c1, -x, y_c1, -y, TWO32);
    UEncodeOfCong(Wrap32(x_c1 + y_c1), x_c1 + y_c1, None32.UAdd(x, y), x + y);
    Wrap32(x_c1 + y_c1)
  }

  function Sub(x_c1: i32, y_c1: i32): (r: i32)
    ensures r == Encode(None32.Sub(Decode(x_c1), Decode(y_c1)))
  {
    var x: int, y: int := Decode(x_c1), Decode(y_c1);
    DecodeCong(x_c1);
    DecodeCong(y_c1);
    CongSub(x_c1, -x, y_c1, -y, TWO32);
    EncodeOfCong(SWrap32(x_c1 - y_c1), x_c1 - y_c1, None32.Sub(x, y), x - y);
    SWrap32(x_c1 - y_c1)
  }

  function USub(x_c1: u32, y_c1: u32): (r: u32)
    ensures r == UEncode(None32.USub(UDecode(x_c1), UDecode(y_c1)))
  {
    var x: int, y: int := UDecode(x_c1), UDecode(y_c1);
    UDecodeCong(x_c1);
    UDecodeCong(y_c1);
    CongSub(x_c1, -x, y_c1, -y, TWO32);
    UEncodeOfCong(Wrap32(x_c1 - y_c1), x_c1 - y_c1, None32.USub(x, y), x - y);
    Wrap32(x_c1 - y_c1)
  }

  /** `x_c1 * y_c1 * A1_32`: the product of two negations, negated once more. */
  function Mul(x_c1: i32, y_c1: i32): (r: i32)
    ensures r == Encode(None32.Mul(Decode(x_c1), Decode(y_c1)))
  {
    var x: int, y: int := Decode(x_c1), Decode(y_c1);
    var p: int := x_c1 * y_c1;
    DecodeCong(x_c1);
    DecodeCong(y_c1);
    MulProduct(x_c1, y_c1, x, y);
    TimesA(p);
    CongSub(0, 0, p, x * y, TWO32);
    EncodeOfCong(SWrap32(p * 0xFFFF_FFFF), -p, None32.Mul(x, y), x * y);
    SWrap32(p * 0xFFFF_FFFF)
  }

  function UMul(x_c1: u32, y_c1: u32): (r: u32)
    ensures r == UEncode(None32.UMul(UDecode(x_c1), UDecode(y_c1)))
  {
    UMulEncodes(x_c1, y_c1);
    Wrap32(x_c1 * y_c1 * 0xFFFF_FFFF)
  }

  lemma UMulEncodes(x_c1: u32, y_c1: u32)
    ensures Wrap32(x_c1 * y_c1 * 0xFFFF_FFFF) == UEncode(None32.UMul(UDecode(x_c1), UDecode(y_c1)))
  {
    var x: int, y: int := UDecode(x_c1), UDecode(y_c1);
    var p: int, xy: int := x_c1 * y_c1, x * y;
    assert Cong(p, xy, TWO32) by {
      UDecodeCong(x_c1);
      UDecodeCong(y_c1);
      MulProduct(x_c1, y_c1, x, y);
    }
    var r := Wrap32(p * 0xFFFF_FFFF);
    assert r == Wrap32(-p) by {
      TimesA(p);
    }
    assert Cong(-p, -xy, TWO32) by {
      CongSub(0, 0, p, xy, TWO32);
    }
    var n := None32.UMul(x, y);
    assert Cong(n, xy, TWO32);
    UEncodeOfCong(r, -p, n, xy);
  }

  /** The product of two words that are the negations of x and y is congruent to x * y. */
  lemma MulProduct(a: int, b: int, x: int, y: int)
    requires Cong(a, -x, TWO32) && Cong(b, -y, TWO32)
    ensures Cong(a * b, x * y, TWO32)
  {
    CongMul(a, -x, b, -y, TWO32);
    MulNeg(x, -y);
    MulNeg(x, y);
  }

  /**
   * `(x_c1 / y_c1) * A1_32`. The requires are C's conditions on the division it performs.
   * When x is the most negative value, x_c1 is x itself rather than its negation.
   */
  function Div(x_c1: i32, y_c1: i32): (r: i32)
    requires y_c1 != 0 && !(x_c1 == -TWO31 && y_c1 == -1)
    ensures Decode(x_c1) != -TWO31 ==> r == Encode(None32.Div(Decode(x_c1), Decode(y_c1)))
  {
    CDivRange(x_c1, y_c1, TWO31);
    DivideNegated(x_c1, y_c1);
    SWrap32(CDiv(x_c1, y_c1) * -1)
  }

  /** Dividing the negations gives the quotient of the values and the negated remainder. */
  lemma DivideNegated(x_c1: i32, y_c1: i32)
    requires y_c1 != 0
    ensures Decode(x_c1) != -TWO31 ==>
      CDiv(x_c1, y_c1) == CDiv(Decode(x_c1), Decode(y_c1)) &&
      CRem(x_c1, y_c1) == -CRem(Decode(x_c1), Decode(y_c1))
  {
    if Decode(x_c1) != -TWO31 {
      assert x_c1 == -(Decode(x_c1) as int);
      Negation(Decode(y_c1));
      CDivNegWrapped(Decode(x_c1), Decode(y_c1), TWO31);
    }
  }

  /** For x the most negative value the result is not the encoded quotient: MIN / 2 comes out negated. */
  lemma DivOfMinDiffers()
    ensures Decode(-TWO31) == -TWO31 && Decode(-2) == 2
    ensures None32.Div(-TWO31, 2) == -TWO31 / 2
    ensures Decode(Div(-TWO31, -2)) == TWO31 / 2
  {
    CDivByAbs(-TWO31, 2);
    CDivByAbs(-TWO31, -2);
  }

  /**
   * Decode, divide, and re-encode only if the reverse check `q * y + x % y == x`
   * holds; otherwise the raw quotient is returned.
   */
  function UDiv(x_c1: u32, y_c1: u32): (r: u32)
    requires UDecode(y_c1) != 0
    ensures r == UEncode(None32.UDiv(UDecode(x_c1), UDecode(y_c1)))
  {
    var x_d1: u32, y_d1: u32 := UDecode(x_c1), UDecode(y_c1);
    var q: u32 := None32.UDiv(x_d1, y_d1);
    None32.ReverseCheck(x_d1, y_d1);
    if Wrap32(q * y_d1 + None32.UMod(x_d1, y_d1)) == x_d1 then UEncode(q) else q
  }

  /** `x_c1 % y_c1`: the remainder of the negations is the negated remainder. */
  function Mod(x_c1: i32, y_c1: i32): (r: i32)
    requires y_c1 != 0 && !(x_c1 == -TWO31 && y_c1 == -1)
    ensures Decode(x_c1) != -TWO31 ==> r == Encode(None32.Mod(Decode(x_c1), Decode(y_c1)))
  {
    DivideNegated(x_c1, y_c1);
    CRem(x_c1, y_c1)
  }

  /** For x the most negative value the remainder is not negated: MIN % 3 comes out as -2, the encoding of 2. */
  lemma ModOfMinDiffers()
    ensures Decode(-TWO31) == -TWO31 && Decode(-3) == 3
    ensures None32.Mod(-TWO31, 3) == -2
    ensures Decode(Mod(-TWO31, -3)) == 2
  {
    CDivByAbs(-TWO31, 3);
    CDivByAbs(-TWO31, -3);
  }

  function UMod(x_c1: u32, y_c1: u32): (r: u32)
    requires UDecode(y_c1) != 0
    ensures r == UEncode(None32.UMod(UDecode(x_c1), UDecode(y_c1)))
  {
    var x_d1: u32, y_d1: u32 := UDecode(x_c1), UDecode(y_c1);
    var m: u32 := None32.UMod(x_d1, y_d1);
    None32.ReverseCheck(x_d1, y_d1);
    if Wrap32(None32.UDiv(x_d1, y_d1) * y_d1 + m) == x_d1 then UEncode(m) else m
  }

  // Comparisons yield A1_32 (the encoding of 1) or 0. Negation reverses the order, so the
  // signed less compares with `>` and so on; the most negative value breaks this, since it
  // is its own negation. The unsigned comparisons add overrides for a zero operand.

  function Eq(x_c1: i32, y_c1: i32): (r: i32)
    ensures r == Encode(None32.Eq(Decode(x_c1), Decode(y_c1)))
  {
    if x_c1 == y_c1 then -1 else 0
  }

  function UEq(x_c1: u32, y_c1: u32): (r: u32)
    ensures r == UEncode(None32.UEq(UDecode(x_c1), UDecode(y_c1)))
  {
    if x_c1 == y_c1 then 0xFFFF_FFFF else 0
  }

  function Neq(x_c1: i32, y_c1: i32): (r: i32)
    ensures r == Encode(None32.Neq(Decode(x_c1), Decode(y_c1)))
  {
    if x_c1 != y_c1 then -1 else 0
  }

  function UNeq(x_c1: u32, y_c1: u32): (r: u32)
    ensures r == UEncode(None32.UNeq(UDecode(x_c1), UDecode(y_c1)))
  {
    if x_c1 != y_c1 then 0xFFFF_FFFF else 0
  }

  /**
   * Negation reverses the order of two values unless exactly one of them is the most
   * negative value; then it keeps it, since that value is its own negation.
   */
  lemma OrderOfNegations(x_c1: i32, y_c1: i32)
    ensures (Decode(x_c1) == -TWO31) == (Decode(y_c1) == -TWO31) ==>
      (x_c1 > y_c1 <==> Decode(x_c1) < Decode(y_c1)) && (x_c1 >= y_c1 <==> Decode(x_c1) <= Decode(y_c1))
    ensures (Decode(x_c1) == -TWO31) != (Decode(y_c1) == -TWO31) ==>
      (x_c1 > y_c1 <==> Decode(x_c1) > Decode(y_c1)) && (x_c1 >= y_c1 <==> Decode(x_c1) >= Decode(y_c1))
  {
  }

  /** Encoded truth values: 1 is stored as -1 and 0 as 0. */
  lemma EncodedTruth(b: bool)
    ensures Encode(B2I(b)) == -B2I(b) && UEncode(B2I(b)) == if b then 0xFFFF_FFFF else 0
  {
  }

  /** The result is the encoded comparison exactly when both or neither operand is the most negative value. */
  function Less(x_c1: i32, y_c1: i32): (r: i32)
    ensures r == Encode(None32.Less(Decode(x_c1), Decode(y_c1))) <==>
      (Decode(x_c1) == -TWO31) == (Decode(y_c1) == -TWO31)
  {
    OrderOfNegations(x_c1, y_c1);
    EncodedTruth(Decode(x_c1) < Decode(y_c1));
    EncodedTruth(Decode(x_c1) > Decode(y_c1));
    if x_c1 > y_c1 then -1 else 0
  }

  function ULess(x_c1: u32, y_c1: u32): (r: u32)
    ensures r == UEncode(None32.ULess(UDecode(x_c1), UDecode(y_c1)))
  {
    var r0: u32 := if x_c1 > y_c1 then 0xFFFF_FFFF else 0;
    var r1: u32 := if y_c1 == 0 then 0 else r0;
    if x_c1 == 0 && y_c1 != 0 then 0xFFFF_FFFF else r1
  }

  function Grt(x_c1: i32, y_c1: i32): (r: i32)
    ensures r == Encode(None32.Grt(Decode(x_c1), Decode(y_c1))) <==>
      (Decode(x_c1) == -TWO31) == (Decode(y_c1) == -TWO31)
  {
    OrderOfNegations(x_c1, y_c1);
    EncodedTruth(Decode(x_c1) > Decode(y_c1));
    EncodedTruth(Decode(x_c1) < Decode(y_c1));
    if x_c1 < y_c1 then -1 else 0
  }

  function UGrt(x_c1: u32, y_c1: u32): (r: u32)
    ensures r == UEncode(None32.UGrt(UDecode(x_c1), UDecode(y_c1)))
  {
    var r0: u32 := if x_c1 < y_c1 then 0xFFFF_FFFF else 0;
    var r1: u32 := if y_c1 == 0 then (if x_c1 == 0 then 0 else 0xFFFF_FFFF) else r0;
    if x_c1 == 0 && y_c1 != 0 then 0 else r1
  }

  function Leq(x_c1: i32, y_c1: i32): (r: i32)
    ensures r == Encode(None32.Leq(Decode(x_c1), Decode(y_c1))) <==>
      (Decode(x_c1) == -TWO31) == (Decode(y_c1) == -TWO31)
  {
    OrderOfNegations(x_c1, y_c1);
    EncodedTruth(Decode(x_c1) <= Decode(y_c1));
    EncodedTruth(Decode(x_c1) >= Decode(y_c1));
    if x_c1 >= y_c1 then -1 else 0
  }

  function ULeq(x_c1: u32, y_c1: u32): (r: u32)
    ensures r == UEncode(None32.ULeq(UDecode(x_c1), UDecode(y_c1)))
  {
    var r0: u32 := if x_c1 >= y_c1 then 0xFFFF_FFFF else 0;
    var r1: u32 := if y_c1 == 0 then (if x_c1 == 0 then 0xFFFF_FFFF else 0) else r0;
    if x_c1 == 0 then 0xFFFF_FFFF else r1
  }

  function Geq(x_c1: i32, y_c1: i32): (r: i32)
    ensures r == Encode(None32.Geq(Decode(x_c1), Decode(y_c1))) <==>
      (Decode(x_c1) == -TWO31) == (Decode(y_c1) == -TWO31)
  {
    OrderOfNegations(x_c1, y_c1);
    EncodedTruth(Decode(x_c1) >= Decode(y_c1));
    EncodedTruth(Decode(x_c1) <= Decode(y_c1));
    if x_c1 <= y_c1 then -1 else 0
  }

  function UGeq(x_c1: u32, y_c1: u32): (r: u32)
    ensures r == UEncode(None32.UGeq(UDecode(x_c1), UDecode(y_c1)))
  {
    var r0: u32 := if x_c1 <= y_c1 then 0xFFFF_FFFF else 0;
    var r1: u32 := if x_c1 == 0 then (if y_c1 == 0 then 0xFFFF_FFFF else 0) else r0;
    if y_c1 == 0 then 0xFFFF_FFFF else r1
  }

  /** `x_c1 << y` with y the decoded shift amount: shifting the negation negates the shift. */
  function Shl(x_c1: i32, y_c1: i32): (r: i32)
    requires 0 <= Decode(y_c1) < 32
    ensures r == Encode(None32.Shl(Decode(x_c1), Decode(y_c1)))
  {
    var x: int, y: int := Decode(x_c1), Decode(y_c1);
    DecodeCong(x_c1);
    CongMul(x_c1, -x, Pow2(y), Pow2(y), TWO32);
    MulNeg(x, Pow2(y));
    EncodeOfCong(SWrap32(x_c1 * Pow2(y)), x_c1 * Pow2(y), None32.Shl(x, y), x * Pow2(y));
    SWrap32(x_c1 * Pow2(y))
  }

  function UShl(x_c1: u32, y_c1: u32): (r: u32)
    requires UDecode(y_c1) < 32
    ensures r == UEncode(None32.UShl(UDecode(x_c1), UDecode(y_c1)))
  {
    var x: int, y: int := UDecode(x_c1), UDecode(y_c1);
    UDecodeCong(x_c1);
    CongMul(x_c1, -x, Pow2(y), Pow2(y), TWO32);
    MulNeg(x, Pow2(y));
    UEncodeOfCong(Wrap32(x_c1 * Pow2(y)), x_c1 * Pow2(y), None32.UShl(x, y), x * Pow2(y));
    Wrap32(x_c1 * Pow2(y))
  }

  /**
   * `u_div(x_c1, (1 << y) * A1_32)`. The shift `1 << y` is done on a 32-bit int, so it is
   * defined only for y < 31; multiplied by A1_32 it is the encoding of 2^y.
   */
  function UShr(x_c1: u32, y_c1: u32): (r: u32)
    requires UDecode(y_c1) < 31
    ensures r == UEncode(None32.UShrCorrected(UDecode(x_c1), UDecode(y_c1)))
  {
    var y := UDecode(y_c1);
    ShiftDivisor(y);
    var d := Wrap32(Pow2(y) * 0xFFFF_FFFF);
    UDiv(x_c1, d)
  }

  /** `(1 << y) * A1_32` for y < 31 is the encoding of the non-zero word 2^y. */
  lemma ShiftDivisor(y: nat)
    requires y < 31
    ensures Pow2(y) < TWO31 && Wrap32(Pow2(y) * 0xFFFF_FFFF) == UEncode(Pow2(y))
  {
    Widths32();
    Pow2Mono(y, 30);
    assert Pow2(31) == 2 * Pow2(30);
    var p: u32 := Pow2(y);
    UNegation(p);
  }

  /** `-(x_c1 && y_c1)`: an encoding is zero exactly when its value is. */
  function Land(x_c1: i32, y_c1: i32): (r: i32)
    ensures r == Encode(None32.Land(Decode(x_c1), Decode(y_c1)))
  {
    EncodedTruth(Decode(x_c1) != 0 && Decode(y_c1) != 0);
    -B2I(x_c1 != 0 && y_c1 != 0)
  }

  function ULand(x_c1: u32, y_c1: u32): (r: u32)
    ensures r == UEncode(None32.ULand(UDecode(x_c1), UDecode(y_c1)))
  {
    EncodedTruth(UDecode(x_c1) != 0 && UDecode(y_c1) != 0);
    Wrap32(-B2I(x_c1 != 0 && y_c1 != 0))
  }

  function Lor(x_c1: i32, y_c1: i32): (r: i32)
    ensures r == Encode(None32.Lor(Decode(x_c1), Decode(y_c1)))
  {
    EncodedTruth(Decode(x_c1) != 0 || Decode(y_c1) != 0);
    -B2I(x_c1 != 0 || y_c1 != 0)
  }

  function ULor(x_c1: u32, y_c1: u32): (r: u32)
    ensures r == UEncode(None32.ULor(UDecode(x_c1), UDecode(y_c1)))
  {
    EncodedTruth(UDecode(x_c1) != 0 || UDecode(y_c1) != 0);
    Wrap32(-B2I(x_c1 != 0 || y_c1 != 0))
  }

  /** Decode, `-1 - ((-1 - x) | (-1 - y))` (De Morgan), and multiply by A1_32. */
  function And(x_c1: i32, y_c1: i32): (r: i32)
    ensures r == Encode(None32.And(Decode(x_c1), Decode(y_c1)))
  {
    var x_d1, y_d1 := Decode(x_c1), Decode(y_c1);
    Widths32();
    SignedDeMorgan(x_d1, y_d1, 32);
    var r_c: i32 := -1 - SBitOr(-1 - x_d1, -1 - y_d1, 32);
    TimesA(r_c);
    SWrap32(r_c * 0xFFFF_FFFF)
  }

  /** The unsigned `-1 - v` is the complement of v. */
  lemma ComplementOfWord(v: u32)
    ensures Pow2(32) == TWO32 && Wrap32(-1 - v) == BitNot(v, 32)
  {
    Widths32();
  }

  function UAnd(x_c1: u32, y_c1: u32): (r: u32)
    ensures r == UEncode(None32.UAnd(UDecode(x_c1), UDecode(y_c1)))
  {
    var x_d1, y_d1 := UDecode(x_c1), UDecode(y_c1);
    UnsignedDeMorgan(x_d1, y_d1);
    var r_c: u32 := Wrap32(-1 - BitOr(Wrap32(-1 - x_d1), Wrap32(-1 - y_d1), 32));
    EncodingIsProduct(0, r_c);
    Wrap32(r_c * 0xFFFF_FFFF)
  }

  /** De Morgan on unsigned words, with the complement written as `-1 - v`. */
  lemma UnsignedDeMorgan(x: u32, y: u32)
    ensures Wrap32(-1 - BitOr(Wrap32(-1 - x), Wrap32(-1 - y), 32)) == BitAnd(x, y, 32)
    ensures Wrap32(-1 - BitAnd(Wrap32(-1 - x), Wrap32(-1 - y), 32)) == BitOr(x, y, 32)
  {
    Widths32();
    ComplementOfWord(x);
    ComplementOfWord(y);
    ComplementOfWord(BitOr(Wrap32(-1 - x), Wrap32(-1 - y), 32));
    ComplementOfWord(BitAnd(Wrap32(-1 - x), Wrap32(-1 - y), 32));
    DeMorganAnd(x, y, 32);
    DeMorganOr(x, y, 32);
  }

  /** Decode, `-1 - ((-1 - x) & (-1 - y))` (De Morgan), and multiply by A1_32. */
  function Or(x_c1: i32, y_c1: i32): (r: i32)
    ensures r == Encode(None32.Or(Decode(x_c1), Decode(y_c1)))
  {
    var x_d1, y_d1 := Decode(x_c1), Decode(y_c1);
    Widths32();
    SignedDeMorgan(x_d1, y_d1, 32);
    var r_c: i32 := -1 - SBitAnd(-1 - x_d1, -1 - y_d1, 32);
    TimesA(r_c);
    SWrap32(r_c * 0xFFFF_FFFF)
  }

  function UOr(x_c1: u32, y_c1: u32): (r: u32)
    ensures r == UEncode(None32.UOr(UDecode(x_c1), UDecode(y_c1)))
  {
    var x_d1, y_d1 := UDecode(x_c1), UDecode(y_c1);
    UnsignedDeMorgan(x_d1, y_d1);
    var r_c: u32 := Wrap32(-1 - BitAnd(Wrap32(-1 - x_d1), Wrap32(-1 - y_d1), 32));
    EncodingIsProduct(0, r_c);
    Wrap32(r_c * 0xFFFF_FFFF)
  }

  /** `~x_c1 + 2`: the negation of ~x is x + 1, and ~(-x) + 2 is x + 1 as well. */
  function Neg(x_c1: i32): (r: i32)
    ensures r == Encode(None32.Neg(Decode(x_c1)))
  {
    var x: int := Decode(x_c1);
    DecodeCong(x_c1);
    CongSub(1, 1, x_c1, -x, TWO32);
    EncodeOfCong(SWrap32((-1 - x_c1) + 2), (-1 - x_c1) + 2, None32.Neg(x), -1 - x);
    SWrap32((-1 - x_c1) + 2)
  }

  function UNeg(x_c1: u32): (r: u32)
    ensures r == UEncode(None32.UNeg(UDecode(x_c1)))
  {
    var x: int := UDecode(x_c1);
    Widths32();
    UDecodeCong(x_c1);
    CongSub(1, 1, x_c1, -x, TWO32);
    MulIsCong(BitNot(x_c1, 32) + 2, 1 - x_c1, 1, TWO32);
    MulIsCong(None32.UNeg(x), -1 - x, 1, TWO32);
    UEncodeOfCong(Wrap32(BitNot(x_c1, 32) + 2), 1 - x_c1, None32.UNeg(x), -1 - x);
    Wrap32(BitNot(x_c1, 32) + 2)
  }

  /**
   * Decode into unsigned words, xor them, and re-encode if the revert check
   * `(r ^ y) * A1_32 == x_c1` holds (the signed x_c1 is compared as an unsigned word);
   * otherwise the decoded xor is returned.
   */
  function Xor(x_c1: i32, y_c1: i32): (r: i32)
    ensures r == Encode(None32.Xor(Decode(x_c1), Decode(y_c1)))
  {
    var x_d1: u32, y_d1: u32 := Wrap32(x_c1 * 0xFFFF_FFFF), Wrap32(y_c1 * 0xFFFF_FFFF);
    Widths32();
    var r_d1: u32 := BitXor(x_d1, y_d1, 32);
    var revert: u32 := Wrap32(BitXor(r_d1, y_d1, 32) * 0xFFFF_FFFF);
    XorDecoded(x_c1, y_c1);
    if Wrap32(x_c1) == revert then SWrap32(Wrap32(r_d1 * 0xFFFF_FFFF)) else SWrap32(r_d1)
  }

  /** The signed xor's decoded words are the patterns of the values, and its revert check holds. */
  lemma XorDecoded(x_c1: i32, y_c1: i32)
    ensures Wrap32(x_c1 * 0xFFFF_FFFF) == Pattern(Decode(x_c1), 32)
    ensures Wrap32(y_c1 * 0xFFFF_FFFF) == Pattern(Decode(y_c1), 32)
    ensures Wrap32(x_c1) == Wrap32(BitXor(BitXor(Wrap32(x_c1 * 0xFFFF_FFFF), Wrap32(y_c1 * 0xFFFF_FFFF), 32), Wrap32(y_c1 * 0xFFFF_FFFF), 32) * 0xFFFF_FFFF)
    ensures SWrap32(Wrap32(BitXor(Wrap32(x_c1 * 0xFFFF_FFFF), Wrap32(y_c1 * 0xFFFF_FFFF), 32) * 0xFFFF_FFFF)) ==
      Encode(None32.Xor(Decode(x_c1), Decode(y_c1)))
  {
    Widths32();
    var X: u32, Y: u32 := Wrap32(x_c1 * 0xFFFF_FFFF), Wrap32(y_c1 * 0xFFFF_FFFF);
    OperandPattern(x_c1);
    OperandPattern(y_c1);
    XorCancel(X, Y, 32);
    TimesA(X);
    XorEncoded(BitXor(X, Y, 32), Decode(x_c1), Decode(y_c1));
  }

  /** `x_c1 * A1_32` as an unsigned word is the pattern of the value, and negating it gives x_c1 back. */
  lemma OperandPattern(x_c1: i32)
    ensures Wrap32(x_c1 * 0xFFFF_FFFF) == Pattern(Decode(x_c1), 32)
    ensures Wrap32(-(Wrap32(x_c1 * 0xFFFF_FFFF) as int)) == Wrap32(x_c1)
  {
    Widths32();
    var x: int := Decode(x_c1);
    var X: u32 := Wrap32(x_c1 * 0xFFFF_FFFF);
    var nx: int := -(x_c1 as int);
    TimesA(x_c1);
    DecodeCong(x_c1);
    CongSub(0, 0, x_c1, -x, TWO32);
    WrapMCong(nx, x, TWO32);
    CongTrans(X, nx, x, TWO32);
    CongSub(0, 0, X, x, TWO32);
    CongSym(x_c1, -x, TWO32);
    CongTrans(-(X as int), -x, x_c1, TWO32);
    WrapMCong(-(X as int), x_c1, TWO32);
  }

  /** The xor of the patterns, multiplied by A1_32 and read as signed, is the encoded signed xor. */
  lemma XorEncoded(R: u32, x: i32, y: i32)
    requires Pow2(32) == TWO32 && R == BitXor(Pattern(x, 32), Pattern(y, 32), 32)
    ensures SWrap32(Wrap32(R * 0xFFFF_FFFF)) == Encode(None32.Xor(x, y))
  {
    var n := None32.Xor(x, y);
    PatternOfOps(x, y, 32);
    PatternOfSigned(R, 32);
    CongSym(Pattern(n, 32), n, TWO32);
    WrapMUnique(R, R, TWO32);
    CongTrans(n, Pattern(n, 32), R, TWO32);
    TimesA(R);
    var w: u32 := Wrap32(R * 0xFFFF_FFFF);
    SWrapMCong(w, -(R as int), TWO31);
    CongRefl(-(R as int), TWO32);
    EncodeOfCong(SWrap32(w), -(R as int), n, R);
  }

  function UXor(x_c1: u32, y_c1: u32): (r: u32)
    ensures r == UEncode(None32.UXor(UDecode(x_c1), UDecode(y_c1)))
  {
    var x_d1, y_d1 := UDecode(x_c1), UDecode(y_c1);
    Widths32();
    var r_d1: u32 := BitXor(x_d1, y_d1, 32);
    XorCancel(x_d1, y_d1, 32);
    var revert: u32 := UEncode(BitXor(r_d1, y_d1, 32));
    if x_c1 == revert then UEncode(r_d1) else r_d1
  }
}
