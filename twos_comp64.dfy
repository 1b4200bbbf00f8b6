/**
 * Two's-complement coding of codings/twos_comp_64.h: a value is stored as its negation,
 * obtained by multiplying with A1_64 = 0xFFFF_FFFF_FFFF_FFFF (which is -1 modulo 2^64). Encoding is its own
 * inverse; 0 and the most negative value are its fixed points. Each operation is stated
 * against the native result of None64.
 */
module TwosComp64 {
  import opened Words
  import None64

  /**
   * `(int64c1_t)A1_64 * x`, where the signed reading of A1_64 is -1: the negation, which
   * for the most negative value wraps around to the value itself (see EncodingIsProduct).
   */
  function Encode(x: i64): (r: i64)
    ensures Decode(r) == x
    ensures x != -TWO63 ==> r == -x
    ensures x == -TWO63 ==> r == x
  {
    if x == -TWO63 then x else -x
  }

  function UEncode(x: u64): (r: u64)
    ensures UDecode(r) == x
    ensures x != 0 ==> r == TWO64 - x
    ensures x == 0 ==> r == 0
  {
    if x == 0 then 0 else TWO64 - x
  }

  function Decode(x_c1: i64): (r: i64)
    ensures x_c1 != -TWO63 ==> r == -x_c1
    ensures x_c1 == -TWO63 ==> r == x_c1
  {
    if x_c1 == -TWO63 then x_c1 else -x_c1
  }

  function UDecode(x_c1: u64): (r: u64)
    ensures x_c1 != 0 ==> r == TWO64 - x_c1
    ensures x_c1 == 0 ==> r == 0
  {
    if x_c1 == 0 then 0 else TWO64 - x_c1
  }

  /** Multiplying by -1 negates, except that the most negative value is its own negation. */
  lemma Negation(x: i64)
    ensures SWrap64(-1 * x) == SWrap64(x * -1) == if x == -TWO63 then x else -x
  {
    if x == -TWO63 {
      MulIsCong(x, -(x as int), -1, TWO64);
      SWrapMUnique(x, -(x as int), TWO63);
    }
  }

  /** Multiplying by A1_64 modulo 2^64 negates. */
  lemma UNegation(x: u64)
    ensures Wrap64(x * 0xFFFF_FFFF_FFFF_FFFF) == if x == 0 then 0 else TWO64 - x
  {
    if x != 0 {
      MulIsCong(x * 0xFFFF_FFFF_FFFF_FFFF, TWO64 - x, x - 1, TWO64);
      WrapMUnique(TWO64 - x, x * 0xFFFF_FFFF_FFFF_FFFF, TWO64);
    }
  }

  /** Encode and decode are the C products with A1_64, converted to the word type. */
  lemma EncodingIsProduct(x: i64, u: u64)
    ensures Encode(x) == SWrap64(-1 * x) && Decode(x) == SWrap64(x * -1)
    ensures UEncode(u) == Wrap64(u * 0xFFFF_FFFF_FFFF_FFFF) && UDecode(u) == Wrap64(u * 0xFFFF_FFFF_FFFF_FFFF)
  {
    Negation(x);
    UNegation(u);
  }

  /** Every word is a valid encoding: decoding and re-encoding gives it back. */
  lemma EveryWordIsACode(x_c1: i64, u_c1: u64)
    ensures Encode(Decode(x_c1)) == x_c1 && UEncode(UDecode(u_c1)) == u_c1
  {
  }

  /** Encoding maps exactly 0 and the most negative value (unsigned: 2^63) to themselves. */
  lemma {:induction false} FixedPoints(x: i64, u: u64)
    ensures Encode(x) == x <==> x == 0 || x == -TWO63
    ensures UEncode(u) == u <==> u == 0 || u == TWO63
  {
  }

  function Check(val: i64, valc: i64): (r: bool)
    ensures r <==> valc == Encode(val)
  {
    val == Decode(valc)
  }

  function UCheck(val: u64, valc: u64): (r: bool)
    ensures r <==> valc == UEncode(val)
  {
    val == UDecode(valc)
  }

  // Proof helpers: an encoding is congruent to minus the value it encodes, and a word that
  // is congruent to minus the native result encodes it.

  lemma DecodeCong(x_c1: i64)
    ensures Cong(x_c1, -(Decode(x_c1) as int), TWO64)
  {
    if x_c1 == -TWO63 {
      MulIsCong(x_c1, -(x_c1 as int), -1, TWO64);
    }
  }

  lemma UDecodeCong(x_c1: u64)
    ensures Cong(x_c1, -(UDecode(x_c1) as int), TWO64)
  {
    if x_c1 != 0 {
      MulIsCong(x_c1, x_c1 - TWO64, 1, TWO64);
    }
  }

  lemma EncodeOfCong(r: i64, s: int, n: i64, v: int)
    requires Cong(r, s, TWO64) && Cong(s, -v, TWO64) && Cong(n, v, TWO64)
    ensures r == Encode(n)
  {
    CongTrans(r, s, -v, TWO64);
    CongSub(0, 0, n, v, TWO64);
    DecodeCong(Encode(n));
    CongTrans(Encode(n), -(n as int), -v, TWO64);
    CongSame(r, Encode(n), -v, -TWO63, TWO64);
  }

  lemma UEncodeOfCong(r: u64, s: int, n: u64, v: int)
    requires Cong(r, s, TWO64) && Cong(s, -v, TWO64) && Cong(n, v, TWO64)
    ensures r == UEncode(n)
  {
    CongTrans(r, s, -v, TWO64);
    CongSub(0, 0, n, v, TWO64);
    UDecodeCong(UEncode(n));
    CongTrans(UEncode(n), -(n as int), -v, TWO64);
    CongSame(r, UEncode(n), -v, 0, TWO64);
  }

  /** A product with A1_64, converted back to a word, is the negation of the other factor. */
  lemma TimesA(v: int)
    ensures SWrap64(v * 0xFFFF_FFFF_FFFF_FFFF) == SWrap64(-v) && Wrap64(v * 0xFFFF_FFFF_FFFF_FFFF) == Wrap64(-v)
  {
    MulIsCong(v * 0xFFFF_FFFF_FFFF_FFFF, -v, v, TWO64);
    SWrapMCong(v * 0xFFFF_FFFF_FFFF_FFFF, -v, TWO63);
    WrapMCong(v * 0xFFFF_FFFF_FFFF_FFFF, -v, TWO64);
  }

  /** `x_c1 + y_c1`: negation distributes over addition. */
  function Add(x_c1: i64, y_c1: i64): (r: i64)
    ensures r == Encode(None64.Add(Decode(x_c1), Decode(y_c1)))
  {
    var x: int, y: int := Decode(x_c1), Decode(y_c1);
    DecodeCong(x_c1);
    DecodeCong(y_c1);
    CongAdd(x_c1, -x, y_c1, -y, TWO64);
    EncodeOfCong(SWrap64(x_c1 + y_c1), x_c1 + y_c1, None64.Add(x, y), x + y);
    SWrap64(x_c1 + y_c1)
  }

  function UAdd(x_c1: u64, y_c1: u64): (r: u64)
    ensures r == UEncode(None64.UAdd(UDecode(x_c1), UDecode(y_c1)))
  {
    var x: int, y: int := UDecode(x_c1), UDecode(y_c1);
    UDecodeCong(x_c1);
    UDecodeCong(y_c1);
    CongAdd(x_c1, -x, y_c1, -y, TWO64);
    UEncodeOfCong(Wrap64(x_c1 + y_c1), x_c1 + y_c1, None64.UAdd(x, y), x + y);
    Wrap64(x_c1 + y_c1)
  }

  function Sub(x_c1: i64, y_c1: i64): (r: i64)
    ensures r == Encode(None64.Sub(Decode(x_c1), Decode(y_c1)))
  {
    var x: int, y: int := Decode(x_c1), Decode(y_c1);
    DecodeCong(x_c1);
    DecodeCong(y_c1);
    CongSub(x_c1, -x, y_c1, -y, TWO64);
    EncodeOfCong(SWrap64(x_c1 - y_c1), x_c1 - y_c1, None64.Sub(x, y), x - y);
    SWrap64(x_c1 - y_c1)
  }

  function USub(x_c1: u64, y_c1: u64): (r: u64)
    ensures r == UEncode(None64.USub(UDecode(x_c1), UDecode(y_c1)))
  {
    var x: int, y: int := UDecode(x_c1), UDecode(y_c1);
    UDecodeCong(x_c1);
    UDecodeCong(y_c1);
    CongSub(x_c1, -x, y_c1, -y, TWO64);
    UEncodeOfCong(Wrap64(x_c1 - y_c1), x_c1 - y_c1, None64.USub(x, y), x - y);
    Wrap64(x_c1 - y_c1)
  }

  /** `x_c1 * y_c1 * A1_64`: the product of two negations, negated once more. */
  function Mul(x_c1: i64, y_c1: i64): (r: i64)
    ensures r == Encode(None64.Mul(Decode(x_c1), Decode(y_c1)))
  {
    var x: int, y: int := Decode(x_c1), Decode(y_c1);
    var p: int := x_c1 * y_c1;
    DecodeCong(x_c1);
    DecodeCong(y_c1);
    MulProduct(x_c1, y_c1, x, y);
    TimesA(p);
    CongSub(0, 0, p, x * y, TWO64);
    EncodeOfCong(SWrap64(p * 0xFFFF_FFFF_FFFF_FFFF), -p, None64.Mul(x, y), x * y);
    SWrap64(p * 0xFFFF_FFFF_FFFF_FFFF)
  }

  function UMul(x_c1: u64, y_c1: u64): (r: u64)
    ensures r == UEncode(None64.UMul(UDecode(x_c1), UDecode(y_c1)))
  {
    UMulEncodes(x_c1, y_c1);
    Wrap64(x_c1 * y_c1 * 0xFFFF_FFFF_FFFF_FFFF)
  }

  lemma UMulEncodes(x_c1: u64, y_c1: u64)
    ensures Wrap64(x_c1 * y_c1 * 0xFFFF_FFFF_FFFF_FFFF) == UEncode(None64.UMul(UDecode(x_c1), UDecode(y_c1)))
  {
    var x: int, y: int := UDecode(x_c1), UDecode(y_c1);
    var p: int, xy: int := x_c1 * y_c1, x * y;
    assert Cong(p, xy, TWO64) by {
      UDecodeCong(x_c1);
      UDecodeCong(y_c1);
      MulProduct(x_c1, y_c1, x, y);
    }
    var r := Wrap64(p * 0xFFFF_FFFF_FFFF_FFFF);
    assert r == Wrap64(-p) by {
      TimesA(p);
    }
    assert Cong(-p, -xy, TWO64) by {
      CongSub(0, 0, p, xy, TWO64);
    }
    var n := None64.UMul(x, y);
    assert Cong(n, xy, TWO64);
    UEncodeOfCong(r, -p, n, xy);
  }

  /** The product of two words that are the negations of x and y is congruent to x * y. */
  lemma MulProduct(a: int, b: int, x: int, y: int)
    requires Cong(a, -x, TWO64) && Cong(b, -y, TWO64)
    ensures Cong(a * b, x * y, TWO64)
  {
    CongMul(a, -x, b, -y, TWO64);
    MulNeg(x, -y);
    MulNeg(x, y);
  }

  /**
   * `(x_c1 / y_c1) * A1_64`. The requires are C's conditions on the division it performs.
   * When x is the most negative value, x_c1 is x itself rather than its negation.
   */
  function Div(x_c1: i64, y_c1: i64): (r: i64)
    requires y_c1 != 0 && !(x_c1 == -TWO63 && y_c1 == -1)
    ensures Decode(x_c1) != -TWO63 ==> r == Encode(None64.Div(Decode(x_c1), Decode(y_c1)))
  {
    CDivRange(x_c1, y_c1, TWO63);
    DivideNegated(x_c1, y_c1);
    SWrap64(CDiv(x_c1, y_c1) * -1)
  }

  /** Dividing the negations gives the quotient of the values and the negated remainder. */
  lemma DivideNegated(x_c1: i64, y_c1: i64)
    requires y_c1 != 0
    ensures Decode(x_c1) != -TWO63 ==>
      CDiv(x_c1, y_c1) == CDiv(Decode(x_c1), Decode(y_c1)) &&
      CRem(x_c1, y_c1) == -CRem(Decode(x_c1), Decode(y_c1))
  {
    if Decode(x_c1) != -TWO63 {
      assert x_c1 == -(Decode(x_c1) as int);
      Negation(Decode(y_c1));
      CDivNegWrapped(Decode(x_c1), Decode(y_c1), TWO63);
    }
  }

  /** For x the most negative value the result is not the encoded quotient: MIN / 2 comes out negated. */
  lemma DivOfMinDiffers()
    ensures Decode(-TWO63) == -TWO63 && Decode(-2) == 2
    ensures None64.Div(-TWO63, 2) == -TWO63 / 2
    ensures Decode(Div(-TWO63, -2)) == TWO63 / 2
  {
    CDivByAbs(-TWO63, 2);
    CDivByAbs(-TWO63, -2);
  }

  /**
   * Decode, divide, and re-encode only if the reverse check `q * y + x % y == x`
   * holds; otherwise the raw quotient is returned.
   */
  function UDiv(x_c1: u64, y_c1: u64): (r: u64)
    requires UDecode(y_c1) != 0
    ensures r == UEncode(None64.UDiv(UDecode(x_c1), UDecode(y_c1)))
  {
    var x_d1: u64, y_d1: u64 := UDecode(x_c1), UDecode(y_c1);
    var q: u64 := None64.UDiv(x_d1, y_d1);
    None64.ReverseCheck(x_d1, y_d1);
    if Wrap64(q * y_d1 + None64.UMod(x_d1, y_d1)) == x_d1 then UEncode(q) else q
  }

  /** `x_c1 % y_c1`: the remainder of the negations is the negated remainder. */
  function Mod(x_c1: i64, y_c1: i64): (r: i64)
    requires y_c1 != 0 && !(x_c1 == -TWO63 && y_c1 == -1)
    ensures Decode(x_c1) != -TWO63 ==> r == Encode(None64.Mod(Decode(x_c1), Decode(y_c1)))
  {
    DivideNegated(x_c1, y_c1);
    CRem(x_c1, y_c1)
  }

  /** For x the most negative value the remainder is not negated: MIN % 3 comes out as -2, the encoding of 2. */
  lemma ModOfMinDiffers()
    ensures Decode(-TWO63) == -TWO63 && Decode(-3) == 3
    ensures None64.Mod(-TWO63, 3) == -2
    ensures Decode(Mod(-TWO63, -3)) == 2
  {
    CDivByAbs(-TWO63, 3);
    CDivByAbs(-TWO63, -3);
  }

  function UMod(x_c1: u64, y_c1: u64): (r: u64)
    requires UDecode(y_c1) != 0
    ensures r == UEncode(None64.UMod(UDecode(x_c1), UDecode(y_c1)))
  {
    var x_d1: u64, y_d1: u64 := UDecode(x_c1), UDecode(y_c1);
    var m: u64 := None64.UMod(x_d1, y_d1);
    None64.ReverseCheck(x_d1, y_d1);
    if Wrap64(None64.UDiv(x_d1, y_d1) * y_d1 + m) == x_d1 then UEncode(m) else m
  }

  // Comparisons yield A1_64 (the encoding of 1) or 0. Negation reverses the order, so the
  // signed less compares with `>` and so on; the most negative value breaks this, since it
  // is its own negation. The unsigned comparisons add overrides for a zero operand.

  function Eq(x_c1: i64, y_c1: i64): (r: i64)
    ensures r == Encode(None64.Eq(Decode(x_c1), Decode(y_c1)))
  {
    if x_c1 == y_c1 then -1 else 0
  }

  function UEq(x_c1: u64, y_c1: u64): (r: u64)
    ensures r == UEncode(None64.UEq(UDecode(x_c1), UDecode(y_c1)))
  {
    if x_c1 == y_c1 then 0xFFFF_FFFF_FFFF_FFFF else 0
  }

  function Neq(x_c1: i64, y_c1: i64): (r: i64)
    ensures r == Encode(None64.Neq(Decode(x_c1), Decode(y_c1)))
  {
    if x_c1 != y_c1 then -1 else 0
  }

  function UNeq(x_c1: u64, y_c1: u64): (r: u64)
    ensures r == UEncode(None64.UNeq(UDecode(x_c1), UDecode(y_c1)))
  {
    if x_c1 != y_c1 then 0xFFFF_FFFF_FFFF_FFFF else 0
  }

  /**
   * Negation reverses the order of two values unless exactly one of them is the most
   * negative value; then it keeps it, since that value is its own negation.
   */
  lemma OrderOfNegations(x_c1: i64, y_c1: i64)
    ensures (Decode(x_c1) == -TWO63) == (Decode(y_c1) == -TWO63) ==>
      (x_c1 > y_c1 <==> Decode(x_c1) < Decode(y_c1)) && (x_c1 >= y_c1 <==> Decode(x_c1) <= Decode(y_c1))
    ensures (Decode(x_c1) == -TWO63) != (Decode(y_c1) == -TWO63) ==>
      (x_c1 > y_c1 <==> Decode(x_c1) > Decode(y_c1)) && (x_c1 >= y_c1 <==> Decode(x_c1) >= Decode(y_c1))
  {
  }

  /** Encoded truth values: 1 is stored as -1 and 0 as 0. */
  lemma EncodedTruth(b: bool)
    ensures Encode(B2I(b)) == -B2I(b) && UEncode(B2I(b)) == if b then 0xFFFF_FFFF_FFFF_FFFF else 0
  {
  }

  /** The result is the encoded comparison exactly when both or neither operand is the most negative value. */
  function Less(x_c1: i64, y_c1: i64): (r: i64)
    ensures r == Encode(None64.Less(Decode(x_c1), Decode(y_c1))) <==>
      (Decode(x_c1) == -TWO63) == (Decode(y_c1) == -TWO63)
  {
    OrderOfNegations(x_c1, y_c1);
    EncodedTruth(Decode(x_c1) < Decode(y_c1));
    EncodedTruth(Decode(x_c1) > Decode(y_c1));
    if x_c1 > y_c1 then -1 else 0
  }

  function ULess(x_c1: u64, y_c1: u64): (r: u64)
    ensures r == UEncode(None64.ULess(UDecode(x_c1), UDecode(y_c1)))
  {
    var r0: u64 := if x_c1 > y_c1 then 0xFFFF_FFFF_FFFF_FFFF else 0;
    var r1: u64 := if y_c1 == 0 then 0 else r0;
    if x_c1 == 0 && y_c1 != 0 then 0xFFFF_FFFF_FFFF_FFFF else r1
  }

  function Grt(x_c1: i64, y_c1: i64): (r: i64)
    ensures r == Encode(None64.Grt(Decode(x_c1), Decode(y_c1))) <==>
      (Decode(x_c1) == -TWO63) == (Decode(y_c1) == -TWO63)
  {
    OrderOfNegations(x_c1, y_c1);
    EncodedTruth(Decode(x_c1) > Decode(y_c1));
    EncodedTruth(Decode(x_c1) < Decode(y_c1));
    if x_c1 < y_c1 then -1 else 0
  }

  function UGrt(x_c1: u64, y_c1: u64): (r: u64)
    ensures r == UEncode(None64.UGrt(UDecode(x_c1), UDecode(y_c1)))
  {
    var r0: u64 := if x_c1 < y_c1 then 0xFFFF_FFFF_FFFF_FFFF else 0;
    var r1: u64 := if y_c1 == 0 then (if x_c1 == 0 then 0 else 0xFFFF_FFFF_FFFF_FFFF) else r0;
    if x_c1 == 0 && y_c1 != 0 then 0 else r1
  }

  function Leq(x_c1: i64, y_c1: i64): (r: i64)
    ensures r == Encode(None64.Leq(Decode(x_c1), Decode(y_c1))) <==>
      (Decode(x_c1) == -TWO63) == (Decode(y_c1) == -TWO63)
  {
    OrderOfNegations(x_c1, y_c1);
    EncodedTruth(Decode(x_c1) <= Decode(y_c1));
    EncodedTruth(Decode(x_c1) >= Decode(y_c1));
    if x_c1 >= y_c1 then -1 else 0
  }

  function ULeq(x_c1: u64, y_c1: u64): (r: u64)
    ensures r == UEncode(None64.ULeq(UDecode(x_c1), UDecode(y_c1)))
  {
    var r0: u64 := if x_c1 >= y_c1 then 0xFFFF_FFFF_FFFF_FFFF else 0;
    var r1: u64 := if y_c1 == 0 then (if x_c1 == 0 then 0xFFFF_FFFF_FFFF_FFFF else 0) else r0;
    if x_c1 == 0 then 0xFFFF_FFFF_FFFF_FFFF else r1
  }

  function Geq(x_c1: i64, y_c1: i64): (r: i64)
    ensures r == Encode(None64.Geq(Decode(x_c1), Decode(y_c1))) <==>
      (Decode(x_c1) == -TWO63) == (Decode(y_c1) == -TWO63)
  {
    OrderOfNegations(x_c1, y_c1);
    EncodedTruth(Decode(x_c1) >= Decode(y_c1));
    EncodedTruth(Decode(x_c1) <= Decode(y_c1));
    if x_c1 <= y_c1 then -1 else 0
  }

  function UGeq(x_c1: u64, y_c1: u64): (r: u64)
    ensures r == UEncode(None64.UGeq(UDecode(x_c1), UDecode(y_c1)))
  {
    var r0: u64 := if x_c1 <= y_c1 then 0xFFFF_FFFF_FFFF_FFFF else 0;
    var r1: u64 := if x_c1 == 0 then (if y_c1 == 0 then 0xFFFF_FFFF_FFFF_FFFF else 0) else r0;
    if y_c1 == 0 then 0xFFFF_FFFF_FFFF_FFFF else r1
  }

  /** `x_c1 << y` with y the decoded shift amount: shifting the negation negates the shift. */
  function Shl(x_c1: i64, y_c1: i64): (r: i64)
    requires 0 <= Decode(y_c1) < 64
    ensures r == Encode(None64.Shl(Decode(x_c1), Decode(y_c1)))
  {
    var x: int, y: int := Decode(x_c1), Decode(y_c1);
    DecodeCong(x_c1);
    CongMul(x_c1, -x, Pow2(y), Pow2(y), TWO64);
    MulNeg(x, Pow2(y));
    EncodeOfCong(SWrap64(x_c1 * Pow2(y)), x_c1 * Pow2(y), None64.Shl(x, y), x * Pow2(y));
    SWrap64(x_c1 * Pow2(y))
  }

  function UShl(x_c1: u64, y_c1: u64): (r: u64)
    requires UDecode(y_c1) < 64
    ensures r == UEncode(None64.UShl(UDecode(x_c1), UDecode(y_c1)))
  {
    var x: int, y: int := UDecode(x_c1), UDecode(y_c1);
    UDecodeCong(x_c1);
    CongMul(x_c1, -x, Pow2(y), Pow2(y), TWO64);
    MulNeg(x, Pow2(y));
    UEncodeOfCong(Wrap64(x_c1 * Pow2(y)), x_c1 * Pow2(y), None64.UShl(x, y), x * Pow2(y));
    Wrap64(x_c1 * Pow2(y))
  }

  /**
   * `u_div(x_c1, (1 << y) * A1_64)`. The shift `1 << y` is done on a 32-bit int, so it is
   * defined only for y < 31; multiplied by A1_64 it is the encoding of 2^y.
   */
  function UShr(x_c1: u64, y_c1: u64): (r: u64)
    requires UDecode(y_c1) < 31
    ensures r == UEncode(None64.UShrCorrected(UDecode(x_c1), UDecode(y_c1)))
  {
    var y := UDecode(y_c1);
    ShiftDivisor(y);
    var d := Wrap64(Pow2(y) * 0xFFFF_FFFF_FFFF_FFFF);
    UDiv(x_c1, d)
  }

  /** `(1 << y) * A1_64` for y < 31 is the encoding of the non-zero word 2^y. */
  lemma ShiftDivisor(y: nat)
    requires y < 31
    ensures Pow2(y) < TWO63 && Wrap64(Pow2(y) * 0xFFFF_FFFF_FFFF_FFFF) == UEncode(Pow2(y))
  {
    Widths32();
    Widths64();
    Pow2Mono(y, 30);
    assert Pow2(31) == 2 * Pow2(30);
    var p: u64 := Pow2(y);
    UNegation(p);
  }

  /** `-(x_c1 && y_c1)`: an encoding is zero exactly when its value is. */
  function Land(x_c1: i64, y_c1: i64): (r: i64)
    ensures r == Encode(None64.Land(Decode(x_c1), Decode(y_c1)))
  {
    EncodedTruth(Decode(x_c1) != 0 && Decode(y_c1) != 0);
    -B2I(x_c1 != 0 && y_c1 != 0)
  }

  function ULand(x_c1: u64, y_c1: u64): (r: u64)
    ensures r == UEncode(None64.ULand(UDecode(x_c1), UDecode(y_c1)))
  {
    EncodedTruth(UDecode(x_c1) != 0 && UDecode(y_c1) != 0);
    Wrap64(-B2I(x_c1 != 0 && y_c1 != 0))
  }

  function Lor(x_c1: i64, y_c1: i64): (r: i64)
    ensures r == Encode(None64.Lor(Decode(x_c1), Decode(y_c1)))
  {
    EncodedTruth(Decode(x_c1) != 0 || Decode(y_c1) != 0);
    -B2I(x_c1 != 0 || y_c1 != 0)
  }

  function ULor(x_c1: u64, y_c1: u64): (r: u64)
    ensures r == UEncode(None64.ULor(UDecode(x_c1), UDecode(y_c1)))
  {
    EncodedTruth(UDecode(x_c1) != 0 || UDecode(y_c1) != 0);
    Wrap64(-B2I(x_c1 != 0 || y_c1 != 0))
  }

  /** Decode, `-1 - ((-1 - x) | (-1 - y))` (De Morgan), and multiply by A1_64. */
  function And(x_c1: i64, y_c1: i64): (r: i64)
    ensures r == Encode(None64.And(Decode(x_c1), Decode(y_c1)))
  {
    var x_d1, y_d1 := Decode(x_c1), Decode(y_c1);
    Widths64();
    SignedDeMorgan(x_d1, y_d1, 64);
    var r_c: i64 := -1 - SBitOr(-1 - x_d1, -1 - y_d1, 64);
    TimesA(r_c);
    SWrap64(r_c * 0xFFFF_FFFF_FFFF_FFFF)
  }

  /** The unsigned `-1 - v` is the complement of v. */
  lemma ComplementOfWord(v: u64)
    ensures Pow2(64) == TWO64 && Wrap64(-1 - v) == BitNot(v, 64)
  {
    Widths64();
  }

  function UAnd(x_c1: u64, y_c1: u64): (r: u64)
    ensures r == UEncode(None64.UAnd(UDecode(x_c1), UDecode(y_c1)))
  {
    var x_d1, y_d1 := UDecode(x_c1), UDecode(y_c1);
    UnsignedDeMorgan(x_d1, y_d1);
    var r_c: u64 := Wrap64(-1 - BitOr(Wrap64(-1 - x_d1), Wrap64(-1 - y_d1), 64));
    EncodingIsProduct(0, r_c);
    Wrap64(r_c * 0xFFFF_FFFF_FFFF_FFFF)
  }

  /** De Morgan on unsigned words, with the complement written as `-1 - v`. */
  lemma UnsignedDeMorgan(x: u64, y: u64)
    ensures Wrap64(-1 - BitOr(Wrap64(-1 - x), Wrap64(-1 - y), 64)) == BitAnd(x, y, 64)
    ensures Wrap64(-1 - BitAnd(Wrap64(-1 - x), Wrap64(-1 - y), 64)) == BitOr(x, y, 64)
  {
    Widths64();
    ComplementOfWord(x);
    ComplementOfWord(y);
    ComplementOfWord(BitOr(Wrap64(-1 - x), Wrap64(-1 - y), 64));
    ComplementOfWord(BitAnd(Wrap64(-1 - x), Wrap64(-1 - y), 64));
    DeMorganAnd(x, y, 64);
    DeMorganOr(x, y, 64);
  }

  /** Decode, `-1 - ((-1 - x) & (-1 - y))` (De Morgan), and multiply by A1_64. */
  function Or(x_c1: i64, y_c1: i64): (r: i64)
    ensures r == Encode(None64.Or(Decode(x_c1), Decode(y_c1)))
  {
    var x_d1, y_d1 := Decode(x_c1), Decode(y_c1);
    Widths64();
    SignedDeMorgan(x_d1, y_d1, 64);
    var r_c: i64 := -1 - SBitAnd(-1 - x_d1, -1 - y_d1, 64);
    TimesA(r_c);
    SWrap64(r_c * 0xFFFF_FFFF_FFFF_FFFF)
  }

  function UOr(x_c1: u64, y_c1: u64): (r: u64)
    ensures r == UEncode(None64.UOr(UDecode(x_c1), UDecode(y_c1)))
  {
    var x_d1, y_d1 := UDecode(x_c1), UDecode(y_c1);
    UnsignedDeMorgan(x_d1, y_d1);
    var r_c: u64 := Wrap64(-1 - BitAnd(Wrap64(-1 - x_d1), Wrap64(-1 - y_d1), 64));
    EncodingIsProduct(0, r_c);
    Wrap64(r_c * 0xFFFF_FFFF_FFFF_FFFF)
  }

  /** `~x_c1 + 2`: the negation of ~x is x + 1, and ~(-x) + 2 is x + 1 as well. */
  function Neg(x_c1: i64): (r: i64)
    ensures r == Encode(None64.Neg(Decode(x_c1)))
  {
    var x: int := Decode(x_c1);
    DecodeCong(x_c1);
    CongSub(1, 1, x_c1, -x, TWO64);
    EncodeOfCong(SWrap64((-1 - x_c1) + 2), (-1 - x_c1) + 2, None64.Neg(x), -1 - x);
    SWrap64((-1 - x_c1) + 2)
  }

  function UNeg(x_c1: u64): (r: u64)
    ensures r == UEncode(None64.UNeg(UDecode(x_c1)))
  {
    var x: int := UDecode(x_c1);
    Widths64();
    UDecodeCong(x_c1);
    CongSub(1, 1, x_c1, -x, TWO64);
    MulIsCong(BitNot(x_c1, 64) + 2, 1 - x_c1, 1, TWO64);
    MulIsCong(None64.UNeg(x), -1 - x, 1, TWO64);
    UEncodeOfCong(Wrap64(BitNot(x_c1, 64) + 2), 1 - x_c1, None64.UNeg(x), -1 - x);
    Wrap64(BitNot(x_c1, 64) + 2)
  }

  /**
   * Decode into unsigned words, xor them, and re-encode if the revert check
   * `(r ^ y) * A1_64 == x_c1` holds (the signed x_c1 is compared as an unsigned word);
   * otherwise the decoded xor is returned.
   */
  function Xor(x_c1: i64, y_c1: i64): (r: i64)
    ensures r == Encode(None64.Xor(Decode(x_c1), Decode(y_c1)))
  {
    var x_d1: u64, y_d1: u64 := Wrap64(x_c1 * 0xFFFF_FFFF_FFFF_FFFF), Wrap64(y_c1 * 0xFFFF_FFFF_FFFF_FFFF);
    Widths64();
    var r_d1: u64 := BitXor(x_d1, y_d1, 64);
    var revert: u64 := Wrap64(BitXor(r_d1, y_d1, 64) * 0xFFFF_FFFF_FFFF_FFFF);
    XorDecoded(x_c1, y_c1);
    if Wrap64(x_c1) == revert then SWrap64(Wrap64(r_d1 * 0xFFFF_FFFF_FFFF_FFFF)) else SWrap64(r_d1)
  }

  /** The signed xor's decoded words are the patterns of the values, and its revert check holds. */
  lemma XorDecoded(x_c1: i64, y_c1: i64)
    ensures Wrap64(x_c1 * 0xFFFF_FFFF_FFFF_FFFF) == Pattern(Decode(x_c1), 64)
    ensures Wrap64(y_c1 * 0xFFFF_FFFF_FFFF_FFFF) == Pattern(Decode(y_c1), 64)
    ensures Wrap64(x_c1) == Wrap64(BitXor(BitXor(Wrap64(x_c1 * 0xFFFF_FFFF_FFFF_FFFF), Wrap64(y_c1 * 0xFFFF_FFFF_FFFF_FFFF), 64), Wrap64(y_c1 * 0xFFFF_FFFF_FFFF_FFFF), 64) * 0xFFFF_FFFF_FFFF_FFFF)
    ensures SWrap64(Wrap64(BitXor(Wrap64(x_c1 * 0xFFFF_FFFF_FFFF_FFFF), Wrap64(y_c1 * 0xFFFF_FFFF_FFFF_FFFF), 64) * 0xFFFF_FFFF_FFFF_FFFF)) ==
      Encode(None64.Xor(Decode(x_c1), Decode(y_c1)))
  {
    Widths64();
    var X: u64, Y: u64 := Wrap64(x_c1 * 0xFFFF_FFFF_FFFF_FFFF), Wrap64(y_c1 * 0xFFFF_FFFF_FFFF_FFFF);
    OperandPattern(x_c1);
    OperandPattern(y_c1);
    XorCancel(X, Y, 64);
    TimesA(X);
    XorEncoded(BitXor(X, Y, 64), Decode(x_c1), Decode(y_c1));
  }

  /** `x_c1 * A1_64` as an unsigned word is the pattern of the value, and negating it gives x_c1 back. */
  lemma OperandPattern(x_c1: i64)
    ensures Wrap64(x_c1 * 0xFFFF_FFFF_FFFF_FFFF) == Pattern(Decode(x_c1), 64)
    ensures Wrap64(-(Wrap64(x_c1 * 0xFFFF_FFFF_FFFF_FFFF) as int)) == Wrap64(x_c1)
  {
    Widths64();
    var x: int := Decode(x_c1);
    var X: u64 := Wrap64(x_c1 * 0xFFFF_FFFF_FFFF_FFFF);
    var nx: int := -(x_c1 as int);
    TimesA(x_c1);
    DecodeCong(x_c1);
    CongSub(0, 0, x_c1, -x, TWO64);
    WrapMCong(nx, x, TWO64);
    CongTrans(X, nx, x, TWO64);
    CongSub(0, 0, X, x, TWO64);
    CongSym(x_c1, -x, TWO64);
    CongTrans(-(X as int), -x, x_c1, TWO64);
    WrapMCong(-(X as int), x_c1, TWO64);
  }

  /** The xor of the patterns, multiplied by A1_64 and read as signed, is the encoded signed xor. */
  lemma XorEncoded(R: u64, x: i64, y: i64)
    requires Pow2(64) == TWO64 && R == BitXor(Pattern(x, 64), Pattern(y, 64), 64)
    ensures SWrap64(Wrap64(R * 0xFFFF_FFFF_FFFF_FFFF)) == Encode(None64.Xor(x, y))
  {
    var n := None64.Xor(x, y);
    PatternOfOps(x, y, 64);
    PatternOfSigned(R, 64);
    CongSym(Pattern(n, 64), n, TWO64);
    WrapMUnique(R, R, TWO64);
    CongTrans(n, Pattern(n, 64), R, TWO64);
    TimesA(R);
    var w: u64 := Wrap64(R * 0xFFFF_FFFF_FFFF_FFFF);
    SWrapMCong(w, -(R as int), TWO63);
    CongRefl(-(R as int), TWO64);
    EncodeOfCong(SWrap64(w), -(R as int), n, R);
  }

  function UXor(x_c1: u64, y_c1: u64): (r: u64)
    ensures r == UEncode(None64.UXor(UDecode(x_c1), UDecode(y_c1)))
  {
    var x_d1, y_d1 := UDecode(x_c1), UDecode(y_c1);
    Widths64();
    var r_d1: u64 := BitXor(x_d1, y_d1, 64);
    XorCancel(x_d1, y_d1, 64);
    var revert: u64 := UEncode(BitXor(r_d1, y_d1, 64));
    if x_c1 == revert then UEncode(r_d1) else r_d1
  }
}
