/**
 * AN coding of codings/an_32.h: a 32-bit value x is held as the product A * x in a
 * 64-bit container, with A = A1_32 = 58659. A valid signed code is a multiple of A
 * whose quotient is a 32-bit value; the unsigned codes likewise. Every operation is
 * stated against the uncoded baseline None32 on the decoded operands.
 */
module AN32 {
  import opened Words
  import None32

  /** The powers of two of the value width (a local name for the facts of Words, which the proofs here need in scope). */
  lemma Widths()
    ensures Pow2(31) == TWO31 && Pow2(32) == TWO32
  {
    Widths32();
  }

  /** A valid signed code: a multiple of 58659 whose quotient is a signed 32-bit value. */
  predicate IsCode(x_c1: int)
  {
    x_c1 % 58659 == 0 && -TWO31 <= x_c1 / 58659 < TWO31
  }

  /** A valid unsigned code: a multiple of 58659 whose quotient is an unsigned 32-bit value. */
  predicate UIsCode(x_c1: int)
  {
    x_c1 % 58659 == 0 && 0 <= x_c1 / 58659 < TWO32
  }

  /** A multiple of 58659 divides back exactly, in both the Euclidean and the C division. */
  lemma Multiple(k: int)
    ensures (58659 * k) % 58659 == 0 && (58659 * k) / 58659 == k
    ensures CDiv(58659 * k, 58659) == k
  {
    DivModUnique(58659 * k, 58659, k, 0);
    CDivScale(k, 1, 58659);
    assert CDiv(k, 1) * 1 + CRem(k, 1) == k;
  }

  function Encode(x: i32): (r: i64)
    ensures IsCode(r) && Decode(r) == x
  {
    Multiple(x);
    58659 * x
  }

  function UEncode(x: u32): (r: u64)
    ensures UIsCode(r) && UDecode(r) == x
  {
    Multiple(x);
    x * 58659
  }

  /** The C quotient by A, cast to 32 bits; on a code it is the encoded value. */
  function Decode(x_c1: i64): (r: i32)
    ensures IsCode(x_c1) ==> 58659 * r == x_c1
  {
    Multiple(x_c1 / 58659);
    SWrap32(CDiv(x_c1, 58659))
  }

  function UDecode(x_c1: u64): (r: u32)
    ensures UIsCode(x_c1) ==> r * 58659 == x_c1
  {
    Wrap32(x_c1 / 58659)
  }

  /** The C remainder by A is zero exactly when the word is a multiple of A. */
  lemma RemainderByA(v: int)
    ensures CRem(v, 58659) == 0 <==> v % 58659 == 0
  {
    CDivByAbs(v, 58659);
    if v < 0 {
      if v % 58659 == 0 {
        DivModUnique(-v, 58659, -(v / 58659), 0);
      }
      if (-v) % 58659 == 0 {
        DivModUnique(v, 58659, -((-v) / 58659), 0);
      }
    }
  }

  /**
   * The check accepts a code exactly when the expected value is its quotient, and
   * rejects every word that is not a multiple of A.
   */
  function Check(val: i64, valc: i64): (r: bool)
    ensures IsCode(valc) ==> (r <==> 58659 * val == valc)
    ensures valc % 58659 != 0 ==> !r
  {
    RemainderByA(valc);
    val == Decode(valc) && CRem(valc, 58659) == 0
  }

  function UCheck(val: u64, valc: u64): (r: bool)
    ensures UIsCode(valc) ==> (r <==> val * 58659 == valc)
    ensures valc % 58659 != 0 ==> !r
  {
    val == UDecode(valc) && valc % 58659 == 0
  }

  /**
   * The coded sum is A times the plain sum; it decodes to the wrapped sum, and it is a
   * valid code exactly when the plain sum does not overflow.
   */
  function Add(x_c1: i64, y_c1: i64): (r: i64)
    ensures IsCode(x_c1) && IsCode(y_c1) ==>
      r == 58659 * (Decode(x_c1) + Decode(y_c1))
      && Decode(r) == None32.Add(Decode(x_c1), Decode(y_c1))
      && (IsCode(r) <==> -TWO31 <= Decode(x_c1) + Decode(y_c1) < TWO31)
  {
    Multiple(Decode(x_c1) + Decode(y_c1));
    SWrap64(x_c1 + y_c1)
  }

  function UAdd(x_c1: u64, y_c1: u64): (r: u64)
    ensures UIsCode(x_c1) && UIsCode(y_c1) ==>
      r == 58659 * (UDecode(x_c1) + UDecode(y_c1))
      && UDecode(r) == None32.UAdd(UDecode(x_c1), UDecode(y_c1))
      && (UIsCode(r) <==> UDecode(x_c1) + UDecode(y_c1) < TWO32)
  {
    Multiple(UDecode(x_c1) + UDecode(y_c1));
    Wrap64(x_c1 + y_c1)
  }

  function Sub(x_c1: i64, y_c1: i64): (r: i64)
    ensures IsCode(x_c1) && IsCode(y_c1) ==>
      r == 58659 * (Decode(x_c1) - Decode(y_c1))
      && Decode(r) == None32.Sub(Decode(x_c1), Decode(y_c1))
      && (IsCode(r) <==> -TWO31 <= Decode(x_c1) - Decode(y_c1) < TWO31)
  {
    Multiple(Decode(x_c1) - Decode(y_c1));
    SWrap64(x_c1 - y_c1)
  }

  /**
   * The unsigned difference of codes; when it would go below zero, the constant
   * 2^32 * (2^32 - A) is subtracted, which turns the 64-bit wrap into the 32-bit one.
   */
  function USub(x_c1: u64, y_c1: u64): (r: u64)
    ensures UIsCode(x_c1) && UIsCode(y_c1) ==> r == UEncode(None32.USub(UDecode(x_c1), UDecode(y_c1)))
  {
    USubRepairs(x_c1, y_c1);
    var r_c1: u64 := Wrap64(x_c1 - y_c1);
    if x_c1 < y_c1 then Wrap64(r_c1 - 18446492135222935552) else r_c1
  }

  lemma USubRepairs(x_c1: u64, y_c1: u64)
    ensures UIsCode(x_c1) && UIsCode(y_c1) ==>
      (if x_c1 < y_c1 then Wrap64(Wrap64(x_c1 - y_c1) - 18446492135222935552) else Wrap64(x_c1 - y_c1))
        == UEncode(None32.USub(UDecode(x_c1), UDecode(y_c1)))
  {
    if UIsCode(x_c1) && UIsCode(y_c1) {
      var x: int, y: int := UDecode(x_c1), UDecode(y_c1);
      if x_c1 < y_c1 {
        assert Wrap64(x_c1 - y_c1) == x_c1 - y_c1 + 0x1_0000_0000_0000_0000;
        assert None32.USub(x, y) == x - y + 0x1_0000_0000;
      } else {
        assert None32.USub(x, y) == x - y;
      }
    }
  }

  /** The repair of the sign of mul: a wrapped negative product gets the positive remainder shifted down, and vice versa. */
  function SignRepair(r: int, res: int, r_c1: i64): i64
  {
    if r > 0 then (if res < 0 then SWrap64(r_c1 + 18446492135222935552) else r_c1)
    else (if res > 0 then SWrap64(r_c1 - 18446492135222935552) else r_c1)
  }

  /**
   * mul decodes both operands, multiplies the coded left operand by the plain right one,
   * and removes A * 2^32 per unit of the quotient of the plain product by 2^32; the sign
   * test on the 32-bit product `res` then repairs the result.
   */
  function Mul(x_c1: i64, y_c1: i64): i64
  {
    var x_d1: int := CDiv(x_c1, 58659);
    var y_d1: int := CDiv(y_c1, 58659);
    var res: i32 := SWrap32(SWrap32(x_d1) * SWrap32(y_d1));
    var r: i64 := SWrap64(x_d1 * y_d1);
    var quo: int := CDiv(r, 0x1_0000_0000);
    var r_c1: i64 := SWrap64(x_c1 * y_d1 - quo * 251938486616064);
    SignRepair(r, res, r_c1)
  }

  /** A 32-bit wrap of the product of two casts is the wrap of the product. */
  lemma ResidueOfProduct(x: int, y: int)
    ensures Cong(SWrap32(SWrap32(x) * SWrap32(y)), x * y, TWO32)
  {
    CongMul(SWrap32(x), x, SWrap32(y), y, TWO32);
    CongTrans(SWrap32(SWrap32(x) * SWrap32(y)), SWrap32(x) * SWrap32(y), x * y, TWO32);
  }

  /** For c the C remainder of the product by 2^32 and res its 32-bit wrap, the repair yields A * res. */
  lemma SignRepairCorrect(xy: i64, res: i32, c: int)
    requires Cong(res, xy, TWO32) && c == CRem(xy, 0x1_0000_0000)
    ensures -TWO63 <= 58659 * c < TWO63
    ensures SignRepair(xy, res, 58659 * c) == 58659 * res
  {
    var P := 0x1_0000_0000;
    assert Cong(c, xy, TWO32);
    CongSym(res, xy, TWO32);
    if xy > 0 && res < 0 {
      MulIsCong(c - P, c, -1, TWO32);
      CongTrans(c - P, c, xy, TWO32);
      CongTrans(c - P, xy, res, TWO32);
      CongWindow(c - P, res, -P, TWO32);
      MulIsCong(58659 * (c - P), 58659 * c + 18446492135222935552, -1, TWO64);
      SWrapMUnique(58659 * (c - P), 58659 * c + 18446492135222935552, TWO63);
    } else if xy > 0 {
      CongTrans(c, xy, res, TWO32);
      CongWindow(c, res, 0, TWO32);
    } else if res > 0 {
      MulIsCong(c + P, c, 1, TWO32);
      CongTrans(c + P, c, xy, TWO32);
      CongTrans(c + P, xy, res, TWO32);
      CongWindow(c + P, res, 1, TWO32);
      MulIsCong(58659 * (c + P), 58659 * c - 18446492135222935552, 1, TWO64);
      SWrapMUnique(58659 * (c + P), 58659 * c - 18446492135222935552, TWO63);
    } else {
      CongTrans(c, xy, res, TWO32);
      CongWindow(c, res, -P + 1, TWO32);
    }
  }

  /** On multiples of A with quotients of at most 2^31 in magnitude, mul is A times the wrapped product. */
  lemma MulOfMultiples(x: int, y: int)
    requires -TWO31 <= x <= TWO31 && -TWO31 <= y <= TWO31
    ensures -TWO63 <= 58659 * x < TWO63 && -TWO63 <= 58659 * y < TWO63
    ensures Mul(58659 * x, 58659 * y) == 58659 * SWrap32(x * y)
  {
    var xy := x * y;
    var res := SWrap32(SWrap32(x) * SWrap32(y));
    MulUnfolds(x, y);
    ResidueOfProduct(x, y);
    SignRepairCorrect(xy, res, CRem(xy, 0x1_0000_0000));
    SWrapMUnique(res, xy, TWO31);
  }

  /** On such multiples the steps of mul before the sign repair are exact. */
  lemma MulUnfolds(x: int, y: int)
    requires -TWO31 <= x <= TWO31 && -TWO31 <= y <= TWO31
    ensures -TWO63 <= 58659 * x < TWO63 && -TWO63 <= 58659 * y < TWO63
    ensures -0x4000_0000_0000_0000 <= x * y <= 0x4000_0000_0000_0000 && -TWO63 <= 58659 * CRem(x * y, 0x1_0000_0000) < TWO63
    ensures Mul(58659 * x, 58659 * y)
      == SignRepair(x * y, SWrap32(SWrap32(x) * SWrap32(y)), 58659 * CRem(x * y, 0x1_0000_0000))
  {
    Multiple(x);
    Multiple(y);
    var xy := x * y;
    ProductBound(x, y, 0x8000_0000);
    assert -0x4000_0000_0000_0000 <= xy <= 0x4000_0000_0000_0000;
    var quo := CDiv(xy, 0x1_0000_0000);
    var c := CRem(xy, 0x1_0000_0000);
    ScaleProduct(x, y);
    assert 58659 * xy - quo * 251938486616064 == 58659 * c;
  }

  lemma ScaleProduct(x: int, y: int)
    ensures (58659 * x) * y == 58659 * (x * y)
  {
  }

  lemma MulEncodes(x_c1: i64, y_c1: i64)
    ensures IsCode(x_c1) && IsCode(y_c1) ==> Mul(x_c1, y_c1) == Encode(None32.Mul(Decode(x_c1), Decode(y_c1)))
  {
    if IsCode(x_c1) && IsCode(y_c1) {
      MulOfMultiples(Decode(x_c1), Decode(y_c1));
    }
  }

  /** The unsigned mul: the same reduction by A * 2^32 per unit of the quotient, without a sign repair. */
  function UMul(x_c1: u64, y_c1: u64): u64
  {
    var x_d1: u64 := x_c1 / 58659;
    var y_d1: u64 := y_c1 / 58659;
    var r: u64 := Wrap64(x_d1 * y_d1);
    var quo: u64 := r / 0x1_0000_0000;
    Wrap64(x_c1 * y_d1 - quo * 251938486616064)
  }

  lemma UMulOfMultiples(x: u32, y: u32)
    ensures UMul(58659 * x, 58659 * y) == 58659 * Wrap32(x * y)
  {
    Multiple(x);
    Multiple(y);
    var xy := x * y;
    ProductBound(x, y, 0x1_0000_0000 - 1);
    assert 0 <= xy < 0x1_0000_0000_0000_0000;
    var quo := xy / 0x1_0000_0000;
    var c := xy % 0x1_0000_0000;
    assert (58659 * x) * y == 58659 * xy;
    assert 58659 * xy - quo * 251938486616064 == 58659 * c;
    CongMod(xy, TWO32);
    WrapMUnique(c, xy, TWO32);
  }

  lemma UMulEncodes(x_c1: u64, y_c1: u64)
    ensures UIsCode(x_c1) && UIsCode(y_c1) ==> UMul(x_c1, y_c1) == UEncode(None32.UMul(UDecode(x_c1), UDecode(y_c1)))
  {
    if UIsCode(x_c1) && UIsCode(y_c1) {
      UMulOfMultiples(UDecode(x_c1), UDecode(y_c1));
    }
  }

  /** The quotient of the codes, re-encoded; C leaves division by zero and MIN / -1 undefined. */
  function Div(x_c1: i64, y_c1: i64): (r: i64)
    requires y_c1 != 0 && !(x_c1 == -TWO63 && y_c1 == -1)
    ensures IsCode(x_c1) && IsCode(y_c1) && !(Decode(x_c1) == -TWO31 && Decode(y_c1) == -1) ==>
      r == Encode(None32.Div(Decode(x_c1), Decode(y_c1)))
  {
    if IsCode(x_c1) && IsCode(y_c1) && !(Decode(x_c1) == -TWO31 && Decode(y_c1) == -1) then
      CDivScale(Decode(x_c1), Decode(y_c1), 58659);
      CDivRange(Decode(x_c1), Decode(y_c1), TWO31);
      SWrap64(CDiv(x_c1, y_c1) * 58659)
    else
      SWrap64(CDiv(x_c1, y_c1) * 58659)
  }

  function UDiv(x_c1: u64, y_c1: u64): (r: u64)
    requires y_c1 != 0
    ensures UIsCode(x_c1) && UIsCode(y_c1) ==> r == UEncode(None32.UDiv(UDecode(x_c1), UDecode(y_c1)))
  {
    if UIsCode(x_c1) && UIsCode(y_c1) then
      ScaledDivMod(UDecode(x_c1), UDecode(y_c1), 58659);
      Wrap64((x_c1 / y_c1) * 58659)
    else
      Wrap64((x_c1 / y_c1) * 58659)
  }

  /** The C remainder of the codes is A times the remainder of the values. */
  function Mod(x_c1: i64, y_c1: i64): (r: i64)
    requires y_c1 != 0 && !(x_c1 == -TWO63 && y_c1 == -1)
    ensures IsCode(x_c1) && IsCode(y_c1) && !(Decode(x_c1) == -TWO31 && Decode(y_c1) == -1) ==>
      r == Encode(None32.Mod(Decode(x_c1), Decode(y_c1)))
  {
    if IsCode(x_c1) && IsCode(y_c1) then
      CDivScale(Decode(x_c1), Decode(y_c1), 58659);
      CRem(x_c1, y_c1)
    else
      CRem(x_c1, y_c1)
  }

  function UMod(x_c1: u64, y_c1: u64): (r: u64)
    requires y_c1 != 0
    ensures UIsCode(x_c1) && UIsCode(y_c1) ==> r == UEncode(None32.UMod(UDecode(x_c1), UDecode(y_c1)))
  {
    if UIsCode(x_c1) && UIsCode(y_c1) then
      ScaledDivMod(UDecode(x_c1), UDecode(y_c1), 58659);
      x_c1 % y_c1
    else
      x_c1 % y_c1
  }

  // Comparisons compare the codes directly: multiplication by A > 0 keeps the order.

  function Eq(x_c1: i64, y_c1: i64): (r: i64)
    ensures IsCode(x_c1) && IsCode(y_c1) ==> r == Encode(None32.Eq(Decode(x_c1), Decode(y_c1)))
  {
    if x_c1 == y_c1 then 58659 else 0
  }

  function UEq(x_c1: u64, y_c1: u64): (r: u64)
    ensures UIsCode(x_c1) && UIsCode(y_c1) ==> r == UEncode(None32.UEq(UDecode(x_c1), UDecode(y_c1)))
  {
    if x_c1 == y_c1 then 58659 else 0
  }

  function Neq(x_c1: i64, y_c1: i64): (r: i64)
    ensures IsCode(x_c1) && IsCode(y_c1) ==> r == Encode(None32.Neq(Decode(x_c1), Decode(y_c1)))
  {
    if x_c1 != y_c1 then 58659 else 0
  }

  function UNeq(x_c1: u64, y_c1: u64): (r: u64)
    ensures UIsCode(x_c1) && UIsCode(y_c1) ==> r == UEncode(None32.UNeq(UDecode(x_c1), UDecode(y_c1)))
  {
    if x_c1 != y_c1 then 58659 else 0
  }

  function Less(x_c1: i64, y_c1: i64): (r: i64)
    ensures IsCode(x_c1) && IsCode(y_c1) ==> r == Encode(None32.Less(Decode(x_c1), Decode(y_c1)))
  {
    if x_c1 < y_c1 then 58659 else 0
  }

  function ULess(x_c1: u64, y_c1: u64): (r: u64)
    ensures UIsCode(x_c1) && UIsCode(y_c1) ==> r == UEncode(None32.ULess(UDecode(x_c1), UDecode(y_c1)))
  {
    if x_c1 < y_c1 then 58659 else 0
  }

  function Grt(x_c1: i64, y_c1: i64): (r: i64)
    ensures IsCode(x_c1) && IsCode(y_c1) ==> r == Encode(None32.Grt(Decode(x_c1), Decode(y_c1)))
  {
    if x_c1 > y_c1 then 58659 else 0
  }

  function UGrt(x_c1: u64, y_c1: u64): (r: u64)
    ensures UIsCode(x_c1) && UIsCode(y_c1) ==> r == UEncode(None32.UGrt(UDecode(x_c1), UDecode(y_c1)))
  {
    if x_c1 > y_c1 then 58659 else 0
  }

  function Leq(x_c1: i64, y_c1: i64): (r: i64)
    ensures IsCode(x_c1) && IsCode(y_c1) ==> r == Encode(None32.Leq(Decode(x_c1), Decode(y_c1)))
  {
    if x_c1 <= y_c1 then 58659 else 0
  }

  function ULeq(x_c1: u64, y_c1: u64): (r: u64)
    ensures UIsCode(x_c1) && UIsCode(y_c1) ==> r == UEncode(None32.ULeq(UDecode(x_c1), UDecode(y_c1)))
  {
    if x_c1 <= y_c1 then 58659 else 0
  }

  function Geq(x_c1: i64, y_c1: i64): (r: i64)
    ensures IsCode(x_c1) && IsCode(y_c1) ==> r == Encode(None32.Geq(Decode(x_c1), Decode(y_c1)))
  {
    if x_c1 >= y_c1 then 58659 else 0
  }

  function UGeq(x_c1: u64, y_c1: u64): (r: u64)
    ensures UIsCode(x_c1) && UIsCode(y_c1) ==> r == UEncode(None32.UGeq(UDecode(x_c1), UDecode(y_c1)))
  {
    if x_c1 >= y_c1 then 58659 else 0
  }

  /**
   * `x << y` as mul by the code-like word `(1 << y) * A`; the signed 64-bit `1 << y` is
   * undefined in C for y < 0 or y >= 63.
   */
  function Shl(x_c1: i64, y_c1: i64): (r: i64)
    requires 0 <= Decode(y_c1) < 63
    ensures IsCode(x_c1) && IsCode(y_c1) && Decode(y_c1) < 32 ==>
      r == Encode(None32.Shl(Decode(x_c1), Decode(y_c1)))
  {
    var y: nat := Decode(y_c1);
    ShiftedFactor(x_c1, y);
    Mul(x_c1, SWrap64(Pow2(y) * 58659))
  }

  lemma ShiftedFactor(x_c1: i64, y: nat)
    ensures IsCode(x_c1) && y < 32 ==>
      Mul(x_c1, SWrap64(Pow2(y) * 58659)) == Encode(SWrap32(Decode(x_c1) * Pow2(y)))
  {
    if IsCode(x_c1) && y < 32 {
      var x: int, p: int := Decode(x_c1), Pow2(y);
      Widths();
      Pow2Mono(y, 31);
      assert 1 <= p <= TWO31;
      assert SWrap64(p * 58659) == 58659 * p;
      MulOfMultiples(x, p);
      assert x_c1 == 58659 * x;
    }
  }

  /** The unsigned shift `1 << y` of the 64-bit container is undefined in C for y >= 64. */
  function UShl(x_c1: u64, y_c1: u64): (r: u64)
    requires UDecode(y_c1) < 64
    ensures UIsCode(x_c1) && UIsCode(y_c1) && UDecode(y_c1) < 32 ==>
      r == UEncode(None32.UShl(UDecode(x_c1), UDecode(y_c1)))
  {
    var y := UDecode(y_c1);
    UShiftedFactor(x_c1, y);
    UMul(x_c1, Wrap64(Pow2(y) * 58659))
  }

  lemma UShiftedFactor(x_c1: u64, y: nat)
    ensures UIsCode(x_c1) && y < 32 ==>
      UMul(x_c1, Wrap64(Pow2(y) * 58659)) == UEncode(Wrap32(UDecode(x_c1) * Pow2(y)))
  {
    if UIsCode(x_c1) && y < 32 {
      var x: int, p: int := UDecode(x_c1), Pow2(y);
      Widths();
      Pow2Mono(y, 32 - 1);
      assert 1 <= p <= TWO31;
      assert Wrap64(p * 58659) == 58659 * p;
      UMulOfMultiples(x, p);
      assert x_c1 == 58659 * x;
    }
  }

  /** An odd multiple of a power of two below 2^64 does not wrap to zero. */
  lemma ShiftDivisor(y: nat)
    requires y < 64
    ensures Wrap64(Pow2(y) * 58659) != 0
  {
    var c, b := Pow2(y), Pow2(64 - y);
    assert c * b == TWO64 by {
      Widths64();
      Pow2Add(y, 64 - y);
    }
    var rm := 58659 % b;
    assert (c * 58659) % TWO64 == c * rm by {
      ScaledDivMod(58659, b, c);
    }
    assert rm % 2 == 1 by {
      assert b == 2 * Pow2(64 - y - 1);
      EvenModulus(58659, b, Pow2(64 - y - 1));
    }
    assert 0 < c * rm by {
      MulSign(rm, c);
    }
    CongMod(c * 58659, TWO64);
    WrapMUnique(c * rm, c * 58659, TWO64);
  }

  /** Reducing by an even modulus keeps the parity. */
  lemma EvenModulus(x: int, b: int, k: int)
    requires k > 0 && b == 2 * k
    ensures (x % b) % 2 == x % 2
  {
    var q := x / b;
    var rm := x % b;
    assert x == q * b + rm;
    assert q * b == 2 * (q * k);
    DivModUnique(x, 2, q * k + rm / 2, rm % 2);
  }

  /** `x >> y` as u_div by `(1 << y) * A`, which never wraps to zero. */
  function UShr(x_c1: u64, y_c1: u64): (r: u64)
    requires UDecode(y_c1) < 64
    ensures UIsCode(x_c1) && UIsCode(y_c1) && UDecode(y_c1) < 32 ==>
      r == UEncode(None32.UShrCorrected(UDecode(x_c1), UDecode(y_c1)))
  {
    var y := UDecode(y_c1);
    ShiftDivisor(y);
    UShiftedQuotient(x_c1, y);
    UDiv(x_c1, Wrap64(Pow2(y) * 58659))
  }

  lemma UShiftedQuotient(x_c1: u64, y: nat)
    requires y < 64
    ensures Wrap64(Pow2(y) * 58659) != 0
    ensures UIsCode(x_c1) && y < 32 ==>
      UDiv(x_c1, Wrap64(Pow2(y) * 58659)) == UEncode(None32.UShrCorrected(UDecode(x_c1), y))
  {
    ShiftDivisor(y);
    if UIsCode(x_c1) && y < 32 {
      var p: int := Pow2(y);
      Pow2Mono(y, 32 - 1);
      assert Pow2(31) == TWO31 by { Widths32(); }
      assert 1 <= p <= TWO31;
      assert Wrap64(p * 58659) == 58659 * p;
      Multiple(p);
      assert UIsCode(58659 * p) && UDecode(58659 * p) == p;
      assert None32.UDiv(UDecode(x_c1), p) == None32.UShrCorrected(UDecode(x_c1), y);
    }
  }

  /** land as written: true exactly when the coded product is non-zero, that is, when the wrapped 32-bit product is. */
  function Land(x_c1: i64, y_c1: i64): (r: i64)
    ensures IsCode(x_c1) && IsCode(y_c1) ==>
      r == Encode(if None32.Mul(Decode(x_c1), Decode(y_c1)) != 0 then 1 else 0)
  {
    LandOfCodes(x_c1, y_c1);
    var r_c1 := Mul(x_c1, y_c1);
    if r_c1 != 0 then 58659 else r_c1
  }

  lemma LandOfCodes(x_c1: i64, y_c1: i64)
    ensures IsCode(x_c1) && IsCode(y_c1) ==>
      (Mul(x_c1, y_c1) == 0 <==> None32.Mul(Decode(x_c1), Decode(y_c1)) == 0)
  {
    MulEncodes(x_c1, y_c1);
  }

  function ULand(x_c1: u64, y_c1: u64): (r: u64)
    ensures UIsCode(x_c1) && UIsCode(y_c1) ==>
      r == UEncode(if None32.UMul(UDecode(x_c1), UDecode(y_c1)) != 0 then 1 else 0)
  {
    UMulEncodes(x_c1, y_c1);
    var r_c1 := UMul(x_c1, y_c1);
    if r_c1 != 0 then 58659 else r_c1
  }

  /**
   * land of two true operands whose 32-bit product wraps to zero is false;
   * MulVanishes shows that 2^16 is such an operand.
   */
  lemma LandOfWrappedProduct(x_c1: i64)
    requires IsCode(x_c1) && Decode(x_c1) != 0 && None32.Mul(Decode(x_c1), Decode(x_c1)) == 0
    ensures Land(x_c1, x_c1) == Encode(0)
    ensures None32.Land(Decode(x_c1), Decode(x_c1)) == 1
  {
  }

  /** The 32-bit products of 2^16 with itself wrap to zero. */
  lemma MulVanishes()
    ensures None32.Mul(0x1_0000, 0x1_0000) == 0 && None32.UMul(0x1_0000, 0x1_0000) == 0
  {
    MulIsCong(0, 0x1_0000_0000, -1, TWO32);
    WrapMUnique(0, 0x1_0000_0000, TWO32);
    SWrapMUnique(0, 0x1_0000_0000, TWO31);
  }

  /** The unsigned counterpart: u_land of two true operands whose product wraps is false. */
  lemma ULandOfWrappedProduct(x_c1: u64)
    requires UIsCode(x_c1) && UDecode(x_c1) != 0 && None32.UMul(UDecode(x_c1), UDecode(x_c1)) == 0
    ensures ULand(x_c1, x_c1) == UEncode(0)
    ensures None32.ULand(UDecode(x_c1), UDecode(x_c1)) == 1
  {
  }

  /** The logical and the encoding intends: true when both codes are non-zero. */
  function LandCorrected(x_c1: i64, y_c1: i64): (r: i64)
    ensures IsCode(x_c1) && IsCode(y_c1) ==> r == Encode(None32.Land(Decode(x_c1), Decode(y_c1)))
  {
    ZeroCode(x_c1);
    ZeroCode(y_c1);
    if x_c1 != 0 && y_c1 != 0 then 58659 else 0
  }

  /** A code is zero exactly when its value is. */
  lemma ZeroCode(x_c1: i64)
    ensures IsCode(x_c1) ==> (x_c1 == 0 <==> Decode(x_c1) == 0)
  {
  }

  function ULandCorrected(x_c1: u64, y_c1: u64): (r: u64)
    ensures UIsCode(x_c1) && UIsCode(y_c1) ==> r == UEncode(None32.ULand(UDecode(x_c1), UDecode(y_c1)))
  {
    if x_c1 != 0 && y_c1 != 0 then 58659 else 0
  }

  /** On a code, the word has the sign of the value and lies far inside the container. */
  lemma CodeSign(x_c1: i64)
    ensures IsCode(x_c1) ==> (x_c1 == 0 <==> Decode(x_c1) == 0) && (x_c1 < 0 <==> Decode(x_c1) < 0)
    ensures IsCode(x_c1) ==> -59000 * TWO31 <= x_c1 < 59000 * TWO31
  {
    if IsCode(x_c1) {
      var d := Decode(x_c1);
      MulSign(d, 58659);
      if d >= 0 {
        MulLe(d, TWO31, 58659);
      } else {
        MulLe(-TWO31, d, 58659);
      }
    }
  }

  /** On an unsigned code, the word is zero with the value and lies far inside the container. */
  lemma UCodeSign(x_c1: u64)
    ensures UIsCode(x_c1) ==> (x_c1 == 0 <==> UDecode(x_c1) == 0) && x_c1 < 59000 * TWO32
  {
    if UIsCode(x_c1) {
      var d := UDecode(x_c1);
      MulSign(d, 58659);
      MulLe(d, TWO32, 58659);
    }
  }

  /** lor adds the codes; a negative operand forces true, since -n + n sums to zero. */
  function Lor(x_c1: i64, y_c1: i64): (r: i64)
    ensures IsCode(x_c1) && IsCode(y_c1) ==> r == Encode(None32.Lor(Decode(x_c1), Decode(y_c1)))
  {
    CodeSign(x_c1);
    CodeSign(y_c1);
    var s: i64 := SWrap64(x_c1 + y_c1);
    var r0: i64 := if s != 0 then 58659 else s;
    if x_c1 < 0 || y_c1 < 0 then 58659 else r0
  }

  /** u_lor adds the codes; a zero sum smaller than both operands has wrapped and counts as true. */
  function ULor(x_c1: u64, y_c1: u64): (r: u64)
    ensures UIsCode(x_c1) && UIsCode(y_c1) ==> r == UEncode(None32.ULor(UDecode(x_c1), UDecode(y_c1)))
  {
    UCodeSign(x_c1);
    UCodeSign(y_c1);
    var s: u64 := Wrap64(x_c1 + y_c1);
    if s != 0 then 58659
    else if s < x_c1 && s < y_c1 then 58659
    else s
  }

  // The bitwise operators decode, apply De Morgan forms of the operator to the values,
  // and re-encode; they hold for every container word.

  function And(x_c1: i64, y_c1: i64): (r: i64)
    ensures r == Encode(None32.And(Decode(x_c1), Decode(y_c1)))
  {
    var x_d1, y_d1 := Decode(x_c1), Decode(y_c1);
    Widths();
    SignedDeMorgan(x_d1, y_d1, 32);
    var r_c: i64 := -1 - SBitOr(-1 - x_d1, -1 - y_d1, 32);
    r_c * 58659
  }

  function UAnd(x_c1: u64, y_c1: u64): (r: u64)
    ensures r == UEncode(None32.UAnd(UDecode(x_c1), UDecode(y_c1)))
  {
    var x_d1, y_d1 := UDecode(x_c1), UDecode(y_c1);
    None32.ComplementAnd(x_d1, y_d1);
    var r_c: u64 := 0xFFFF_FFFF - BitOr(0xFFFF_FFFF - x_d1, 0xFFFF_FFFF - y_d1, 32);
    r_c * 58659
  }

  function Or(x_c1: i64, y_c1: i64): (r: i64)
    ensures r == Encode(None32.Or(Decode(x_c1), Decode(y_c1)))
  {
    var x_d1, y_d1 := Decode(x_c1), Decode(y_c1);
    Widths();
    SignedDeMorgan(x_d1, y_d1, 32);
    var r_c: i64 := -1 - SBitAnd(-1 - x_d1, -1 - y_d1, 32);
    r_c * 58659
  }

  function UOr(x_c1: u64, y_c1: u64): (r: u64)
    ensures r == UEncode(None32.UOr(UDecode(x_c1), UDecode(y_c1)))
  {
    var x_d1, y_d1 := UDecode(x_c1), UDecode(y_c1);
    None32.ComplementOr(x_d1, y_d1);
    var r_c: u64 := 0xFFFF_FFFF - BitAnd(0xFFFF_FFFF - x_d1, 0xFFFF_FFFF - y_d1, 32);
    r_c * 58659
  }

  function Neg(x_c1: i64): (r: i64)
    ensures r == Encode(None32.Neg(Decode(x_c1)))
  {
    var x_d1 := Decode(x_c1);
    var r_c: i64 := -1 - x_d1;
    r_c * 58659
  }

  function UNeg(x_c1: u64): (r: u64)
    ensures r == UEncode(None32.UNeg(UDecode(x_c1)))
  {
    var x_d1 := UDecode(x_c1);
    Widths();
    var r_c: u64 := 0xFFFF_FFFF - x_d1;
    r_c * 58659
  }

  /** xor as `(~x & y) | (x & ~y)` on codes. */
  function Xor(x_c1: i64, y_c1: i64): (r: i64)
    ensures r == Encode(None32.Xor(Decode(x_c1), Decode(y_c1)))
  {
    XorOfCodes(x_c1, y_c1);
    var p1 := And(Neg(x_c1), y_c1);
    var p2 := And(x_c1, Neg(y_c1));
    Or(p1, p2)
  }

  lemma XorOfCodes(x_c1: i64, y_c1: i64)
    ensures Or(And(Neg(x_c1), y_c1), And(x_c1, Neg(y_c1))) == Encode(None32.Xor(Decode(x_c1), Decode(y_c1)))
  {
    var x, y := Decode(x_c1), Decode(y_c1);
    Widths();
    var nx, ny := Neg(x_c1), Neg(y_c1);
    assert Decode(nx) == -1 - x && Decode(ny) == -1 - y;
    var p1, p2 := And(nx, y_c1), And(x_c1, ny);
    var a1, a2 := SBitAnd(-1 - x, y, 32), SBitAnd(x, -1 - y, 32);
    assert Decode(p1) == a1;
    assert Decode(p2) == a2;
    assert Or(p1, p2) == Encode(SBitOr(a1, a2, 32));
    SignedXorByAndOr(x, y, 32);
    assert SBitOr(a1, a2, 32) == None32.Xor(x, y);
  }

  function UXor(x_c1: u64, y_c1: u64): (r: u64)
    ensures r == UEncode(None32.UXor(UDecode(x_c1), UDecode(y_c1)))
  {
    UXorOfCodes(x_c1, y_c1);
    var p1 := UAnd(UNeg(x_c1), y_c1);
    var p2 := UAnd(x_c1, UNeg(y_c1));
    UOr(p1, p2)
  }

  lemma UXorOfCodes(x_c1: u64, y_c1: u64)
    ensures UOr(UAnd(UNeg(x_c1), y_c1), UAnd(x_c1, UNeg(y_c1))) == UEncode(None32.UXor(UDecode(x_c1), UDecode(y_c1)))
  {
    var x, y := UDecode(x_c1), UDecode(y_c1);
    Widths();
    var nx, ny := UNeg(x_c1), UNeg(y_c1);
    assert UDecode(nx) == BitNot(x, 32) && UDecode(ny) == BitNot(y, 32);
    var p1, p2 := UAnd(nx, y_c1), UAnd(x_c1, ny);
    assert UDecode(p1) == BitAnd(BitNot(x, 32), y, 32);
    assert UDecode(p2) == BitAnd(x, BitNot(y, 32), 32);
    XorByAndOr(x, y, 32);
  }
}
