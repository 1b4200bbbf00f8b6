/**
 * Separated residue coding of codings/residue_32.h: a 32-bit value travels together
 * with a check field that holds the C remainder of the value by A = 18. Each operation
 * computes the new value natively and rebuilds the check field from the operands' check
 * fields, with a correction where the value wrapped around. The results are stated
 * against the uncoded baseline None32.
 */
module Residue32 {
  import opened Words
  import opened ResidueCheck
  import None32

  /** `int32c1_t`: a signed value and its check field. */
  datatype Coded = Coded(val: i32, check: i32)

  /** `uint32c1_t`: an unsigned value and its check field. */
  datatype UCoded = UCoded(val: u32, check: u32)

  /** The invariant of the coding: the check field is the C remainder of the value by 18. */
  predicate Valid(x: Coded)
  {
    x.check == CRem(x.val, 18)
  }

  predicate UValid(x: UCoded)
  {
    x.check == x.val % 18
  }

  /** The powers of two of the value width (a local name for the facts of Words, which the proofs here need in scope). */
  lemma Widths()
    ensures Pow2(31) == TWO31 && Pow2(32) == TWO32
  {
    Widths32();
  }

  /** A shift amount below the width gives a power of two that fits the operand type. */
  lemma PowerBound(s: nat)
    requires s < 32
    ensures Pow2(s) <= TWO31
    ensures s < 31 ==> Pow2(s) < TWO31
  {
    Widths();
    Pow2Mono(s, 31);
    if s < 31 {
      Pow2Mono(s, 31 - 1);
      assert Pow2(31) == 2 * Pow2(31 - 1);
    }
  }

  // ---------------------------------------------------------------------------
  // Encoding, decoding and the check
  // ---------------------------------------------------------------------------

  /** The check field is the C remainder: below 18 in magnitude, with the sign of x. */
  function Encode(x: i32): (r: Coded)
    ensures Valid(r) && Decode(r) == x
    ensures -18 < r.check < 18
    ensures (x >= 0 ==> r.check >= 0) && (x <= 0 ==> r.check <= 0)
  {
    Coded(x, CRem(x, 18))
  }

  function UEncode(x: u32): (r: UCoded)
    ensures UValid(r) && UDecode(r) == x && r.check < 18
  {
    UCoded(x, x % 18)
  }

  function Decode(x_c1: Coded): i32
  {
    x_c1.val
  }

  function UDecode(x_c1: UCoded): u32
  {
    x_c1.val
  }

  /**
   * The check recomputes the remainder of the carried value and compares it with the
   * check field: it holds exactly for the encodings. The expected value `val` plays no
   * part, and the error mark 33 of the divisions never passes.
   */
  function Check(val: i32, valc: Coded): (r: bool)
    ensures r <==> valc == Encode(Decode(valc))
    ensures valc.check == 33 ==> !r
  {
    CRem(valc.val, 18) == valc.check
  }

  function UCheck(val: u32, valc: UCoded): (r: bool)
    ensures r <==> valc == UEncode(UDecode(valc))
    ensures valc.check == 33 ==> !r
  {
    valc.val % 18 == valc.check
  }

  // ---------------------------------------------------------------------------
  // Addition
  // ---------------------------------------------------------------------------

  /**
   * The check field of add: when the carry test flagged a wrap-around the sum of the
   * check fields is moved by 14 = 18 - 2^32 mod 18 and brought to the sign of the value;
   * otherwise it is reduced and its sign repaired.
   */
  function SumCheck(xc: i32, yc: i32, val: i32, overflow: bool): (r: i32)
  {
    if overflow then
      if val < 0 then CRem(CRem(SWrap32(xc + yc + 14), 18) - 18, 18)
      else CRem(CRem(SWrap32(xc + yc - 14), 18) + 18, 18)
    else
      FixSign(CRem(SWrap32(xc + yc), 18), val)
  }

  /** With the flag raised exactly on overflow, SumCheck gives the residue of the wrapped sum. */
  lemma SumCheckRem(x: i32, y: i32, overflow: bool)
    ensures (overflow <==> !(-TWO31 <= x + y < TWO31)) ==>
            SumCheck(CRem(x, 18), CRem(y, 18), SWrap32(x + y), overflow) == CRem(SWrap32(x + y), 18)
  {
    var xc, yc, v := CRem(x, 18), CRem(y, 18), SWrap32(x + y);
    CongAdd(xc, x, yc, y, 18);
    SWrapOnce(x + y, TWO31);
    if overflow && (overflow <==> !(-TWO31 <= x + y < TWO31)) {
      if v < 0 {
        // wrapped down: v == x + y - 2^32, congruent to x + y + 14
        MulIsCong(x + y + 14, v, 238609295, 18);
        CongAdd(xc + yc, x + y, 14, 14, 18);
        CongTrans(xc + yc + 14, x + y + 14, v, 18);
        DownFix(xc + yc + 14, v);
      } else {
        // wrapped up: v == x + y + 2^32, congruent to x + y - 14
        MulIsCong(x + y - 14, v, -238609295, 18);
        CongSub(xc + yc, x + y, 14, 14, 18);
        CongTrans(xc + yc - 14, x + y - 14, v, 18);
        UpFix(xc + yc - 14, v);
      }
    } else if !overflow && (overflow <==> !(-TWO31 <= x + y < TWO31)) {
      CongTrans(CRem(xc + yc, 18), xc + yc, v, 18);
    }
  }

  /**
   * The carry test of add_32c1 (two positive operands giving a negative value, or two
   * negative operands giving a positive one) misses exactly INT32_MIN + INT32_MIN, whose
   * wrapped sum is 0; with `>= 0` in its second half it detects every overflow.
   */
  lemma CarryTest(x: i32, y: i32)
    ensures var v := SWrap32(x + y);
            ((x > 0 && y > 0 && v < 0) || (x < 0 && y < 0 && v > 0)) <==>
            !(-TWO31 <= x + y < TWO31) && !(x == -TWO31 && y == -TWO31)
    ensures var v := SWrap32(x + y);
            ((x > 0 && y > 0 && v < 0) || (x < 0 && y < 0 && v >= 0)) <==> !(-TWO31 <= x + y < TWO31)
  {
    SWrapOnce(x + y, TWO31);
  }

  /** `add_32c1`. Outside INT32_MIN + INT32_MIN (AddOfMinMin) it keeps the coding. */
  function Add(x_c1: Coded, y_c1: Coded): (r: Coded)
    ensures Valid(x_c1) && Valid(y_c1) && !(x_c1.val == -TWO31 && y_c1.val == -TWO31) ==>
            r == Encode(None32.Add(x_c1.val, y_c1.val))
  {
    var x, y := x_c1.val, y_c1.val;
    var val := SWrap32(x + y);
    var overflow := (x > 0 && y > 0 && val < 0) || (x < 0 && y < 0 && val > 0);
    CarryTest(x, y);
    SumCheckRem(x, y, overflow);
    Coded(val, SumCheck(x_c1.check, y_c1.check, val, overflow))
  }

  /** INT32_MIN + INT32_MIN wraps to 0, the carry test stays silent, and the check field is not 0. */
  lemma AddOfMinMin(x_c1: Coded)
    requires x_c1 == Encode(-TWO31)
    ensures Add(x_c1, x_c1).val == 0 && !Valid(Add(x_c1, x_c1))
  {
    MulIsCong(0, -TWO32, 1, TWO32);
    SWrapMUnique(0, -TWO32, TWO31);
    assert x_c1.check == -2;
    assert SumCheck(-2, -2, 0, false) == -4;
  }

  /** add with the carry test completed by `res.val >= 0`: the coding is kept for all valid operands. */
  function AddCorrected(x_c1: Coded, y_c1: Coded): (r: Coded)
    ensures Valid(x_c1) && Valid(y_c1) ==> r == Encode(None32.Add(x_c1.val, y_c1.val))
  {
    var x, y := x_c1.val, y_c1.val;
    var val := SWrap32(x + y);
    var overflow := (x > 0 && y > 0 && val < 0) || (x < 0 && y < 0 && val >= 0);
    CarryTest(x, y);
    SumCheckRem(x, y, overflow);
    Coded(val, SumCheck(x_c1.check, y_c1.check, val, overflow))
  }

  /** Unsigned addition: 14 is added to the check field exactly when the sum wrapped. */
  function UAdd(x_c1: UCoded, y_c1: UCoded): (r: UCoded)
    ensures UValid(x_c1) && UValid(y_c1) ==> r == UEncode(None32.UAdd(x_c1.val, y_c1.val))
  {
    var val := Wrap32(x_c1.val + y_c1.val);
    var check :=
      if val < x_c1.val then Wrap32(x_c1.check + y_c1.check + 14) % 18
      else Wrap32(x_c1.check + y_c1.check) % 18;
    UAddCheckRem(x_c1.val, y_c1.val);
    UCoded(val, check)
  }

  lemma UAddCheckRem(x: u32, y: u32)
    ensures var v := Wrap32(x + y);
            (if v < x then Wrap32(x % 18 + y % 18 + 14) % 18 else Wrap32(x % 18 + y % 18) % 18) == v % 18
  {
    var xc, yc := x % 18, y % 18;
    CongMod(x, 18);
    CongMod(y, 18);
    CongAdd(xc, x, yc, y, 18);
    WrapOnce(x + y, TWO32);
    if x + y >= TWO32 {
      MulIsCong(x + y + 14, x + y - TWO32, 238609295, 18);
      CongAdd(xc + yc, x + y, 14, 14, 18);
      CongTrans(xc + yc + 14, x + y + 14, x + y - TWO32, 18);
      SameRem(xc + yc + 14, x + y - TWO32);
    } else {
      SameRem(xc + yc, x + y);
    }
  }

  // ---------------------------------------------------------------------------
  // Subtraction
  // ---------------------------------------------------------------------------

  /**
   * The check field of sub: when the borrow test flagged a wrap-around, 256 (congruent to
   * 2^32 modulo 18) is taken off or added; otherwise the difference of the check fields
   * is reduced and its sign repaired.
   */
  function DiffCheck(xc: i32, yc: i32, val: i32, overflow: bool): (r: i32)
  {
    if overflow then
      if val < 0 then CRem(SWrap32(xc - yc - 255 - 1), 18)
      else CRem(SWrap32(xc - yc + 255 + 1), 18)
    else
      FixSign(CRem(SWrap32(xc - yc), 18), val)
  }

  /** With the flag raised exactly on overflow, DiffCheck gives the residue of the wrapped difference. */
  lemma DiffCheckRem(x: i32, y: i32, overflow: bool)
    ensures (overflow <==> !(-TWO31 <= x - y < TWO31)) ==>
            DiffCheck(CRem(x, 18), CRem(y, 18), SWrap32(x - y), overflow) == CRem(SWrap32(x - y), 18)
  {
    var xc, yc, v := CRem(x, 18), CRem(y, 18), SWrap32(x - y);
    CongSub(xc, x, yc, y, 18);
    SWrapOnce(x - y, TWO31);
    if overflow && (overflow <==> !(-TWO31 <= x - y < TWO31)) {
      MulIsCong(256, TWO32, -238609280, 18);
      if v < 0 {
        // wrapped down by 2^32; 256 is congruent to 2^32
        CongSub(xc - yc, x - y, 256, TWO32, 18);
        SameSignRem(xc - yc - 256, v);
      } else {
        CongAdd(xc - yc, x - y, 256, TWO32, 18);
        SameSignRem(xc - yc + 256, v);
      }
    } else if !overflow && (overflow <==> !(-TWO31 <= x - y < TWO31)) {
      CongTrans(CRem(xc - yc, 18), xc - yc, v, 18);
    }
  }

  /**
   * The borrow test of sub_32c1 (a positive minus a negative operand giving a negative
   * value, or the reverse) misses exactly 0 - INT32_MIN; with `x >= 0` in its first half
   * it detects every overflow.
   */
  lemma BorrowTest(x: i32, y: i32)
    ensures var v := SWrap32(x - y);
            ((x > 0 && y < 0 && v < 0) || (x < 0 && y > 0 && v > 0)) <==>
            !(-TWO31 <= x - y < TWO31) && !(x == 0 && y == -TWO31)
    ensures var v := SWrap32(x - y);
            ((x >= 0 && y < 0 && v < 0) || (x < 0 && y > 0 && v > 0)) <==> !(-TWO31 <= x - y < TWO31)
  {
    SWrapOnce(x - y, TWO31);
  }

  /** `sub_32c1`. Outside 0 - INT32_MIN (SubOfZeroMin) it keeps the coding. */
  function Sub(x_c1: Coded, y_c1: Coded): (r: Coded)
    ensures Valid(x_c1) && Valid(y_c1) && !(x_c1.val == 0 && y_c1.val == -TWO31) ==>
            r == Encode(None32.Sub(x_c1.val, y_c1.val))
  {
    var x, y := x_c1.val, y_c1.val;
    var val := SWrap32(x - y);
    var overflow := (x > 0 && y < 0 && val < 0) || (x < 0 && y > 0 && val > 0);
    BorrowTest(x, y);
    DiffCheckRem(x, y, overflow);
    Coded(val, DiffCheck(x_c1.check, y_c1.check, val, overflow))
  }

  /** 0 - INT32_MIN wraps to INT32_MIN unnoticed by the borrow test, and the check field is wrong. */
  lemma SubOfZeroMin(x_c1: Coded, y_c1: Coded)
    requires x_c1 == Encode(0) && y_c1 == Encode(-TWO31)
    ensures Sub(x_c1, y_c1).val == -TWO31 && !Valid(Sub(x_c1, y_c1))
  {
    MulIsCong(-TWO31, TWO31, -1, TWO32);
    SWrapMUnique(-TWO31, TWO31, TWO31);
    assert y_c1.check == -2;
    assert DiffCheck(0, -2, -TWO31, false) == -16;
  }

  /** sub with a complete borrow test: the coding is kept for all valid operands. */
  function SubCorrected(x_c1: Coded, y_c1: Coded): (r: Coded)
    ensures Valid(x_c1) && Valid(y_c1) ==> r == Encode(None32.Sub(x_c1.val, y_c1.val))
  {
    var x, y := x_c1.val, y_c1.val;
    var val := SWrap32(x - y);
    var overflow := (x >= 0 && y < 0 && val < 0) || (x < 0 && y > 0 && val > 0);
    BorrowTest(x, y);
    DiffCheckRem(x, y, overflow);
    Coded(val, DiffCheck(x_c1.check, y_c1.check, val, overflow))
  }

  /**
   * Unsigned subtraction: on a borrow of the value the check field gains 256, which
   * is congruent to 2^32 modulo 18; on a borrow of the check field alone it gains 18.
   */
  function USub(x_c1: UCoded, y_c1: UCoded): (r: UCoded)
    ensures UValid(x_c1) && UValid(y_c1) ==> r == UEncode(None32.USub(x_c1.val, y_c1.val))
  {
    var x, y, xc, yc := x_c1.val, y_c1.val, x_c1.check, y_c1.check;
    var check :=
      if x < y then Wrap32(xc - yc + 255 + 1) % 18
      else if xc < yc then Wrap32(xc - yc + 18) % 18
      else (xc - yc) % 18;
    USubCheckRem(x, y);
    UCoded(Wrap32(x - y), check)
  }

  lemma USubCheckRem(x: u32, y: u32)
    ensures var xc, yc := x % 18, y % 18;
            (if x < y then Wrap32(xc - yc + 256) % 18
             else if xc < yc then Wrap32(xc - yc + 18) % 18
             else (xc - yc) % 18) == Wrap32(x - y) % 18
  {
    var xc, yc := x % 18, y % 18;
    CongMod(x, 18);
    CongMod(y, 18);
    CongSub(xc, x, yc, y, 18);
    if x < y {
      MulIsCong(x - y + TWO32, x - y, 1, TWO32);
      WrapMUnique(x - y + TWO32, x - y, TWO32);
      MulIsCong(256, TWO32, -238609280, 18);
      CongAdd(xc - yc, x - y, 256, TWO32, 18);
      SameRem(xc - yc + 256, x - y + TWO32);
    } else if xc < yc {
      MulIsCong(xc - yc + 18, xc - yc, 1, 18);
      CongTrans(xc - yc + 18, xc - yc, x - y, 18);
      SameRem(xc - yc + 18, x - y);
    } else {
      SameRem(xc - yc, x - y);
    }
  }

  // ---------------------------------------------------------------------------
  // Multiplication
  // ---------------------------------------------------------------------------

  /**
   * `mul_32c1`: the value is the wrapped product. The check field is the product of the
   * check fields plus 14 * high, where high is the C quotient of the exact product by
   * 2^32 and the test is `high != 0`; otherwise it is the plain product of the
   * check fields, negated when two operands of one sign gave a negative value. The
   * check field is right when the product fits (MulLosesCheck shows a product that does
   * not).
   */
  function Mul(x_c1: Coded, y_c1: Coded): (r: Coded)
    ensures r.val == None32.Mul(x_c1.val, y_c1.val)
    ensures Valid(x_c1) && Valid(y_c1) && -TWO31 <= x_c1.val * y_c1.val < TWO31 ==>
            r == Encode(x_c1.val * y_c1.val)
  {
    var x, y := x_c1.val, y_c1.val;
    var val := SWrap32(x * y);
    var high := CDiv(x * y, 0x1_0000_0000);
    var check :=
      if high != 0 then CRem(SWrap64(SWrap32(x_c1.check * y_c1.check) + 14 * high), 18)
      else
        var c := CRem(SWrap32(x_c1.check * y_c1.check), 18);
        if (x > 0 && y > 0 && val < 0) || (x < 0 && y < 0 && val < 0) then -c else c;
    MulCheckRem(x, y);
    ProductSign(x, y);
    Coded(val, check)
  }

  /** A product that fits has quotient 0 and the residue of the product of the residues. */
  lemma MulCheckRem(x: i32, y: i32)
    ensures -TWO31 <= x * y < TWO31 ==>
            CDiv(x * y, 0x1_0000_0000) == 0 && CRem(SWrap32(CRem(x, 18) * CRem(y, 18)), 18) == CRem(x * y, 18)
  {
    if -TWO31 <= x * y < TWO31 {
      CDivSmall(x * y, 0x1_0000_0000);
      ProductResidue(x, y);
      var c := CRem(x, 18) * CRem(y, 18);
      CongTrans(CRem(c, 18), c, x * y, 18);
      CRemUnique(CRem(c, 18), x * y, 18);
    }
  }

  /** 3 * 2^30 wraps to -2^30 with quotient 0; negating the check field does not give its residue. */
  lemma MulLosesCheck(x_c1: Coded, y_c1: Coded)
    requires x_c1 == Encode(3) && y_c1 == Encode(0x4000_0000)
    ensures Mul(x_c1, y_c1).val == -0x4000_0000 && !Valid(Mul(x_c1, y_c1))
  {
    MulIsCong(-0x4000_0000, 3 * 0x4000_0000, -1, TWO32);
    SWrapMUnique(-0x4000_0000, 3 * 0x4000_0000, TWO31);
    CDivSmall(3 * 0x4000_0000, 0x1_0000_0000);
    assert y_c1.check == 10;
  }

  /** Unsigned multiplication: the check field gains 14 for every wrap-around of the product. */
  function UMul(x_c1: UCoded, y_c1: UCoded): (r: UCoded)
    ensures UValid(x_c1) && UValid(y_c1) ==> r == UEncode(None32.UMul(x_c1.val, y_c1.val))
  {
    var x, y := x_c1.val, y_c1.val;
    var val := Wrap32(x * y);
    var high := (x * y) / 0x1_0000_0000;
    var check :=
      if high > 0 then Wrap64(Wrap32(x_c1.check * y_c1.check) + 14 * high) % 18
      else Wrap32(x_c1.check * y_c1.check) % 18;
    UMulCheckRem(x, y);
    UCoded(val, check)
  }

  lemma UMulCheckRem(x: u32, y: u32)
    ensures var xc, yc, high := x % 18, y % 18, (x * y) / 0x1_0000_0000;
            (if high > 0 then Wrap64(Wrap32(xc * yc) + 14 * high) % 18 else Wrap32(xc * yc) % 18)
            == Wrap32(x * y) % 18
  {
    UProduct(x, y);
    UMulCheckLinear(x * y, x % 18 * (y % 18));
  }

  /** The product of two unsigned words, and the product of their residues. */
  lemma UProduct(x: u32, y: u32)
    ensures 0 <= x * y <= 0xFFFF_FFFF * 0xFFFF_FFFF
    ensures 0 <= x % 18 * (y % 18) <= 289 && Cong(x % 18 * (y % 18), x * y, 18)
  {
    MulLe(x, 0xFFFF_FFFF, y);
    MulLe(y, 0xFFFF_FFFF, 0xFFFF_FFFF);
    MulLe(x % 18, 17, y % 18);
    MulLe(y % 18, 17, 17);
    CongMod(x, 18);
    CongMod(y, 18);
    CongMul(x % 18, x, y % 18, y, 18);
  }

  /** The check of u_mul for an exact product p whose residue is c: 14 per wrap-around of p. */
  lemma UMulCheckLinear(p: int, c: int)
    requires 0 <= p <= 0xFFFF_FFFF * 0xFFFF_FFFF
    requires 0 <= c <= 289 && Cong(c, p, 18)
    ensures var high := p / 0x1_0000_0000;
            (if high > 0 then Wrap64(Wrap32(c) + 14 * high) % 18 else Wrap32(c) % 18) == Wrap32(p) % 18
  {
    var high, low := p / 0x1_0000_0000, p % 0x1_0000_0000;
    assert 0 <= high < 0x1_0000_0000;
    assert Wrap32(p) == low;
    MulIsCong(14 * high, -0x1_0000_0000 * high, 238609295 * high, 18);
    CongAdd(c, p, 14 * high, -0x1_0000_0000 * high, 18);
    SameRem(c + 14 * high, low);
    SameRem(c, p);
  }

  /** `shl_32c1`: multiplication by the encoding of 2^s; `1 << s` is undefined in C for s >= 31. */
  function Shl(x_c1: Coded, y_c1: Coded): (r: Coded)
    requires 0 <= y_c1.val < 31
    ensures r.val == None32.Shl(x_c1.val, y_c1.val)
    ensures Valid(x_c1) && -TWO31 <= x_c1.val * Pow2(y_c1.val) < TWO31 ==>
            r == Encode(x_c1.val * Pow2(y_c1.val))
  {
    PowerBound(y_c1.val);
    var y := Encode(Pow2(y_c1.val));
    Mul(x_c1, y)
  }

  /** `u_shl_32c1`: unsigned multiplication by the encoding of 2^s. */
  function UShl(x_c1: UCoded, y_c1: UCoded): (r: UCoded)
    requires y_c1.val < 32
    ensures UValid(x_c1) ==> r == UEncode(None32.UShl(x_c1.val, y_c1.val))
  {
    PowerBound(y_c1.val);
    var y := UEncode(Pow2(y_c1.val));
    UMul(x_c1, y)
  }

  // ---------------------------------------------------------------------------
  // Division and remainder
  // ---------------------------------------------------------------------------

  /** The reverse check `q * y + x % y == x` of the signed division holds for every defined division. */
  lemma SignedReverseCheck(x: i32, y: i32)
    requires y != 0
    ensures SWrap32(SWrap32(CDiv(x, y) * y) + CRem(x, y)) == x
  {
    var q := CDiv(x, y);
    CongAdd(SWrap32(q * y), q * y, CRem(x, y), CRem(x, y), TWO32);
    SWrapMCong(SWrap32(q * y) + CRem(x, y), x, TWO31);
  }

  /**
   * `div_32c1`: the check field is the residue of the quotient once the reverse check
   * passes, which it always does; the operands' check fields are not examined. Division
   * by zero and INT32_MIN / -1 are undefined in C.
   */
  function Div(x_c1: Coded, y_c1: Coded): (r: Coded)
    requires y_c1.val != 0 && !(x_c1.val == -TWO31 && y_c1.val == -1)
    ensures r == Encode(None32.Div(x_c1.val, y_c1.val))
  {
    var x, y := x_c1.val, y_c1.val;
    CDivRange(x, y, TWO31);
    SignedReverseCheck(x, y);
    var q: i32 := CDiv(x, y);
    Coded(q, if SWrap32(SWrap32(q * y) + CRem(x, y)) == x then CRem(q, 18) else 33)
  }

  function Mod(x_c1: Coded, y_c1: Coded): (r: Coded)
    requires y_c1.val != 0 && !(x_c1.val == -TWO31 && y_c1.val == -1)
    ensures r == Encode(None32.Mod(x_c1.val, y_c1.val))
  {
    var x, y := x_c1.val, y_c1.val;
    SignedReverseCheck(x, y);
    var m: i32 := CRem(x, y);
    Coded(m, if SWrap32(SWrap32(CDiv(x, y) * y) + m) == x then CRem(m, 18) else 33)
  }

  /**
   * `u_div_32c1`: the residue of the quotient, cross-checked against the operands' check
   * fields. The two sides agree on valid operands; when the dividend's check field is
   * below 18 but not its residue, the result carries the error mark 33.
   */
  function UDiv(x_c1: UCoded, y_c1: UCoded): (r: UCoded)
    requires y_c1.val != 0
    ensures UValid(x_c1) && UValid(y_c1) ==> r.val == x_c1.val / y_c1.val && UValid(r)
    ensures UValid(y_c1) && x_c1.check < 18 && x_c1.check != x_c1.val % 18 ==> r.check == 33
  {
    DivBounds(x_c1.val, y_c1.val);
    var q: u32, m: u32 := x_c1.val / y_c1.val, x_c1.val % y_c1.val;
    UDivCross(x_c1, y_c1, q, m);
    UCoded(q, UDivCheck(q, m, x_c1.check, y_c1.check))
  }

  /**
   * The check field of u_div for quotient q and remainder m: checkL from the dividend's
   * check field and the remainder, checkR from the quotient and the divisor's check field,
   * in 32-bit arithmetic.
   */
  function UDivCheck(q: nat, m: nat, xc: u32, yc: u32): u32
  {
    var check := q % 18;
    var checkL := LeftCheck(m, xc);
    var checkR := Wrap32(check * yc) % 18;
    if checkR != checkL then 33 else check
  }

  /** With the divisor's residue, the check field is the quotient's residue exactly when the dividend's is right. */
  lemma UDivCross(x_c1: UCoded, y_c1: UCoded, q: nat, m: nat)
    requires y_c1.val != 0 && q == x_c1.val / y_c1.val && m == x_c1.val % y_c1.val
    ensures UValid(x_c1) && UValid(y_c1) ==> UDivCheck(q, m, x_c1.check, y_c1.check) == q % 18
    ensures UValid(y_c1) && x_c1.check < 18 && x_c1.check != x_c1.val % 18 ==>
            UDivCheck(q, m, x_c1.check, y_c1.check) == 33
  {
    var x, y, xc, yc := x_c1.val, y_c1.val, x_c1.check, y_c1.check;
    if yc == y % 18 && xc < 18 {
      SmallProduct(q % 18, yc);
      assert x == q * y + m;
      CrossCheck(x, y, q, m, xc, yc);
    }
  }

  lemma SmallProduct(a: int, b: int)
    requires 0 <= a < 18 && 0 <= b < 18
    ensures Wrap32(a * b) == a * b
  {
    MulLe(a, 17, b);
    MulLe(b, 17, 17);
  }

  function UMod(x_c1: UCoded, y_c1: UCoded): (r: UCoded)
    requires y_c1.val != 0
    ensures r == UEncode(None32.UMod(x_c1.val, y_c1.val))
  {
    var x, y := x_c1.val, y_c1.val;
    None32.ReverseCheck(x, y);
    assert x / y * y <= x;
    var val := x % y;
    UCoded(val, if Wrap32(Wrap32(x / y * y) + val) == x then val % 18 else 33)
  }

  /** `u_shr_32c1`: unsigned division by the encoding of 2^s; it inherits the cross-check. */
  function UShr(x_c1: UCoded, y_c1: UCoded): (r: UCoded)
    requires y_c1.val < 32
    ensures UValid(x_c1) ==> r == UEncode(None32.UShrCorrected(x_c1.val, y_c1.val))
    ensures x_c1.check < 18 && x_c1.check != x_c1.val % 18 ==> r.check == 33
  {
    PowerBound(y_c1.val);
    UDiv(x_c1, UEncode(Pow2(y_c1.val)))
  }

  // ---------------------------------------------------------------------------
  // Comparisons
  // ---------------------------------------------------------------------------

  /** Two values of one residue class are congruent modulo 18. */
  lemma SameClass(a: int, b: int)
    ensures CRem(a, 18) == CRem(b, 18) ==> Cong(a, b, 18)
  {
    if CRem(a, 18) == CRem(b, 18) {
      CongSym(CRem(a, 18), a, 18);
      CongTrans(a, CRem(a, 18), b, 18);
    }
  }

  /** eq compares both fields: true exactly for equal pairs. */
  function Eq(x_c1: Coded, y_c1: Coded): (r: Coded)
    ensures r == Encode(1) <==> x_c1 == y_c1
    ensures Valid(x_c1) && Valid(y_c1) ==> r == Encode(None32.Eq(x_c1.val, y_c1.val))
  {
    Encode(B2I(x_c1.val == y_c1.val && x_c1.check == y_c1.check))
  }

  function UEq(x_c1: UCoded, y_c1: UCoded): (r: UCoded)
    ensures r == UEncode(1) <==> x_c1 == y_c1
    ensures UValid(x_c1) && UValid(y_c1) ==> r == UEncode(None32.UEq(x_c1.val, y_c1.val))
  {
    UEncode(B2I(x_c1.val == y_c1.val && x_c1.check == y_c1.check))
  }

  /**
   * `neq_32c1` asks for both fields to differ. Its result is right whenever the values lie
   * in different residue classes, and "true" is never wrong, but values of one residue
   * class compare as equal (NeqOfSameResidue).
   */
  function Neq(x_c1: Coded, y_c1: Coded): (r: Coded)
    ensures r == Encode(1) ==> x_c1.val != y_c1.val
    ensures Valid(x_c1) && Valid(y_c1) && !Cong(x_c1.val, y_c1.val, 18) ==>
            r == Encode(None32.Neq(x_c1.val, y_c1.val))
  {
    SameClass(x_c1.val, y_c1.val);
    Encode(B2I(x_c1.val != y_c1.val && x_c1.check != y_c1.check))
  }

  lemma NeqOfSameResidue(x_c1: Coded, y_c1: Coded)
    requires x_c1 == Encode(0) && y_c1 == Encode(18)
    ensures Neq(x_c1, y_c1) == Encode(0) && None32.Neq(0, 18) == 1
  {
    assert y_c1.check == 0;
  }

  /** neq as the negation of eq: either field differing makes the pairs unequal. */
  function NeqCorrected(x_c1: Coded, y_c1: Coded): (r: Coded)
    ensures r.val == 1 - Eq(x_c1, y_c1).val && Valid(r)
    ensures Valid(x_c1) && Valid(y_c1) ==> r == Encode(None32.Neq(x_c1.val, y_c1.val))
  {
    Encode(B2I(x_c1.val != y_c1.val || x_c1.check != y_c1.check))
  }

  function UNeq(x_c1: UCoded, y_c1: UCoded): (r: UCoded)
    ensures r == UEncode(1) ==> x_c1.val != y_c1.val
    ensures UValid(x_c1) && UValid(y_c1) && !Cong(x_c1.val, y_c1.val, 18) ==>
            r == UEncode(None32.UNeq(x_c1.val, y_c1.val))
  {
    SameRem(x_c1.val, y_c1.val);
    UEncode(B2I(x_c1.val != y_c1.val && x_c1.check != y_c1.check))
  }

  lemma UNeqOfSameResidue(x_c1: UCoded, y_c1: UCoded)
    requires x_c1 == UEncode(0) && y_c1 == UEncode(18)
    ensures UNeq(x_c1, y_c1) == UEncode(0) && None32.UNeq(0, 18) == 1
  {
  }

  function UNeqCorrected(x_c1: UCoded, y_c1: UCoded): (r: UCoded)
    ensures r.val == 1 - UEq(x_c1, y_c1).val && UValid(r)
    ensures UValid(x_c1) && UValid(y_c1) ==> r == UEncode(None32.UNeq(x_c1.val, y_c1.val))
  {
    UEncode(B2I(x_c1.val != y_c1.val || x_c1.check != y_c1.check))
  }

  /**
   * `less_32c1` reports "less" only when x < y and the difference x - y, wrapped, exceeds x:
   * when y is negative or the difference overflows. For 1 < 3 it reports false.
   */
  function Less(x_c1: Coded, y_c1: Coded): (r: Coded)
    ensures r == Encode(0) || r == Encode(1)
    ensures r == Encode(1) <==> x_c1.val < y_c1.val && (y_c1.val < 0 || x_c1.val - y_c1.val < -TWO31)
  {
    var tmp := Sub(x_c1, y_c1);
    SWrapOnce(x_c1.val - y_c1.val, TWO31);
    if x_c1.val < y_c1.val && tmp.val > x_c1.val then Encode(1) else Encode(0)
  }

  lemma LessOfOneThree(x_c1: Coded, y_c1: Coded)
    requires x_c1 == Encode(1) && y_c1 == Encode(3)
    ensures Less(x_c1, y_c1) == Encode(0) && None32.Less(1, 3) == 1
  {
  }

  /** less as evidently intended: the value fields compared directly. */
  function LessCorrected(x_c1: Coded, y_c1: Coded): (r: Coded)
    ensures Valid(r) && r == Encode(None32.Less(x_c1.val, y_c1.val))
  {
    if x_c1.val < y_c1.val then Encode(1) else Encode(0)
  }

  /** `u_less_32c1`: for x < y the wrapped difference always exceeds x, so the test is exact. */
  function ULess(x_c1: UCoded, y_c1: UCoded): (r: UCoded)
    ensures r == UEncode(None32.ULess(x_c1.val, y_c1.val))
  {
    var tmp := USub(x_c1, y_c1);
    if x_c1.val < y_c1.val && tmp.val > x_c1.val then UEncode(1) else UEncode(0)
  }

  /** `leq_32c1` reports "greater" only when x > y and y - x, wrapped, exceeds y. */
  function Leq(x_c1: Coded, y_c1: Coded): (r: Coded)
    ensures r == Encode(0) || r == Encode(1)
    ensures r == Encode(0) <==> x_c1.val > y_c1.val && (x_c1.val < 0 || y_c1.val - x_c1.val < -TWO31)
  {
    var tmp := Sub(y_c1, x_c1);
    SWrapOnce(y_c1.val - x_c1.val, TWO31);
    if x_c1.val > y_c1.val && tmp.val > y_c1.val then Encode(0) else Encode(1)
  }

  /** 3 <= 1 is reported true: the difference 1 - 3 does not exceed 1. */
  lemma LeqOfThreeOne(x_c1: Coded, y_c1: Coded)
    requires x_c1 == Encode(3) && y_c1 == Encode(1)
    ensures Leq(x_c1, y_c1) == Encode(1) && None32.Leq(3, 1) == 0
  {
  }

  /** leq as evidently intended. */
  function LeqCorrected(x_c1: Coded, y_c1: Coded): (r: Coded)
    ensures Valid(r) && r == Encode(None32.Leq(x_c1.val, y_c1.val))
  {
    if x_c1.val <= y_c1.val then Encode(1) else Encode(0)
  }

  function ULeq(x_c1: UCoded, y_c1: UCoded): (r: UCoded)
    ensures r == UEncode(None32.ULeq(x_c1.val, y_c1.val))
  {
    var tmp := USub(y_c1, x_c1);
    if x_c1.val > y_c1.val && tmp.val > y_c1.val then UEncode(0) else UEncode(1)
  }

  /** `geq_32c1` is the complement of less: "less" is reported under the same condition. */
  function Geq(x_c1: Coded, y_c1: Coded): (r: Coded)
    ensures r == Encode(0) || r == Encode(1)
    ensures r == Encode(0) <==> x_c1.val < y_c1.val && (y_c1.val < 0 || x_c1.val - y_c1.val < -TWO31)
  {
    var tmp := Sub(x_c1, y_c1);
    SWrapOnce(x_c1.val - y_c1.val, TWO31);
    if x_c1.val < y_c1.val && tmp.val > x_c1.val then Encode(0) else Encode(1)
  }

  /** 1 >= 3 is reported true, like 1 < 3 is reported false. */
  lemma GeqOfOneThree(x_c1: Coded, y_c1: Coded)
    requires x_c1 == Encode(1) && y_c1 == Encode(3)
    ensures Geq(x_c1, y_c1) == Encode(1) && None32.Geq(1, 3) == 0
  {
  }

  /** geq as evidently intended. */
  function GeqCorrected(x_c1: Coded, y_c1: Coded): (r: Coded)
    ensures Valid(r) && r == Encode(None32.Geq(x_c1.val, y_c1.val))
  {
    if x_c1.val >= y_c1.val then Encode(1) else Encode(0)
  }

  function UGeq(x_c1: UCoded, y_c1: UCoded): (r: UCoded)
    ensures r == UEncode(None32.UGeq(x_c1.val, y_c1.val))
  {
    var tmp := USub(x_c1, y_c1);
    if x_c1.val < y_c1.val && tmp.val > x_c1.val then UEncode(0) else UEncode(1)
  }

  // ---------------------------------------------------------------------------
  // Logical operators
  // ---------------------------------------------------------------------------

  /**
   * `land_32c1` tests the wrapped product: right whenever the product does not wrap to 0
   * (LandOfWrappedProduct shows one that does).
   */
  function Land(x_c1: Coded, y_c1: Coded): (r: Coded)
    ensures Valid(x_c1) && Valid(y_c1) && (None32.Mul(x_c1.val, y_c1.val) != 0 || x_c1.val == 0 || y_c1.val == 0) ==>
            r == Encode(None32.Land(x_c1.val, y_c1.val))
  {
    var res := Mul(x_c1, y_c1);
    if res.val != 0 then Encode(1) else res
  }

  lemma LandOfWrappedProduct(x_c1: Coded)
    requires x_c1 == Encode(0x1_0000)
    ensures Land(x_c1, x_c1).val == 0 && None32.Land(0x1_0000, 0x1_0000) == 1
  {
    MulIsCong(0, 0x1_0000 * 0x1_0000, -1, TWO32);
    SWrapMUnique(0, 0x1_0000 * 0x1_0000, TWO31);
  }

  /** land on the operands themselves: true exactly when both are non-zero. */
  function LandCorrected(x_c1: Coded, y_c1: Coded): (r: Coded)
    ensures Valid(r) && (r.val == 1 <==> x_c1.val != 0 && y_c1.val != 0)
    ensures r == Encode(None32.Land(Decode(x_c1), Decode(y_c1)))
  {
    if x_c1.val != 0 && y_c1.val != 0 then Encode(1) else Encode(0)
  }

  /** `u_land_32c1` tests the wrapped product, which is 0 for some non-zero operands. */
  function ULand(x_c1: UCoded, y_c1: UCoded): (r: UCoded)
    ensures UValid(x_c1) && UValid(y_c1) ==>
            r == UEncode(if None32.UMul(x_c1.val, y_c1.val) != 0 then 1 else 0)
  {
    var res := UMul(x_c1, y_c1);
    if res.val != 0 then UEncode(1) else res
  }

  lemma ULandOfWrappedProduct(x_c1: UCoded)
    requires x_c1 == UEncode(0x1_0000)
    ensures ULand(x_c1, x_c1) == UEncode(0) && None32.ULand(0x1_0000, 0x1_0000) == 1
  {
    MulIsCong(0, 0x1_0000 * 0x1_0000, -1, TWO32);
    WrapMUnique(0, 0x1_0000 * 0x1_0000, TWO32);
  }

  function ULandCorrected(x_c1: UCoded, y_c1: UCoded): (r: UCoded)
    ensures UValid(r) && (r.val == 1 <==> x_c1.val != 0 && y_c1.val != 0)
    ensures r == UEncode(None32.ULand(UDecode(x_c1), UDecode(y_c1)))
  {
    if x_c1.val != 0 && y_c1.val != 0 then UEncode(1) else UEncode(0)
  }

  /** `lor_32c1`: a negative operand or a non-zero sum gives true; two non-negative operands cannot sum to a wrapped 0. */
  function Lor(x_c1: Coded, y_c1: Coded): (r: Coded)
    ensures Valid(x_c1) && Valid(y_c1) ==> r == Encode(None32.Lor(x_c1.val, y_c1.val))
  {
    var r_c1 := Add(x_c1, y_c1);
    ZeroSum(x_c1.val, y_c1.val);
    if r_c1.val != 0 || x_c1.val < 0 || y_c1.val < 0 then Encode(1) else r_c1
  }

  /** Two non-negative values sum to a wrapped 0 only when both are 0. */
  lemma ZeroSum(x: i32, y: i32)
    ensures x >= 0 && y >= 0 && SWrap32(x + y) == 0 ==> x == 0 && y == 0
  {
    if x >= 0 && y >= 0 {
      SWrapOfUnsigned(x + y, TWO31);
    }
  }

  /**
   * `u_lor_32c1` keeps the signed test: unsigned operands are never negative, so a sum
   * that wraps to exactly 0 gives false (ULorOfWrappedSum).
   */
  function ULor(x_c1: UCoded, y_c1: UCoded): (r: UCoded)
    ensures UValid(x_c1) && UValid(y_c1) && x_c1.val + y_c1.val != TWO32 ==>
            r == UEncode(None32.ULor(x_c1.val, y_c1.val))
  {
    var r_c1 := UAdd(x_c1, y_c1);
    WrapOnce(x_c1.val + y_c1.val, TWO32);
    if r_c1.val != 0 || x_c1.val < 0 || y_c1.val < 0 then UEncode(1) else r_c1
  }

  lemma ULorOfWrappedSum(x_c1: UCoded, y_c1: UCoded)
    requires x_c1 == UEncode(1) && y_c1 == UEncode(0xFFFF_FFFF)
    ensures ULor(x_c1, y_c1) == UEncode(0) && None32.ULor(1, 0xFFFF_FFFF) == 1
  {
    MulIsCong(0, TWO32, -1, TWO32);
    WrapMUnique(0, TWO32, TWO32);
  }

  /** u_lor with the wrap of the sum detected as in u_add: exact on valid operands. */
  function ULorCorrected(x_c1: UCoded, y_c1: UCoded): (r: UCoded)
    ensures UValid(x_c1) && UValid(y_c1) ==> r == UEncode(None32.ULor(x_c1.val, y_c1.val))
  {
    var r_c1 := UAdd(x_c1, y_c1);
    WrapOnce(x_c1.val + y_c1.val, TWO32);
    if r_c1.val != 0 || r_c1.val < x_c1.val then UEncode(1) else r_c1
  }

  // ---------------------------------------------------------------------------
  // Bitwise operators: the check field is recomputed from the new value
  // ---------------------------------------------------------------------------

  /** `and_32c1`: the check field is the residue of `-1 - (~x | ~y)`, which is x & y. */
  function And(x_c1: Coded, y_c1: Coded): (r: Coded)
    ensures r == Encode(None32.And(x_c1.val, y_c1.val))
  {
    var x, y := x_c1.val, y_c1.val;
    Widths();
    SignedDeMorgan(x, y, 32);
    Coded(None32.And(x, y), CRem(-1 - SBitOr(-1 - x, -1 - y, 32), 18))
  }

  function UAnd(x_c1: UCoded, y_c1: UCoded): (r: UCoded)
    ensures r == UEncode(None32.UAnd(x_c1.val, y_c1.val))
  {
    var x, y := x_c1.val, y_c1.val;
    None32.ComplementAnd(x, y);
    UCoded(None32.UAnd(x, y), (0xFFFF_FFFF - BitOr(0xFFFF_FFFF - x, 0xFFFF_FFFF - y, 32)) % 18)
  }

  function Or(x_c1: Coded, y_c1: Coded): (r: Coded)
    ensures r == Encode(None32.Or(x_c1.val, y_c1.val))
  {
    var x, y := x_c1.val, y_c1.val;
    Widths();
    SignedDeMorgan(x, y, 32);
    Coded(None32.Or(x, y), CRem(-1 - SBitAnd(-1 - x, -1 - y, 32), 18))
  }

  function UOr(x_c1: UCoded, y_c1: UCoded): (r: UCoded)
    ensures r == UEncode(None32.UOr(x_c1.val, y_c1.val))
  {
    var x, y := x_c1.val, y_c1.val;
    None32.ComplementOr(x, y);
    UCoded(None32.UOr(x, y), (0xFFFF_FFFF - BitAnd(0xFFFF_FFFF - x, 0xFFFF_FFFF - y, 32)) % 18)
  }

  function Neg(x_c1: Coded): (r: Coded)
    ensures r == Encode(None32.Neg(x_c1.val))
  {
    Coded(None32.Neg(x_c1.val), CRem(-1 - x_c1.val, 18))
  }

  function UNeg(x_c1: UCoded): (r: UCoded)
    ensures r == UEncode(None32.UNeg(x_c1.val))
  {
    Widths();
    UCoded(None32.UNeg(x_c1.val), (0xFFFF_FFFF - x_c1.val) % 18)
  }

  /** `xor_32c1` as `(~x & y) | (x & ~y)`. */
  function Xor(x_c1: Coded, y_c1: Coded): (r: Coded)
    ensures r == Encode(None32.Xor(x_c1.val, y_c1.val))
  {
    var p1 := And(Neg(x_c1), y_c1);
    var p2 := And(x_c1, Neg(y_c1));
    Widths();
    SignedXorByAndOr(x_c1.val, y_c1.val, 32);
    Or(p1, p2)
  }

  function UXor(x_c1: UCoded, y_c1: UCoded): (r: UCoded)
    ensures r == UEncode(None32.UXor(x_c1.val, y_c1.val))
  {
    var p1 := UAnd(UNeg(x_c1), y_c1);
    var p2 := UAnd(x_c1, UNeg(y_c1));
    Widths();
    XorByAndOr(x_c1.val, y_c1.val, 32);
    UOr(p1, p2)
  }
}
