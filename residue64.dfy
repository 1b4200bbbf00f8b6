/**
 * Separated residue coding of codings/residue_64.h: a 64-bit value travels together
 * with a check field that holds the C remainder of the value by A = 18. Each operation
 * computes the new value natively and rebuilds the check field from the operands' check
 * fields, with a correction where the value wrapped around. The results are stated
 * against the uncoded baseline None64.
 */
module Residue64 {
  import opened Words
  import opened ResidueCheck
  import None64

  /** `int64c1_t`: a signed value and its check field. */
  datatype Coded = Coded(val: i64, check: i64)

  /** `uint64c1_t`: an unsigned value and its check field. */
  datatype UCoded = UCoded(val: u64, check: u64)

  /** The invariant of the coding: the check field is the C remainder of the value by 18. */
  predicate Valid(x: Coded)
  {
    x.check == CRem(x.val, 18)
  }

  predicate UValid(x: UCoded)
  {
    x.check == x.val % 18
  }

  /** The powers of two of the value width (a local name for the facts of Words, which the proofs here need in scope). */
  lemma Widths()
    ensures Pow2(63) == TWO63 && Pow2(64) == TWO64
  {
    Widths64();
  }

  /** A shift amount below the width gives a power of two that fits the operand type. */
  lemma PowerBound(s: nat)
    requires s < 64
    ensures Pow2(s) <= TWO63
    ensures s < 63 ==> Pow2(s) < TWO63
  {
    Widths();
    Pow2Mono(s, 63);
    if s < 63 {
      Pow2Mono(s, 63 - 1);
      assert Pow2(63) == 2 * Pow2(63 - 1);
    }
  }

  // ---------------------------------------------------------------------------
  // Encoding, decoding and the check
  // ---------------------------------------------------------------------------

  /** The check field is the C remainder: below 18 in magnitude, with the sign of x. */
  function Encode(x: i64): (r: Coded)
    ensures Valid(r) && Decode(r) == x
    ensures -18 < r.check < 18
    ensures (x >= 0 ==> r.check >= 0) && (x <= 0 ==> r.check <= 0)
  {
    Coded(x, CRem(x, 18))
  }

  function UEncode(x: u64): (r: UCoded)
    ensures UValid(r) && UDecode(r) == x && r.check < 18
  {
    UCoded(x, x % 18)
  }

  function Decode(x_c1: Coded): i64
  {
    x_c1.val
  }

  function UDecode(x_c1: UCoded): u64
  {
    x_c1.val
  }

  /**
   * The check recomputes the remainder of the carried value and compares it with the
   * check field: it holds exactly for the encodings. The expected value `val` plays no
   * part, and the error mark 33 of the divisions never passes.
   */
  function Check(val: i64, valc: Coded): (r: bool)
    ensures r <==> valc == Encode(Decode(valc))
    ensures valc.check == 33 ==> !r
  {
    CRem(valc.val, 18) == valc.check
  }

  function UCheck(val: u64, valc: UCoded): (r: bool)
    ensures r <==> valc == UEncode(UDecode(valc))
    ensures valc.check == 33 ==> !r
  {
    valc.val % 18 == valc.check
  }

  // ---------------------------------------------------------------------------
  // Addition
  // ---------------------------------------------------------------------------

  /**
   * The check field of add: when the carry test flagged a wrap-around the sum of the
   * check fields is moved by 2 = 18 - 2^64 mod 18 and brought to the sign of the value;
   * otherwise it is reduced and its sign repaired.
   */
  function SumCheck(xc: i64, yc: i64, val: i64, overflow: bool): (r: i64)
  {
    if overflow then
      if val < 0 then CRem(CRem(SWrap64(xc + yc + 2), 18) - 18, 18)
      else CRem(CRem(SWrap64(xc + yc - 2), 18) + 18, 18)
    else
      FixSign(CRem(SWrap64(xc + yc), 18), val)
  }

  /** With the flag raised exactly on overflow, SumCheck gives the residue of the wrapped sum. */
  lemma SumCheckRem(x: i64, y: i64, overflow: bool)
    ensures (overflow <==> !(-TWO63 <= x + y < TWO63)) ==>
            SumCheck(CRem(x, 18), CRem(y, 18), SWrap64(x + y), overflow) == CRem(SWrap64(x + y), 18)
  {
    var xc, yc, v := CRem(x, 18), CRem(y, 18), SWrap64(x + y);
    CongAdd(xc, x, yc, y, 18);
    SWrapOnce(x + y, TWO63);
    if overflow && (overflow <==> !(-TWO63 <= x + y < TWO63)) {
      if v < 0 {
        // wrapped down: v == x + y - 2^64, congruent to x + y + 2
        MulIsCong(x + y + 2, v, 1024819115206086201, 18);
        CongAdd(xc + yc, x + y, 2, 2, 18);
        CongTrans(xc + yc + 2, x + y + 2, v, 18);
        DownFix(xc + yc + 2, v);
      } else {
        // wrapped up: v == x + y + 2^64, congruent to x + y - 2
        MulIsCong(x + y - 2, v, -1024819115206086201, 18);
        CongSub(xc + yc, x + y, 2, 2, 18);
        CongTrans(xc + yc - 2, x + y - 2, v, 18);
        UpFix(xc + yc - 2, v);
      }
    } else if !overflow && (overflow <==> !(-TWO63 <= x + y < TWO63)) {
      CongTrans(CRem(xc + yc, 18), xc + yc, v, 18);
    }
  }

  /**
   * The carry test of add_64c1 (two positive operands giving a negative value, or two
   * negative operands giving a positive one) misses exactly INT64_MIN + INT64_MIN, whose
   * wrapped sum is 0; with `>= 0` in its second half it detects every overflow.
   */
  lemma CarryTest(x: i64, y: i64)
    ensures var v := SWrap64(x + y);
            ((x > 0 && y > 0 && v < 0) || (x < 0 && y < 0 && v > 0)) <==>
            !(-TWO63 <= x + y < TWO63) && !(x == -TWO63 && y == -TWO63)
    ensures var v := SWrap64(x + y);
            ((x > 0 && y > 0 && v < 0) || (x < 0 && y < 0 && v >= 0)) <==> !(-TWO63 <= x + y < TWO63)
  {
    SWrapOnce(x + y, TWO63);
  }

  /** `add_64c1`. Outside INT64_MIN + INT64_MIN (AddOfMinMin) it keeps the coding. */
  function Add(x_c1: Coded, y_c1: Coded): (r: Coded)
    ensures Valid(x_c1) && Valid(y_c1) && !(x_c1.val == -TWO63 && y_c1.val == -TWO63) ==>
            r == Encode(None64.Add(x_c1.val, y_c1.val))
  {
    var x, y := x_c1.val, y_c1.val;
    var val := SWrap64(x + y);
    var overflow := (x > 0 && y > 0 && val < 0) || (x < 0 && y < 0 && val > 0);
    CarryTest(x, y);
    SumCheckRem(x, y, overflow);
    Coded(val, SumCheck(x_c1.check, y_c1.check, val, overflow))
  }

  /** INT64_MIN + INT64_MIN wraps to 0, the carry test stays silent, and the check field is not 0. */
  lemma AddOfMinMin(x_c1: Coded)
    requires x_c1 == Encode(-TWO63)
    ensures Add(x_c1, x_c1).val == 0 && !Valid(Add(x_c1, x_c1))
  {
    MulIsCong(0, -TWO64, 1, TWO64);
    SWrapMUnique(0, -TWO64, TWO63);
    assert x_c1.check == -8;
    assert SumCheck(-8, -8, 0, false) == -16;
  }

  /** add with the carry test completed by `res.val >= 0`: the coding is kept for all valid operands. */
  function AddCorrected(x_c1: Coded, y_c1: Coded): (r: Coded)
    ensures Valid(x_c1) && Valid(y_c1) ==> r == Encode(None64.Add(x_c1.val, y_c1.val))
  {
    var x, y := x_c1.val, y_c1.val;
    var val := SWrap64(x + y);
    var overflow := (x > 0 && y > 0 && val < 0) || (x < 0 && y < 0 && val >= 0);
    CarryTest(x, y);
    SumCheckRem(x, y, overflow);
    Coded(val, SumCheck(x_c1.check, y_c1.check, val, overflow))
  }

  /** Unsigned addition: 2 is added to the check field exactly when the sum wrapped. */
  function UAdd(x_c1: UCoded, y_c1: UCoded): (r: UCoded)
    ensures UValid(x_c1) && UValid(y_c1) ==> r == UEncode(None64.UAdd(x_c1.val, y_c1.val))
  {
    var val := Wrap64(x_c1.val + y_c1.val);
    var check :=
      if val < x_c1.val then Wrap64(x_c1.check + y_c1.check + 2) % 18
      else Wrap64(x_c1.check + y_c1.check) % 18;
    UAddCheckRem(x_c1.val, y_c1.val);
    UCoded(val, check)
  }

  lemma UAddCheckRem(x: u64, y: u64)
    ensures var v := Wrap64(x + y);
            (if v < x then Wrap64(x % 18 + y % 18 + 2) % 18 else Wrap64(x % 18 + y % 18) % 18) == v % 18
  {
    var xc, yc := x % 18, y % 18;
    CongMod(x, 18);
    CongMod(y, 18);
    CongAdd(xc, x, yc, y, 18);
    WrapOnce(x + y, TWO64);
    if x + y >= TWO64 {
      MulIsCong(x + y + 2, x + y - TWO64, 1024819115206086201, 18);
      CongAdd(xc + yc, x + y, 2, 2, 18);
      CongTrans(xc + yc + 2, x + y + 2, x + y - TWO64, 18);
      SameRem(xc + yc + 2, x + y - TWO64);
    } else {
      SameRem(xc + yc, x + y);
    }
  }

  // ---------------------------------------------------------------------------
  // Subtraction
  // ---------------------------------------------------------------------------

  /**
   * The check field of sub_64c1: when the borrow test flagged a wrap-around, UINT64_MAX + 1
   * is taken off or added. The unsigned constant turns the whole expression into uint64_t
   * arithmetic: the difference wraps modulo 2^64 and the remainder is unsigned, so the
   * 2^64 vanishes and the sign is lost.
   */
  function DiffCheck(xc: i64, yc: i64, val: i64, overflow: bool): (r: i64)
  {
    if overflow then
      if val < 0 then Wrap64(xc - yc - 0xFFFF_FFFF_FFFF_FFFF - 1) % 18
      else Wrap64(xc - yc + 0xFFFF_FFFF_FFFF_FFFF + 1) % 18
    else
      FixSign(CRem(SWrap64(xc - yc), 18), val)
  }

  /** The correction in signed arithmetic with 65536, congruent to 2^64 modulo 18, as u_sub_64c1 uses it. */
  function DiffCheckCorrected(xc: i64, yc: i64, val: i64, overflow: bool): (r: i64)
  {
    if overflow then
      if val < 0 then CRem(SWrap64(xc - yc - 65535 - 1), 18)
      else CRem(SWrap64(xc - yc + 65535 + 1), 18)
    else
      FixSign(CRem(SWrap64(xc - yc), 18), val)
  }

  /** With the flag raised exactly on overflow, DiffCheckCorrected gives the residue of the wrapped difference. */
  lemma DiffCheckRem(x: i64, y: i64, overflow: bool)
    ensures (overflow <==> !(-TWO63 <= x - y < TWO63)) ==>
            DiffCheckCorrected(CRem(x, 18), CRem(y, 18), SWrap64(x - y), overflow) == CRem(SWrap64(x - y), 18)
  {
    var xc, yc, v := CRem(x, 18), CRem(y, 18), SWrap64(x - y);
    CongSub(xc, x, yc, y, 18);
    SWrapOnce(x - y, TWO63);
    if overflow && (overflow <==> !(-TWO63 <= x - y < TWO63)) {
      MulIsCong(65536, TWO64, -1024819115206082560, 18);
      if v < 0 {
        // wrapped down by 2^64; 65536 is congruent to 2^64
        CongSub(xc - yc, x - y, 65536, TWO64, 18);
        SameSignRem(xc - yc - 65536, v);
      } else {
        CongAdd(xc - yc, x - y, 65536, TWO64, 18);
        SameSignRem(xc - yc + 65536, v);
      }
    } else if !overflow && (overflow <==> !(-TWO63 <= x - y < TWO63)) {
      CongTrans(CRem(xc - yc, 18), xc - yc, v, 18);
    }
  }

  /**
   * The borrow test of sub_64c1 (a positive minus a negative operand giving a negative
   * value, or the reverse) misses exactly 0 - INT64_MIN; with `x >= 0` in its first half
   * it detects every overflow.
   */
  lemma BorrowTest(x: i64, y: i64)
    ensures var v := SWrap64(x - y);
            ((x > 0 && y < 0 && v < 0) || (x < 0 && y > 0 && v > 0)) <==>
            !(-TWO63 <= x - y < TWO63) && !(x == 0 && y == -TWO63)
    ensures var v := SWrap64(x - y);
            ((x >= 0 && y < 0 && v < 0) || (x < 0 && y > 0 && v > 0)) <==> !(-TWO63 <= x - y < TWO63)
  {
    SWrapOnce(x - y, TWO63);
  }

  /** `sub_64c1`. Without overflow it keeps the coding; its overflow branches do not (SubOfZeroMin, SubOfMaxMinusOne, SubOfMultiples). */
  function Sub(x_c1: Coded, y_c1: Coded): (r: Coded)
    ensures Valid(x_c1) && Valid(y_c1) && -TWO63 <= x_c1.val - y_c1.val < TWO63 ==>
            r == Encode(None64.Sub(x_c1.val, y_c1.val))
  {
    var x, y := x_c1.val, y_c1.val;
    var val := SWrap64(x - y);
    var overflow := (x > 0 && y < 0 && val < 0) || (x < 0 && y > 0 && val > 0);
    BorrowTest(x, y);
    DiffCheckRem(x, y, overflow);
    Coded(val, DiffCheck(x_c1.check, y_c1.check, val, overflow))
  }

  /** 0 - INT64_MIN wraps to INT64_MIN unnoticed by the borrow test, and the check field is wrong. */
  lemma SubOfZeroMin(x_c1: Coded, y_c1: Coded)
    requires x_c1 == Encode(0) && y_c1 == Encode(-TWO63)
    ensures Sub(x_c1, y_c1).val == -TWO63 && !Valid(Sub(x_c1, y_c1))
  {
    MulIsCong(-TWO63, TWO63, -1, TWO64);
    SWrapMUnique(-TWO63, TWO63, TWO63);
    assert y_c1.check == -8;
    assert DiffCheck(0, -8, -TWO63, false) == -10;
  }

  /** INT64_MAX - (-1) wraps to INT64_MIN; the unsigned correction leaves a non-negative check field. */
  lemma SubOfMaxMinusOne(x_c1: Coded, y_c1: Coded)
    requires x_c1 == Encode(0x7FFF_FFFF_FFFF_FFFF) && y_c1 == Encode(-1)
    ensures Sub(x_c1, y_c1).val == -TWO63 && !Valid(Sub(x_c1, y_c1))
  {
    MulIsCong(-TWO63, TWO63, -1, TWO64);
    SWrapMUnique(-TWO63, TWO63, TWO63);
    assert x_c1.check == 7;
    MulIsCong(8 - TWO64, 8, -1, TWO64);
    WrapMUnique(8, 8 - TWO64, TWO64);
  }

  /**
   * -(2^63 - 8) - 18 wraps to 2^63 - 10; both check fields are 0, so the unsigned
   * correction wraps to 0 where the residue is 16.
   */
  lemma SubOfMultiples(x_c1: Coded, y_c1: Coded)
    requires x_c1 == Encode(-0x7FFF_FFFF_FFFF_FFF8) && y_c1 == Encode(18)
    ensures Sub(x_c1, y_c1).val == 0x7FFF_FFFF_FFFF_FFF6 && !Valid(Sub(x_c1, y_c1))
  {
    MulIsCong(0x7FFF_FFFF_FFFF_FFF6, -0x7FFF_FFFF_FFFF_FFF8 - 18, 1, TWO64);
    SWrapMUnique(0x7FFF_FFFF_FFFF_FFF6, -0x7FFF_FFFF_FFFF_FFF8 - 18, TWO63);
    assert x_c1.check == 0 && y_c1.check == 0;
    MulIsCong(0, TWO64, -1, TWO64);
    WrapMUnique(0, TWO64, TWO64);
  }

  /** sub with a complete borrow test and the correction 65536 in signed arithmetic: the coding is kept for all valid operands. */
  function SubCorrected(x_c1: Coded, y_c1: Coded): (r: Coded)
    ensures Valid(x_c1) && Valid(y_c1) ==> r == Encode(None64.Sub(x_c1.val, y_c1.val))
  {
    var x, y := x_c1.val, y_c1.val;
    var val := SWrap64(x - y);
    var overflow := (x >= 0 && y < 0 && val < 0) || (x < 0 && y > 0 && val > 0);
    BorrowTest(x, y);
    DiffCheckRem(x, y, overflow);
    Coded(val, DiffCheckCorrected(x_c1.check, y_c1.check, val, overflow))
  }

  /**
   * Unsigned subtraction: on a borrow of the value the check field gains 65536, which
   * is congruent to 2^64 modulo 18; on a borrow of the check field alone it gains 18.
   */
  function USub(x_c1: UCoded, y_c1: UCoded): (r: UCoded)
    ensures UValid(x_c1) && UValid(y_c1) ==> r == UEncode(None64.USub(x_c1.val, y_c1.val))
  {
    var x, y, xc, yc := x_c1.val, y_c1.val, x_c1.check, y_c1.check;
    var check :=
      if x < y then Wrap64(xc - yc + 65535 + 1) % 18
      else if xc < yc then Wrap64(xc - yc + 18) % 18
      else (xc - yc) % 18;
    USubCheckRem(x, y);
    UCoded(Wrap64(x - y), check)
  }

  lemma USubCheckRem(x: u64, y: u64)
    ensures var xc, yc := x % 18, y % 18;
            (if x < y then Wrap64(xc - yc + 65536) % 18
             else if xc < yc then Wrap64(xc - yc + 18) % 18
             else (xc - yc) % 18) == Wrap64(x - y) % 18
  {
    var xc, yc := x % 18, y % 18;
    CongMod(x, 18);
    CongMod(y, 18);
    CongSub(xc, x, yc, y, 18);
    if x < y {
      MulIsCong(x - y + TWO64, x - y, 1, TWO64);
      WrapMUnique(x - y + TWO64, x - y, TWO64);
      MulIsCong(65536, TWO64, -1024819115206082560, 18);
      CongAdd(xc - yc, x - y, 65536, TWO64, 18);
      SameRem(xc - yc + 65536, x - y + TWO64);
    } else if xc < yc {
      MulIsCong(xc - yc + 18, xc - yc, 1, 18);
      CongTrans(xc - yc + 18, xc - yc, x - y, 18);
      SameRem(xc - yc + 18, x - y);
    } else {
      SameRem(xc - yc, x - y);
    }
  }

  // ---------------------------------------------------------------------------
  // Multiplication
  // ---------------------------------------------------------------------------

  /**
   * `mul_64c1`: the value is the wrapped product. The check field is the product of the
   * check fields plus 2 * high, where high is the C quotient of the exact product by
   * AC_TWO_64 = 2^64 - 1 and the test is `high > 0`; otherwise it is the plain product of the
   * check fields, negated when two operands of one sign gave a negative value. The
   * check field is right when the product fits (MulLosesCheck shows a product that does
   * not).
   */
  function Mul(x_c1: Coded, y_c1: Coded): (r: Coded)
    ensures r.val == None64.Mul(x_c1.val, y_c1.val)
    ensures Valid(x_c1) && Valid(y_c1) && -TWO63 <= x_c1.val * y_c1.val < TWO63 ==>
            r == Encode(x_c1.val * y_c1.val)
  {
    var x, y := x_c1.val, y_c1.val;
    var val := SWrap64(x * y);
    var high := CDiv(x * y, 0xFFFF_FFFF_FFFF_FFFF);
    var check :=
      if high > 0 then CRem(SWrap128(SWrap64(x_c1.check * y_c1.check) + 2 * high), 18)
      else
        var c := CRem(SWrap64(x_c1.check * y_c1.check), 18);
        if (x > 0 && y > 0 && val < 0) || (x < 0 && y < 0 && val < 0) then -c else c;
    MulCheckRem(x, y);
    ProductSign(x, y);
    Coded(val, check)
  }

  /** A product that fits has quotient 0 and the residue of the product of the residues. */
  lemma MulCheckRem(x: i64, y: i64)
    ensures -TWO63 <= x * y < TWO63 ==>
            CDiv(x * y, 0xFFFF_FFFF_FFFF_FFFF) == 0 && CRem(SWrap64(CRem(x, 18) * CRem(y, 18)), 18) == CRem(x * y, 18)
  {
    if -TWO63 <= x * y < TWO63 {
      CDivSmall(x * y, 0xFFFF_FFFF_FFFF_FFFF);
      ProductResidue(x, y);
      var c := CRem(x, 18) * CRem(y, 18);
      CongTrans(CRem(c, 18), c, x * y, 18);
      CRemUnique(CRem(c, 18), x * y, 18);
    }
  }

  /** 3 * 2^62 wraps to -2^62 with quotient 0; negating the check field does not give its residue. */
  lemma MulLosesCheck(x_c1: Coded, y_c1: Coded)
    requires x_c1 == Encode(3) && y_c1 == Encode(0x4000_0000_0000_0000)
    ensures Mul(x_c1, y_c1).val == -0x4000_0000_0000_0000 && !Valid(Mul(x_c1, y_c1))
  {
    MulIsCong(-0x4000_0000_0000_0000, 3 * 0x4000_0000_0000_0000, -1, TWO64);
    SWrapMUnique(-0x4000_0000_0000_0000, 3 * 0x4000_0000_0000_0000, TWO63);
    CDivSmall(3 * 0x4000_0000_0000_0000, 0xFFFF_FFFF_FFFF_FFFF);
    assert y_c1.check == 4;
  }

  /** Unsigned multiplication: the check field gains 2 for every wrap-around of the product. */
  function UMul(x_c1: UCoded, y_c1: UCoded): (r: UCoded)
    ensures UValid(x_c1) && UValid(y_c1) ==> r == UEncode(None64.UMul(x_c1.val, y_c1.val))
  {
    var x, y := x_c1.val, y_c1.val;
    var val := Wrap64(x * y);
    var high := (x * y) / 0x1_0000_0000_0000_0000;
    var check :=
      if high > 0 then Wrap128(Wrap64(x_c1.check * y_c1.check) + 2 * high) % 18
      else Wrap64(x_c1.check * y_c1.check) % 18;
    UMulCheckRem(x, y);
    UCoded(val, check)
  }

  lemma UMulCheckRem(x: u64, y: u64)
    ensures var xc, yc, high := x % 18, y % 18, (x * y) / 0x1_0000_0000_0000_0000;
            (if high > 0 then Wrap128(Wrap64(xc * yc) + 2 * high) % 18 else Wrap64(xc * yc) % 18)
            == Wrap64(x * y) % 18
  {
    UProduct(x, y);
    UMulCheckLinear(x * y, x % 18 * (y % 18));
  }

  /** The product of two unsigned words, and the product of their residues. */
  lemma UProduct(x: u64, y: u64)
    ensures 0 <= x * y <= 0xFFFF_FFFF_FFFF_FFFF * 0xFFFF_FFFF_FFFF_FFFF
    ensures 0 <= x % 18 * (y % 18) <= 289 && Cong(x % 18 * (y % 18), x * y, 18)
  {
    MulLe(x, 0xFFFF_FFFF_FFFF_FFFF, y);
    MulLe(y, 0xFFFF_FFFF_FFFF_FFFF, 0xFFFF_FFFF_FFFF_FFFF);
    MulLe(x % 18, 17, y % 18);
    MulLe(y % 18, 17, 17);
    CongMod(x, 18);
    CongMod(y, 18);
    CongMul(x % 18, x, y % 18, y, 18);
  }

  /** The check of u_mul for an exact product p whose residue is c: 2 per wrap-around of p. */
  lemma UMulCheckLinear(p: int, c: int)
    requires 0 <= p <= 0xFFFF_FFFF_FFFF_FFFF * 0xFFFF_FFFF_FFFF_FFFF
    requires 0 <= c <= 289 && Cong(c, p, 18)
    ensures var high := p / 0x1_0000_0000_0000_0000;
            (if high > 0 then Wrap128(Wrap64(c) + 2 * high) % 18 else Wrap64(c) % 18) == Wrap64(p) % 18
  {
    var high, low := p / 0x1_0000_0000_0000_0000, p % 0x1_0000_0000_0000_0000;
    assert 0 <= high < 0x1_0000_0000_0000_0000;
    assert Wrap64(p) == low;
    MulIsCong(2 * high, -0x1_0000_0000_0000_0000 * high, 1024819115206086201 * high, 18);
    CongAdd(c, p, 2 * high, -0x1_0000_0000_0000_0000 * high, 18);
    SameRem(c + 2 * high, low);
    SameRem(c, p);
  }

  /** `shl_64c1`: multiplication by the encoding of 2^s; `1 << s` is undefined in C for s >= 63. */
  function Shl(x_c1: Coded, y_c1: Coded): (r: Coded)
    requires 0 <= y_c1.val < 63
    ensures r.val == None64.Shl(x_c1.val, y_c1.val)
    ensures Valid(x_c1) && -TWO63 <= x_c1.val * Pow2(y_c1.val) < TWO63 ==>
            r == Encode(x_c1.val * Pow2(y_c1.val))
  {
    PowerBound(y_c1.val);
    var y := Encode(Pow2(y_c1.val));
    Mul(x_c1, y)
  }

  /** `u_shl_64c1`: unsigned multiplication by the encoding of 2^s. */
  function UShl(x_c1: UCoded, y_c1: UCoded): (r: UCoded)
    requires y_c1.val < 64
    ensures UValid(x_c1) ==> r == UEncode(None64.UShl(x_c1.val, y_c1.val))
  {
    PowerBound(y_c1.val);
    var y := UEncode(Pow2(y_c1.val));
    UMul(x_c1, y)
  }

  // ---------------------------------------------------------------------------
  // Division and remainder
  // ---------------------------------------------------------------------------

  /** The reverse check `q * y + x % y == x` of the signed division holds for every defined division. */
  lemma SignedReverseCheck(x: i64, y: i64)
    requires y != 0
    ensures SWrap64(SWrap64(CDiv(x, y) * y) + CRem(x, y)) == x
  {
    var q := CDiv(x, y);
    CongAdd(SWrap64(q * y), q * y, CRem(x, y), CRem(x, y), TWO64);
    SWrapMCong(SWrap64(q * y) + CRem(x, y), x, TWO63);
  }

  /**
   * `div_64c1`: the check field is the residue of the quotient once the reverse check
   * passes, which it always does; the operands' check fields are not examined. Division
   * by zero and INT64_MIN / -1 are undefined in C.
   */
  function Div(x_c1: Coded, y_c1: Coded): (r: Coded)
    requires y_c1.val != 0 && !(x_c1.val == -TWO63 && y_c1.val == -1)
    ensures r == Encode(None64.Div(x_c1.val, y_c1.val))
  {
    var x, y := x_c1.val, y_c1.val;
    CDivRange(x, y, TWO63);
    SignedReverseCheck(x, y);
    var q: i64 := CDiv(x, y);
    Coded(q, if SWrap64(SWrap64(q * y) + CRem(x, y)) == x then CRem(q, 18) else 33)
  }

  function Mod(x_c1: Coded, y_c1: Coded): (r: Coded)
    requires y_c1.val != 0 && !(x_c1.val == -TWO63 && y_c1.val == -1)
    ensures r == Encode(None64.Mod(x_c1.val, y_c1.val))
  {
    var x, y := x_c1.val, y_c1.val;
    SignedReverseCheck(x, y);
    var m: i64 := CRem(x, y);
    Coded(m, if SWrap64(SWrap64(CDiv(x, y) * y) + m) == x then CRem(m, 18) else 33)
  }

  /**
   * `u_div_64c1`: the residue of the quotient, cross-checked against the operands' check
   * fields. The two sides agree on valid operands; when the dividend's check field is
   * below 18 but not its residue, the result carries the error mark 33.
   */
  function UDiv(x_c1: UCoded, y_c1: UCoded): (r: UCoded)
    requires y_c1.val != 0
    ensures UValid(x_c1) && UValid(y_c1) ==> r.val == x_c1.val / y_c1.val && UValid(r)
    ensures UValid(y_c1) && x_c1.check < 18 && x_c1.check != x_c1.val % 18 ==> r.check == 33
  {
    DivBounds(x_c1.val, y_c1.val);
    var q: u64, m: u64 := x_c1.val / y_c1.val, x_c1.val % y_c1.val;
    UDivCross(x_c1, y_c1, q, m);
    UCoded(q, UDivCheck(q, m, x_c1.check, y_c1.check))
  }

  /**
   * The check field of u_div for quotient q and remainder m: checkL from the dividend's
   * check field and the remainder, checkR from the quotient and the divisor's check field,
   * in 64-bit arithmetic.
   */
  function UDivCheck(q: nat, m: nat, xc: u64, yc: u64): u64
  {
    var check := q % 18;
    var checkL := LeftCheck(m, xc);
    var checkR := Wrap64(check * yc) % 18;
    if checkR != checkL then 33 else check
  }

  /** With the divisor's residue, the check field is the quotient's residue exactly when the dividend's is right. */
  lemma UDivCross(x_c1: UCoded, y_c1: UCoded, q: nat, m: nat)
    requires y_c1.val != 0 && q == x_c1.val / y_c1.val && m == x_c1.val % y_c1.val
    ensures UValid(x_c1) && UValid(y_c1) ==> UDivCheck(q, m, x_c1.check, y_c1.check) == q % 18
    ensures UValid(y_c1) && x_c1.check < 18 && x_c1.check != x_c1.val % 18 ==>
            UDivCheck(q, m, x_c1.check, y_c1.check) == 33
  {
    var x, y, xc, yc := x_c1.val, y_c1.val, x_c1.check, y_c1.check;
    if yc == y % 18 && xc < 18 {
      SmallProduct(q % 18, yc);
      assert x == q * y + m;
      CrossCheck(x, y, q, m, xc, yc);
    }
  }

  lemma SmallProduct(a: int, b: int)
    requires 0 <= a < 18 && 0 <= b < 18
    ensures Wrap64(a * b) == a * b
  {
    MulLe(a, 17, b);
    MulLe(b, 17, 17);
  }

  function UMod(x_c1: UCoded, y_c1: UCoded): (r: UCoded)
    requires y_c1.val != 0
    ensures r == UEncode(None64.UMod(x_c1.val, y_c1.val))
  {
    var x, y := x_c1.val, y_c1.val;
    None64.ReverseCheck(x, y);
    assert x / y * y <= x;
    var val := x % y;
    UCoded(val, if Wrap64(Wrap64(x / y * y) + val) == x then val % 18 else 33)
  }

  /** `u_shr_64c1`: unsigned division by the encoding of 2^s; it inherits the cross-check. */
  function UShr(x_c1: UCoded, y_c1: UCoded): (r: UCoded)
    requires y_c1.val < 64
    ensures UValid(x_c1) ==> r == UEncode(None64.UShrCorrected(x_c1.val, y_c1.val))
    ensures x_c1.check < 18 && x_c1.check != x_c1.val % 18 ==> r.check == 33
  {
    PowerBound(y_c1.val);
    UDiv(x_c1, UEncode(Pow2(y_c1.val)))
  }

  // ---------------------------------------------------------------------------
  // Comparisons
  // ---------------------------------------------------------------------------

  /** Two values of one residue class are congruent modulo 18. */
  lemma SameClass(a: int, b: int)
    ensures CRem(a, 18) == CRem(b, 18) ==> Cong(a, b, 18)
  {
    if CRem(a, 18) == CRem(b, 18) {
      CongSym(CRem(a, 18), a, 18);
      CongTrans(a, CRem(a, 18), b, 18);
    }
  }

  /** eq compares both fields: true exactly for equal pairs. */
  function Eq(x_c1: Coded, y_c1: Coded): (r: Coded)
    ensures r == Encode(1) <==> x_c1 == y_c1
    ensures Valid(x_c1) && Valid(y_c1) ==> r == Encode(None64.Eq(x_c1.val, y_c1.val))
  {
    Encode(B2I(x_c1.val == y_c1.val && x_c1.check == y_c1.check))
  }

  function UEq(x_c1: UCoded, y_c1: UCoded): (r: UCoded)
    ensures r == UEncode(1) <==> x_c1 == y_c1
    ensures UValid(x_c1) && UValid(y_c1) ==> r == UEncode(None64.UEq(x_c1.val, y_c1.val))
  {
    UEncode(B2I(x_c1.val == y_c1.val && x_c1.check == y_c1.check))
  }

  /**
   * `neq_64c1` asks for both fields to differ. Its result is right whenever the values lie
   * in different residue classes, and "true" is never wrong, but values of one residue
   * class compare as equal (NeqOfSameResidue).
   */
  function Neq(x_c1: Coded, y_c1: Coded): (r: Coded)
    ensures r == Encode(1) ==> x_c1.val != y_c1.val
    ensures Valid(x_c1) && Valid(y_c1) && !Cong(x_c1.val, y_c1.val, 18) ==>
            r == Encode(None64.Neq(x_c1.val, y_c1.val))
  {
    SameClass(x_c1.val, y_c1.val);
    Encode(B2I(x_c1.val != y_c1.val && x_c1.check != y_c1.check))
  }

  lemma NeqOfSameResidue(x_c1: Coded, y_c1: Coded)
    requires x_c1 == Encode(0) && y_c1 == Encode(18)
    ensures Neq(x_c1, y_c1) == Encode(0) && None64.Neq(0, 18) == 1
  {
    assert y_c1.check == 0;
  }

  /** neq as the negation of eq: either field differing makes the pairs unequal. */
  function NeqCorrected(x_c1: Coded, y_c1: Coded): (r: Coded)
    ensures r.val == 1 - Eq(x_c1, y_c1).val && Valid(r)
    ensures Valid(x_c1) && Valid(y_c1) ==> r == Encode(None64.Neq(x_c1.val, y_c1.val))
  {
    Encode(B2I(x_c1.val != y_c1.val || x_c1.check != y_c1.check))
  }

  function UNeq(x_c1: UCoded, y_c1: UCoded): (r: UCoded)
    ensures r == UEncode(1) ==> x_c1.val != y_c1.val
    ensures UValid(x_c1) && UValid(y_c1) && !Cong(x_c1.val, y_c1.val, 18) ==>
            r == UEncode(None64.UNeq(x_c1.val, y_c1.val))
  {
    SameRem(x_c1.val, y_c1.val);
    UEncode(B2I(x_c1.val != y_c1.val && x_c1.check != y_c1.check))
  }

  lemma UNeqOfSameResidue(x_c1: UCoded, y_c1: UCoded)
    requires x_c1 == UEncode(0) && y_c1 == UEncode(18)
    ensures UNeq(x_c1, y_c1) == UEncode(0) && None64.UNeq(0, 18) == 1
  {
  }

  function UNeqCorrected(x_c1: UCoded, y_c1: UCoded): (r: UCoded)
    ensures r.val == 1 - UEq(x_c1, y_c1).val && UValid(r)
    ensures UValid(x_c1) && UValid(y_c1) ==> r == UEncode(None64.UNeq(x_c1.val, y_c1.val))
  {
    UEncode(B2I(x_c1.val != y_c1.val || x_c1.check != y_c1.check))
  }

  /**
   * `less_64c1` reports "less" only when x < y and the difference x - y, wrapped, exceeds x:
   * when y is negative or the difference overflows. For 1 < 3 it reports false.
   */
  function Less(x_c1: Coded, y_c1: Coded): (r: Coded)
    ensures r == Encode(0) || r == Encode(1)
    ensures r == Encode(1) <==> x_c1.val < y_c1.val && (y_c1.val < 0 || x_c1.val - y_c1.val < -TWO63)
  {
    var tmp := Sub(x_c1, y_c1);
    SWrapOnce(x_c1.val - y_c1.val, TWO63);
    if x_c1.val < y_c1.val && tmp.val > x_c1.val then Encode(1) else Encode(0)
  }

  lemma LessOfOneThree(x_c1: Coded, y_c1: Coded)
    requires x_c1 == Encode(1) && y_c1 == Encode(3)
    ensures Less(x_c1, y_c1) == Encode(0) && None64.Less(1, 3) == 1
  {
  }

  /** less as evidently intended: the value fields compared directly. */
  function LessCorrected(x_c1: Coded, y_c1: Coded): (r: Coded)
    ensures Valid(r) && r == Encode(None64.Less(x_c1.val, y_c1.val))
  {
    if x_c1.val < y_c1.val then Encode(1) else Encode(0)
  }

  /** `u_less_64c1`: for x < y the wrapped difference always exceeds x, so the test is exact. */
  function ULess(x_c1: UCoded, y_c1: UCoded): (r: UCoded)
    ensures r == UEncode(None64.ULess(x_c1.val, y_c1.val))
  {
    var tmp := USub(x_c1, y_c1);
    if x_c1.val < y_c1.val && tmp.val > x_c1.val then UEncode(1) else UEncode(0)
  }

  /** `leq_64c1` reports "greater" only when x > y and y - x, wrapped, exceeds y. */
  function Leq(x_c1: Coded, y_c1: Coded): (r: Coded)
    ensures r == Encode(0) || r == Encode(1)
    ensures r == Encode(0) <==> x_c1.val > y_c1.val && (x_c1.val < 0 || y_c1.val - x_c1.val < -TWO63)
  {
    var tmp := Sub(y_c1, x_c1);
    SWrapOnce(y_c1.val - x_c1.val, TWO63);
    if x_c1.val > y_c1.val && tmp.val > y_c1.val then Encode(0) else Encode(1)
  }

  /** 3 <= 1 is reported true: the difference 1 - 3 does not exceed 1. */
  lemma LeqOfThreeOne(x_c1: Coded, y_c1: Coded)
    requires x_c1 == Encode(3) && y_c1 == Encode(1)
    ensures Leq(x_c1, y_c1) == Encode(1) && None64.Leq(3, 1) == 0
  {
  }

  /** leq as evidently intended. */
  function LeqCorrected(x_c1: Coded, y_c1: Coded): (r: Coded)
    ensures Valid(r) && r == Encode(None64.Leq(x_c1.val, y_c1.val))
  {
    if x_c1.val <= y_c1.val then Encode(1) else Encode(0)
  }

  function ULeq(x_c1: UCoded, y_c1: UCoded): (r: UCoded)
    ensures r == UEncode(None64.ULeq(x_c1.val, y_c1.val))
  {
    var tmp := USub(y_c1, x_c1);
    if x_c1.val > y_c1.val && tmp.val > y_c1.val then UEncode(0) else UEncode(1)
  }

  /** `geq_64c1` is the complement of less: "less" is reported under the same condition. */
  function Geq(x_c1: Coded, y_c1: Coded): (r: Coded)
    ensures r == Encode(0) || r == Encode(1)
    ensures r == Encode(0) <==> x_c1.val < y_c1.val && (y_c1.val < 0 || x_c1.val - y_c1.val < -TWO63)
  {
    var tmp := Sub(x_c1, y_c1);
    SWrapOnce(x_c1.val - y_c1.val, TWO63);
    if x_c1.val < y_c1.val && tmp.val > x_c1.val then Encode(0) else Encode(1)
  }

  /** 1 >= 3 is reported true, like 1 < 3 is reported false. */
  lemma GeqOfOneThree(x_c1: Coded, y_c1: Coded)
    requires x_c1 == Encode(1) && y_c1 == Encode(3)
    ensures Geq(x_c1, y_c1) == Encode(1) && None64.Geq(1, 3) == 0
  {
  }

  /** geq as evidently intended. */
  function GeqCorrected(x_c1: Coded, y_c1: Coded): (r: Coded)
    ensures Valid(r) && r == Encode(None64.Geq(x_c1.val, y_c1.val))
  {
    if x_c1.val >= y_c1.val then Encode(1) else Encode(0)
  }

  function UGeq(x_c1: UCoded, y_c1: UCoded): (r: UCoded)
    ensures r == UEncode(None64.UGeq(x_c1.val, y_c1.val))
  {
    var tmp := USub(x_c1, y_c1);
    if x_c1.val < y_c1.val && tmp.val > x_c1.val then UEncode(0) else UEncode(1)
  }

  // ---------------------------------------------------------------------------
  // Logical operators
  // ---------------------------------------------------------------------------

  /**
   * `land_64c1` tests the wrapped product: right whenever the product does not wrap to 0
   * (LandOfWrappedProduct shows one that does).
   */
  function Land(x_c1: Coded, y_c1: Coded): (r: Coded)
    ensures Valid(x_c1) && Valid(y_c1) && (None64.Mul(x_c1.val, y_c1.val) != 0 || x_c1.val == 0 || y_c1.val == 0) ==>
            r == Encode(None64.Land(x_c1.val, y_c1.val))
  {
    var res := Mul(x_c1, y_c1);
    if res.val != 0 then Encode(1) else res
  }

  lemma LandOfWrappedProduct(x_c1: Coded)
    requires x_c1 == Encode(0x1_0000_0000)
    ensures Land(x_c1, x_c1).val == 0 && None64.Land(0x1_0000_0000, 0x1_0000_0000) == 1
  {
    MulIsCong(0, 0x1_0000_0000 * 0x1_0000_0000, -1, TWO64);
    SWrapMUnique(0, 0x1_0000_0000 * 0x1_0000_0000, TWO63);
  }

  /** land on the operands themselves: true exactly when both are non-zero. */
  function LandCorrected(x_c1: Coded, y_c1: Coded): (r: Coded)
    ensures Valid(r) && (r.val == 1 <==> x_c1.val != 0 && y_c1.val != 0)
    ensures r == Encode(None64.Land(Decode(x_c1), Decode(y_c1)))
  {
    if x_c1.val != 0 && y_c1.val != 0 then Encode(1) else Encode(0)
  }

  /** `u_land_64c1` tests the wrapped product, which is 0 for some non-zero operands. */
  function ULand(x_c1: UCoded, y_c1: UCoded): (r: UCoded)
    ensures UValid(x_c1) && UValid(y_c1) ==>
            r == UEncode(if None64.UMul(x_c1.val, y_c1.val) != 0 then 1 else 0)
  {
    var res := UMul(x_c1, y_c1);
    if res.val != 0 then UEncode(1) else res
  }

  lemma ULandOfWrappedProduct(x_c1: UCoded)
    requires x_c1 == UEncode(0x1_0000_0000)
    ensures ULand(x_c1, x_c1) == UEncode(0) && None64.ULand(0x1_0000_0000, 0x1_0000_0000) == 1
  {
    MulIsCong(0, 0x1_0000_0000 * 0x1_0000_0000, -1, TWO64);
    WrapMUnique(0, 0x1_0000_0000 * 0x1_0000_0000, TWO64);
  }

  function ULandCorrected(x_c1: UCoded, y_c1: UCoded): (r: UCoded)
    ensures UValid(r) && (r.val == 1 <==> x_c1.val != 0 && y_c1.val != 0)
    ensures r == UEncode(None64.ULand(UDecode(x_c1), UDecode(y_c1)))
  {
    if x_c1.val != 0 && y_c1.val != 0 then UEncode(1) else UEncode(0)
  }

  /** `lor_64c1`: a negative operand or a non-zero sum gives true; two non-negative operands cannot sum to a wrapped 0. */
  function Lor(x_c1: Coded, y_c1: Coded): (r: Coded)
    ensures Valid(x_c1) && Valid(y_c1) ==> r == Encode(None64.Lor(x_c1.val, y_c1.val))
  {
    var r_c1 := Add(x_c1, y_c1);
    ZeroSum(x_c1.val, y_c1.val);
    if r_c1.val != 0 || x_c1.val < 0 || y_c1.val < 0 then Encode(1) else r_c1
  }

  /** Two non-negative values sum to a wrapped 0 only when both are 0. */
  lemma ZeroSum(x: i64, y: i64)
    ensures x >= 0 && y >= 0 && SWrap64(x + y) == 0 ==> x == 0 && y == 0
  {
    if x >= 0 && y >= 0 {
      SWrapOfUnsigned(x + y, TWO63);
    }
  }

  /**
   * `u_lor_64c1` keeps the signed test: unsigned operands are never negative, so a sum
   * that wraps to exactly 0 gives false (ULorOfWrappedSum).
   */
  function ULor(x_c1: UCoded, y_c1: UCoded): (r: UCoded)
    ensures UValid(x_c1) && UValid(y_c1) && x_c1.val + y_c1.val != TWO64 ==>
            r == UEncode(None64.ULor(x_c1.val, y_c1.val))
  {
    var r_c1 := UAdd(x_c1, y_c1);
    WrapOnce(x_c1.val + y_c1.val, TWO64);
    if r_c1.val != 0 || x_c1.val < 0 || y_c1.val < 0 then UEncode(1) else r_c1
  }

  lemma ULorOfWrappedSum(x_c1: UCoded, y_c1: UCoded)
    requires x_c1 == UEncode(1) && y_c1 == UEncode(0xFFFF_FFFF_FFFF_FFFF)
    ensures ULor(x_c1, y_c1) == UEncode(0) && None64.ULor(1, 0xFFFF_FFFF_FFFF_FFFF) == 1
  {
    MulIsCong(0, TWO64, -1, TWO64);
    WrapMUnique(0, TWO64, TWO64);
  }

  /** u_lor with the wrap of the sum detected as in u_add: exact on valid operands. */
  function ULorCorrected(x_c1: UCoded, y_c1: UCoded): (r: UCoded)
    ensures UValid(x_c1) && UValid(y_c1) ==> r == UEncode(None64.ULor(x_c1.val, y_c1.val))
  {
    var r_c1 := UAdd(x_c1, y_c1);
    WrapOnce(x_c1.val + y_c1.val, TWO64);
    if r_c1.val != 0 || r_c1.val < x_c1.val then UEncode(1) else r_c1
  }

  // ---------------------------------------------------------------------------
  // Bitwise operators: the check field is recomputed from the new value
  // ---------------------------------------------------------------------------

  /** `and_64c1`: the check field is the residue of `-1 - (~x | ~y)`, which is x & y. */
  function And(x_c1: Coded, y_c1: Coded): (r: Coded)
    ensures r == Encode(None64.And(x_c1.val, y_c1.val))
  {
    var x, y := x_c1.val, y_c1.val;
    Widths();
    SignedDeMorgan(x, y, 64);
    Coded(None64.And(x, y), CRem(-1 - SBitOr(-1 - x, -1 - y, 64), 18))
  }

  function UAnd(x_c1: UCoded, y_c1: UCoded): (r: UCoded)
    ensures r == UEncode(None64.UAnd(x_c1.val, y_c1.val))
  {
    var x, y := x_c1.val, y_c1.val;
    None64.ComplementAnd(x, y);
    UCoded(None64.UAnd(x, y), (0xFFFF_FFFF_FFFF_FFFF - BitOr(0xFFFF_FFFF_FFFF_FFFF - x, 0xFFFF_FFFF_FFFF_FFFF - y, 64)) % 18)
  }

  function Or(x_c1: Coded, y_c1: Coded): (r: Coded)
    ensures r == Encode(None64.Or(x_c1.val, y_c1.val))
  {
    var x, y := x_c1.val, y_c1.val;
    Widths();
    SignedDeMorgan(x, y, 64);
    Coded(None64.Or(x, y), CRem(-1 - SBitAnd(-1 - x, -1 - y, 64), 18))
  }

  function UOr(x_c1: UCoded, y_c1: UCoded): (r: UCoded)
    ensures r == UEncode(None64.UOr(x_c1.val, y_c1.val))
  {
    var x, y := x_c1.val, y_c1.val;
    None64.ComplementOr(x, y);
    UCoded(None64.UOr(x, y), (0xFFFF_FFFF_FFFF_FFFF - BitAnd(0xFFFF_FFFF_FFFF_FFFF - x, 0xFFFF_FFFF_FFFF_FFFF - y, 64)) % 18)
  }

  function Neg(x_c1: Coded): (r: Coded)
    ensures r == Encode(None64.Neg(x_c1.val))
  {
    Coded(None64.Neg(x_c1.val), CRem(-1 - x_c1.val, 18))
  }

  function UNeg(x_c1: UCoded): (r: UCoded)
    ensures r == UEncode(None64.UNeg(x_c1.val))
  {
    Widths();
    UCoded(None64.UNeg(x_c1.val), (0xFFFF_FFFF_FFFF_FFFF - x_c1.val) % 18)
  }

  /** `xor_64c1` as `(~x & y) | (x & ~y)`. */
  function Xor(x_c1: Coded, y_c1: Coded): (r: Coded)
    ensures r == Encode(None64.Xor(x_c1.val, y_c1.val))
  {
    var p1 := And(Neg(x_c1), y_c1);
    var p2 := And(x_c1, Neg(y_c1));
    Widths();
    SignedXorByAndOr(x_c1.val, y_c1.val, 64);
    Or(p1, p2)
  }

  function UXor(x_c1: UCoded, y_c1: UCoded): (r: UCoded)
    ensures r == UEncode(None64.UXor(x_c1.val, y_c1.val))
  {
    var p1 := UAnd(UNeg(x_c1), y_c1);
    var p2 := UAnd(x_c1, UNeg(y_c1));
    Widths();
    XorByAndOr(x_c1.val, y_c1.val, 64);
    UOr(p1, p2)
  }
}
