/**
 * AN coding of codings/an_64.h: a 64-bit value x is held as the product A * x in a
 * 128-bit container, with A = A1_64 = 58659. A valid signed code is a multiple of A
 * whose quotient is a 64-bit value; the unsigned codes likewise. Every operation is
 * stated against the uncoded baseline None64 on the decoded operands.
 */
module AN64 {
  import opened Words
  import None64

  /** The correction constants kept in globals (`sub`, `pow64`, `pow64A`), as one value. */
  datatype Globals = Globals(sub: u128, pow64: u128, pow64A: u128)

  /** Their static initialisers: sub = 2^64 - A, pow64 = pow64A = 1. */
  function Initial(): (g: Globals)
    ensures g.sub == TWO64 - 58659 && g.pow64 == 1 && g.pow64A == 1
  {
    Globals(0xffff_ffff_ffff_1add, 1, 1)
  }

  /** The values the operations assume: pow64 = 2^64, pow64A = A * 2^64, sub = 2^64 * (2^64 - A). */
  predicate Ready(g: Globals)
  {
    g.pow64 == 0x1_0000_0000_0000_0000 && g.pow64A == 1082067560619728588242944
    && g.sub == 340282366920937381395813987703179968512
  }

  /** One run of init() on 128-bit unsigned arithmetic. */
  function InitStep(g: Globals): Globals
  {
    var pow64: u128 := Wrap128(g.pow64 * 0x1_0000_0000_0000_0000);
    var pow64A: u128 := Wrap128(pow64 * 58659);
    var interim: u128 := Wrap128(pow64 - 58659);
    Globals(Wrap128(pow64 * interim), pow64, pow64A)
  }

  /** init() once from the static values establishes the constants. */
  lemma InitEstablishesReady()
    ensures Ready(InitStep(Initial()))
  {
    var g := InitStep(Initial());
    assert g.pow64 == 0x1_0000_0000_0000_0000;
    assert g.pow64A == 1082067560619728588242944;
    assert Wrap128(g.pow64 - 58659) == 0x1_0000_0000_0000_0000 - 58659;
  }

  /** A second init() shifts pow64 out of the 128-bit word, after which mul divides by zero. */
  lemma InitIsNotIdempotent()
    ensures InitStep(InitStep(Initial())).pow64 == 0
  {
    InitEstablishesReady();
    MulIsCong(0, 0x1_0000_0000_0000_0000 * 0x1_0000_0000_0000_0000, -1, TWO128);
    WrapMUnique(0, 0x1_0000_0000_0000_0000 * 0x1_0000_0000_0000_0000, TWO128);
  }

  /** The globals of an_64.h, which init() updates in place. */
  class Config {
    var sub: u128
    var pow64: u128
    var pow64A: u128

    function Snapshot(): Globals
      reads this
    {
      Globals(sub, pow64, pow64A)
    }

    constructor()
      ensures Snapshot() == Initial()
    {
      sub := 0xffff_ffff_ffff_1add;
      pow64 := 1;
      pow64A := 1;
    }

    method Init()
      modifies this
      ensures Snapshot() == InitStep(old(Snapshot()))
      ensures old(Snapshot()) == Initial() ==> Ready(Snapshot())
    {
      InitEstablishesReady();
      pow64 := Wrap128(pow64 * 0x1_0000_0000_0000_0000);
      pow64A := Wrap128(pow64 * 58659);
      var interim: u128 := Wrap128(pow64 - 58659);
      sub := Wrap128(pow64 * interim);
    }
  }

  /** The powers of two of the value width (a local name for the facts of Words, which the proofs here need in scope). */
  lemma Widths()
    ensures Pow2(63) == TWO63 && Pow2(64) == TWO64
  {
    Widths64();
  }

  /** A valid signed code: a multiple of 58659 whose quotient is a signed 64-bit value. */
  predicate IsCode(x_c1: int)
  {
    x_c1 % 58659 == 0 && -TWO63 <= x_c1 / 58659 < TWO63
  }

  /** A valid unsigned code: a multiple of 58659 whose quotient is an unsigned 64-bit value. */
  predicate UIsCode(x_c1: int)
  {
    x_c1 % 58659 == 0 && 0 <= x_c1 / 58659 < TWO64
  }

  /** A multiple of 58659 divides back exactly, in both the Euclidean and the C division. */
  lemma Multiple(k: int)
    ensures (58659 * k) % 58659 == 0 && (58659 * k) / 58659 == k
    ensures CDiv(58659 * k, 58659) == k
  {
    DivModUnique(58659 * k, 58659, k, 0);
    CDivScale(k, 1, 58659);
    assert CDiv(k, 1) * 1 + CRem(k, 1) == k;
  }

  function Encode(x: i64): (r: i128)
    ensures IsCode(r) && Decode(r) == x
  {
    Multiple(x);
    58659 * x
  }

  function UEncode(x: u64): (r: u128)
    ensures UIsCode(r) && UDecode(r) == x
  {
    Multiple(x);
    x * 58659
  }

  /** The C quotient by A, cast to 64 bits; on a code it is the encoded value. */
  function Decode(x_c1: i128): (r: i64)
    ensures IsCode(x_c1) ==> 58659 * r == x_c1
  {
    Multiple(x_c1 / 58659);
    SWrap64(CDiv(x_c1, 58659))
  }

  function UDecode(x_c1: u128): (r: u64)
    ensures UIsCode(x_c1) ==> r * 58659 == x_c1
  {
    Wrap64(x_c1 / 58659)
  }

  /** The C remainder by A is zero exactly when the word is a multiple of A. */
  lemma RemainderByA(v: int)
    ensures CRem(v, 58659) == 0 <==> v % 58659 == 0
  {
    CDivByAbs(v, 58659);
    if v < 0 {
      if v % 58659 == 0 {
        DivModUnique(-v, 58659, -(v / 58659), 0);
      }
      if (-v) % 58659 == 0 {
        DivModUnique(v, 58659, -((-v) / 58659), 0);
      }
    }
  }

  /**
   * The check accepts a code exactly when the expected value is its quotient, and
   * rejects every word that is not a multiple of A.
   */
  function Check(val: i128, valc: i128): (r: bool)
    ensures IsCode(valc) ==> (r <==> 58659 * val == valc)
    ensures valc % 58659 != 0 ==> !r
  {
    RemainderByA(valc);
    val == Decode(valc) && CRem(valc, 58659) == 0
  }

  function UCheck(val: u128, valc: u128): (r: bool)
    ensures UIsCode(valc) ==> (r <==> val * 58659 == valc)
    ensures valc % 58659 != 0 ==> !r
  {
    val == UDecode(valc) && valc % 58659 == 0
  }

  /**
   * The coded sum is A times the plain sum; it decodes to the wrapped sum, and it is a
   * valid code exactly when the plain sum does not overflow.
   */
  function Add(x_c1: i128, y_c1: i128): (r: i128)
    ensures IsCode(x_c1) && IsCode(y_c1) ==>
      r == 58659 * (Decode(x_c1) + Decode(y_c1))
      && Decode(r) == None64.Add(Decode(x_c1), Decode(y_c1))
      && (IsCode(r) <==> -TWO63 <= Decode(x_c1) + Decode(y_c1) < TWO63)
  {
    Multiple(Decode(x_c1) + Decode(y_c1));
    SWrap128(x_c1 + y_c1)
  }

  function UAdd(x_c1: u128, y_c1: u128): (r: u128)
    ensures UIsCode(x_c1) && UIsCode(y_c1) ==>
      r == 58659 * (UDecode(x_c1) + UDecode(y_c1))
      && UDecode(r) == None64.UAdd(UDecode(x_c1), UDecode(y_c1))
      && (UIsCode(r) <==> UDecode(x_c1) + UDecode(y_c1) < TWO64)
  {
    Multiple(UDecode(x_c1) + UDecode(y_c1));
    Wrap128(x_c1 + y_c1)
  }

  function Sub(x_c1: i128, y_c1: i128): (r: i128)
    ensures IsCode(x_c1) && IsCode(y_c1) ==>
      r == 58659 * (Decode(x_c1) - Decode(y_c1))
      && Decode(r) == None64.Sub(Decode(x_c1), Decode(y_c1))
      && (IsCode(r) <==> -TWO63 <= Decode(x_c1) - Decode(y_c1) < TWO63)
  {
    Multiple(Decode(x_c1) - Decode(y_c1));
    SWrap128(x_c1 - y_c1)
  }

  /**
   * The unsigned difference of codes; when it would go below zero, the constant
   * 2^64 * (2^64 - A) is subtracted, which turns the 128-bit wrap into the 64-bit one.
   */
  function USub(g: Globals, x_c1: u128, y_c1: u128): (r: u128)
    ensures Ready(g) && UIsCode(x_c1) && UIsCode(y_c1) ==> r == UEncode(None64.USub(UDecode(x_c1), UDecode(y_c1)))
  {
    USubRepairs(g, x_c1, y_c1);
    var r_c1: u128 := Wrap128(x_c1 - y_c1);
    if x_c1 < y_c1 then Wrap128(r_c1 - g.sub) else r_c1
  }

  lemma USubRepairs(g: Globals, x_c1: u128, y_c1: u128)
    ensures Ready(g) && UIsCode(x_c1) && UIsCode(y_c1) ==>
      (if x_c1 < y_c1 then Wrap128(Wrap128(x_c1 - y_c1) - g.sub) else Wrap128(x_c1 - y_c1))
        == UEncode(None64.USub(UDecode(x_c1), UDecode(y_c1)))
  {
    if Ready(g) && UIsCode(x_c1) && UIsCode(y_c1) {
      var x: int, y: int := UDecode(x_c1), UDecode(y_c1);
      if x_c1 < y_c1 {
        assert Wrap128(x_c1 - y_c1) == x_c1 - y_c1 + 0x1_0000_0000_0000_0000_0000_0000_0000_0000;
        assert None64.USub(x, y) == x - y + 0x1_0000_0000_0000_0000;
      } else {
        assert None64.USub(x, y) == x - y;
      }
    }
  }

  /** The repair of the sign of mul: a wrapped negative product gets the positive remainder shifted down, and vice versa. */
  function SignRepair(g: Globals, r: int, res: int, r_c1: i128): i128
  {
    if r > 0 then (if res < 0 then SWrap128(r_c1 + g.sub) else r_c1)
    else (if res > 0 then SWrap128(r_c1 - g.sub) else r_c1)
  }

  /**
   * mul decodes both operands, multiplies the coded left operand by the plain right one,
   * and removes A * 2^64 per unit of the quotient of the plain product by 2^64; the sign
   * test on the 64-bit product `res` then repairs the result.
   */
  function Mul(g: Globals, x_c1: i128, y_c1: i128): i128
    requires SWrap128(g.pow64) != 0
  {
    var x_d1: int := CDiv(x_c1, 58659);
    var y_d1: int := CDiv(y_c1, 58659);
    var res: i64 := SWrap64(SWrap64(x_d1) * SWrap64(y_d1));
    var r: i128 := SWrap128(x_d1 * y_d1);
    var quo: int := CDiv(r, SWrap128(g.pow64));
    var r_c1: i128 := SWrap128(x_c1 * y_d1 - quo * SWrap128(g.pow64A));
    SignRepair(g, r, res, r_c1)
  }

  /** A 64-bit wrap of the product of two casts is the wrap of the product. */
  lemma ResidueOfProduct(x: int, y: int)
    ensures Cong(SWrap64(SWrap64(x) * SWrap64(y)), x * y, TWO64)
  {
    CongMul(SWrap64(x), x, SWrap64(y), y, TWO64);
    CongTrans(SWrap64(SWrap64(x) * SWrap64(y)), SWrap64(x) * SWrap64(y), x * y, TWO64);
  }

  /** For c the C remainder of the product by 2^64 and res its 64-bit wrap, the repair yields A * res. */
  lemma SignRepairCorrect(g: Globals, xy: i128, res: i64, c: int)
    requires Ready(g) && Cong(res, xy, TWO64) && c == CRem(xy, 0x1_0000_0000_0000_0000)
    ensures -TWO127 <= 58659 * c < TWO127
    ensures SignRepair(g, xy, res, 58659 * c) == 58659 * res
  {
    var P := 0x1_0000_0000_0000_0000;
    assert Cong(c, xy, TWO64);
    CongSym(res, xy, TWO64);
    if xy > 0 && res < 0 {
      MulIsCong(c - P, c, -1, TWO64);
      CongTrans(c - P, c, xy, TWO64);
      CongTrans(c - P, xy, res, TWO64);
      CongWindow(c - P, res, -P, TWO64);
      MulIsCong(58659 * (c - P), 58659 * c + 340282366920937381395813987703179968512, -1, TWO128);
      SWrapMUnique(58659 * (c - P), 58659 * c + 340282366920937381395813987703179968512, TWO127);
    } else if xy > 0 {
      CongTrans(c, xy, res, TWO64);
      CongWindow(c, res, 0, TWO64);
    } else if res > 0 {
      MulIsCong(c + P, c, 1, TWO64);
      CongTrans(c + P, c, xy, TWO64);
      CongTrans(c + P, xy, res, TWO64);
      CongWindow(c + P, res, 1, TWO64);
      MulIsCong(58659 * (c + P), 58659 * c - 340282366920937381395813987703179968512, 1, TWO128);
      SWrapMUnique(58659 * (c + P), 58659 * c - 340282366920937381395813987703179968512, TWO127);
    } else {
      CongTrans(c, xy, res, TWO64);
      CongWindow(c, res, -P + 1, TWO64);
    }
  }

  /** On multiples of A with quotients of at most 2^63 in magnitude, mul is A times the wrapped product. */
  lemma MulOfMultiples(g: Globals, x: int, y: int)
    requires Ready(g) && -TWO63 <= x <= TWO63 && -TWO63 <= y <= TWO63
    ensures -TWO127 <= 58659 * x < TWO127 && -TWO127 <= 58659 * y < TWO127
    ensures Mul(g, 58659 * x, 58659 * y) == 58659 * SWrap64(x * y)
  {
    var xy := x * y;
    var res := SWrap64(SWrap64(x) * SWrap64(y));
    MulUnfolds(g, x, y);
    ResidueOfProduct(x, y);
    SignRepairCorrect(g, xy, res, CRem(xy, 0x1_0000_0000_0000_0000));
    SWrapMUnique(res, xy, TWO63);
  }

  /** On such multiples the steps of mul before the sign repair are exact. */
  lemma MulUnfolds(g: Globals, x: int, y: int)
    requires Ready(g) && -TWO63 <= x <= TWO63 && -TWO63 <= y <= TWO63
    ensures -TWO127 <= 58659 * x < TWO127 && -TWO127 <= 58659 * y < TWO127
    ensures -0x4000_0000_0000_0000_0000_0000_0000_0000 <= x * y <= 0x4000_0000_0000_0000_0000_0000_0000_0000 && -TWO127 <= 58659 * CRem(x * y, 0x1_0000_0000_0000_0000) < TWO127
    ensures Mul(g, 58659 * x, 58659 * y)
      == SignRepair(g, x * y, SWrap64(SWrap64(x) * SWrap64(y)), 58659 * CRem(x * y, 0x1_0000_0000_0000_0000))
  {
    assert SWrap128(g.pow64) == 0x1_0000_0000_0000_0000 && SWrap128(g.pow64A) == 1082067560619728588242944;
    Multiple(x);
    Multiple(y);
    var xy := x * y;
    ProductBound(x, y, 0x8000_0000_0000_0000);
    assert -0x4000_0000_0000_0000_0000_0000_0000_0000 <= xy <= 0x4000_0000_0000_0000_0000_0000_0000_0000;
    var quo := CDiv(xy, 0x1_0000_0000_0000_0000);
    var c := CRem(xy, 0x1_0000_0000_0000_0000);
    ScaleProduct(x, y);
    assert 58659 * xy - quo * 1082067560619728588242944 == 58659 * c;
  }

  lemma ScaleProduct(x: int, y: int)
    ensures (58659 * x) * y == 58659 * (x * y)
  {
  }

  lemma MulEncodes(g: Globals, x_c1: i128, y_c1: i128)
    ensures Ready(g) && IsCode(x_c1) && IsCode(y_c1) ==> Mul(g, x_c1, y_c1) == Encode(None64.Mul(Decode(x_c1), Decode(y_c1)))
  {
    if Ready(g) && IsCode(x_c1) && IsCode(y_c1) {
      MulOfMultiples(g, Decode(x_c1), Decode(y_c1));
    }
  }

  /** The unsigned mul: the same reduction by A * 2^64 per unit of the quotient, without a sign repair. */
  function UMul(g: Globals, x_c1: u128, y_c1: u128): u128
    requires g.pow64 != 0
  {
    var x_d1: u128 := x_c1 / 58659;
    var y_d1: u128 := y_c1 / 58659;
    var r: u128 := Wrap128(x_d1 * y_d1);
    var quo: u128 := r / g.pow64;
    Wrap128(x_c1 * y_d1 - quo * SWrap128(g.pow64A))
  }

  lemma UMulOfMultiples(g: Globals, x: u64, y: u64)
    requires Ready(g)
    ensures UMul(g, 58659 * x, 58659 * y) == 58659 * Wrap64(x * y)
  {
    assert SWrap128(g.pow64) == 0x1_0000_0000_0000_0000 && SWrap128(g.pow64A) == 1082067560619728588242944;
    Multiple(x);
    Multiple(y);
    var xy := x * y;
    ProductBound(x, y, 0x1_0000_0000_0000_0000 - 1);
    assert 0 <= xy < 0x1_0000_0000_0000_0000_0000_0000_0000_0000;
    var quo := xy / 0x1_0000_0000_0000_0000;
    var c := xy % 0x1_0000_0000_0000_0000;
    assert (58659 * x) * y == 58659 * xy;
    assert 58659 * xy - quo * 1082067560619728588242944 == 58659 * c;
    CongMod(xy, TWO64);
    WrapMUnique(c, xy, TWO64);
  }

  lemma UMulEncodes(g: Globals, x_c1: u128, y_c1: u128)
    ensures Ready(g) && UIsCode(x_c1) && UIsCode(y_c1) ==> UMul(g, x_c1, y_c1) == UEncode(None64.UMul(UDecode(x_c1), UDecode(y_c1)))
  {
    if Ready(g) && UIsCode(x_c1) && UIsCode(y_c1) {
      UMulOfMultiples(g, UDecode(x_c1), UDecode(y_c1));
    }
  }

  /** The quotient of the codes, re-encoded; C leaves division by zero and MIN / -1 undefined. */
  function Div(x_c1: i128, y_c1: i128): (r: i128)
    requires y_c1 != 0 && !(x_c1 == -TWO127 && y_c1 == -1)
    ensures IsCode(x_c1) && IsCode(y_c1) && !(Decode(x_c1) == -TWO63 && Decode(y_c1) == -1) ==>
      r == Encode(None64.Div(Decode(x_c1), Decode(y_c1)))
  {
    if IsCode(x_c1) && IsCode(y_c1) && !(Decode(x_c1) == -TWO63 && Decode(y_c1) == -1) then
      CDivScale(Decode(x_c1), Decode(y_c1), 58659);
      CDivRange(Decode(x_c1), Decode(y_c1), TWO63);
      SWrap128(CDiv(x_c1, y_c1) * 58659)
    else
      SWrap128(CDiv(x_c1, y_c1) * 58659)
  }

  function UDiv(x_c1: u128, y_c1: u128): (r: u128)
    requires y_c1 != 0
    ensures UIsCode(x_c1) && UIsCode(y_c1) ==> r == UEncode(None64.UDiv(UDecode(x_c1), UDecode(y_c1)))
  {
    if UIsCode(x_c1) && UIsCode(y_c1) then
      ScaledDivMod(UDecode(x_c1), UDecode(y_c1), 58659);
      Wrap128((x_c1 / y_c1) * 58659)
    else
      Wrap128((x_c1 / y_c1) * 58659)
  }

  /** The C remainder of the codes is A times the remainder of the values. */
  function Mod(x_c1: i128, y_c1: i128): (r: i128)
    requires y_c1 != 0 && !(x_c1 == -TWO127 && y_c1 == -1)
    ensures IsCode(x_c1) && IsCode(y_c1) && !(Decode(x_c1) == -TWO63 && Decode(y_c1) == -1) ==>
      r == Encode(None64.Mod(Decode(x_c1), Decode(y_c1)))
  {
    if IsCode(x_c1) && IsCode(y_c1) then
      CDivScale(Decode(x_c1), Decode(y_c1), 58659);
      CRem(x_c1, y_c1)
    else
      CRem(x_c1, y_c1)
  }

  function UMod(x_c1: u128, y_c1: u128): (r: u128)
    requires y_c1 != 0
    ensures UIsCode(x_c1) && UIsCode(y_c1) ==> r == UEncode(None64.UMod(UDecode(x_c1), UDecode(y_c1)))
  {
    if UIsCode(x_c1) && UIsCode(y_c1) then
      ScaledDivMod(UDecode(x_c1), UDecode(y_c1), 58659);
      x_c1 % y_c1
    else
      x_c1 % y_c1
  }

  // Comparisons compare the codes directly: multiplication by A > 0 keeps the order.

  function Eq(x_c1: i128, y_c1: i128): (r: i128)
    ensures IsCode(x_c1) && IsCode(y_c1) ==> r == Encode(None64.Eq(Decode(x_c1), Decode(y_c1)))
  {
    if x_c1 == y_c1 then 58659 else 0
  }

  function UEq(x_c1: u128, y_c1: u128): (r: u128)
    ensures UIsCode(x_c1) && UIsCode(y_c1) ==> r == UEncode(None64.UEq(UDecode(x_c1), UDecode(y_c1)))
  {
    if x_c1 == y_c1 then 58659 else 0
  }

  function Neq(x_c1: i128, y_c1: i128): (r: i128)
    ensures IsCode(x_c1) && IsCode(y_c1) ==> r == Encode(None64.Neq(Decode(x_c1), Decode(y_c1)))
  {
    if x_c1 != y_c1 then 58659 else 0
  }

  function UNeq(x_c1: u128, y_c1: u128): (r: u128)
    ensures UIsCode(x_c1) && UIsCode(y_c1) ==> r == UEncode(None64.UNeq(UDecode(x_c1), UDecode(y_c1)))
  {
    if x_c1 != y_c1 then 58659 else 0
  }

  function Less(x_c1: i128, y_c1: i128): (r: i128)
    ensures IsCode(x_c1) && IsCode(y_c1) ==> r == Encode(None64.Less(Decode(x_c1), Decode(y_c1)))
  {
    if x_c1 < y_c1 then 58659 else 0
  }

  function ULess(x_c1: u128, y_c1: u128): (r: u128)
    ensures UIsCode(x_c1) && UIsCode(y_c1) ==> r == UEncode(None64.ULess(UDecode(x_c1), UDecode(y_c1)))
  {
    if x_c1 < y_c1 then 58659 else 0
  }

  function Grt(x_c1: i128, y_c1: i128): (r: i128)
    ensures IsCode(x_c1) && IsCode(y_c1) ==> r == Encode(None64.Grt(Decode(x_c1), Decode(y_c1)))
  {
    if x_c1 > y_c1 then 58659 else 0
  }

  function UGrt(x_c1: u128, y_c1: u128): (r: u128)
    ensures UIsCode(x_c1) && UIsCode(y_c1) ==> r == UEncode(None64.UGrt(UDecode(x_c1), UDecode(y_c1)))
  {
    if x_c1 > y_c1 then 58659 else 0
  }

  function Leq(x_c1: i128, y_c1: i128): (r: i128)
    ensures IsCode(x_c1) && IsCode(y_c1) ==> r == Encode(None64.Leq(Decode(x_c1), Decode(y_c1)))
  {
    if x_c1 <= y_c1 then 58659 else 0
  }

  function ULeq(x_c1: u128, y_c1: u128): (r: u128)
    ensures UIsCode(x_c1) && UIsCode(y_c1) ==> r == UEncode(None64.ULeq(UDecode(x_c1), UDecode(y_c1)))
  {
    if x_c1 <= y_c1 then 58659 else 0
  }

  function Geq(x_c1: i128, y_c1: i128): (r: i128)
    ensures IsCode(x_c1) && IsCode(y_c1) ==> r == Encode(None64.Geq(Decode(x_c1), Decode(y_c1)))
  {
    if x_c1 >= y_c1 then 58659 else 0
  }

  function UGeq(x_c1: u128, y_c1: u128): (r: u128)
    ensures UIsCode(x_c1) && UIsCode(y_c1) ==> r == UEncode(None64.UGeq(UDecode(x_c1), UDecode(y_c1)))
  {
    if x_c1 >= y_c1 then 58659 else 0
  }

  /**
   * `x << y` as mul by the code-like word `(1 << y) * A`; the signed 128-bit `1 << y` is
   * undefined in C for y < 0 or y >= 127.
   */
  function Shl(g: Globals, x_c1: i128, y_c1: i128): (r: i128)
    requires 0 <= Decode(y_c1) < 127
    requires SWrap128(g.pow64) != 0
    ensures Ready(g) && IsCode(x_c1) && IsCode(y_c1) && Decode(y_c1) < 64 ==>
      r == Encode(None64.Shl(Decode(x_c1), Decode(y_c1)))
  {
    var y: nat := Decode(y_c1);
    ShiftedFactor(g, x_c1, y);
    Mul(g, x_c1, SWrap128(Pow2(y) * 58659))
  }

  lemma ShiftedFactor(g: Globals, x_c1: i128, y: nat)
    ensures Ready(g) && IsCode(x_c1) && y < 64 ==>
      Mul(g, x_c1, SWrap128(Pow2(y) * 58659)) == Encode(SWrap64(Decode(x_c1) * Pow2(y)))
  {
    if Ready(g) && IsCode(x_c1) && y < 64 {
      var x: int, p: int := Decode(x_c1), Pow2(y);
      Widths();
      Pow2Mono(y, 63);
      assert 1 <= p <= TWO63;
      assert SWrap128(p * 58659) == 58659 * p;
      MulOfMultiples(g, x, p);
      assert x_c1 == 58659 * x;
    }
  }

  /** The unsigned shift `1 << y` of the 128-bit container is undefined in C for y >= 128. */
  function UShl(g: Globals, x_c1: u128, y_c1: u128): (r: u128)
    requires UDecode(y_c1) < 128
    requires g.pow64 != 0
    ensures Ready(g) && UIsCode(x_c1) && UIsCode(y_c1) && UDecode(y_c1) < 64 ==>
      r == UEncode(None64.UShl(UDecode(x_c1), UDecode(y_c1)))
  {
    var y := UDecode(y_c1);
    UShiftedFactor(g, x_c1, y);
    UMul(g, x_c1, Wrap128(Pow2(y) * 58659))
  }

  lemma UShiftedFactor(g: Globals, x_c1: u128, y: nat)
    ensures Ready(g) && UIsCode(x_c1) && y < 64 ==>
      UMul(g, x_c1, Wrap128(Pow2(y) * 58659)) == UEncode(Wrap64(UDecode(x_c1) * Pow2(y)))
  {
    if Ready(g) && UIsCode(x_c1) && y < 64 {
      var x: int, p: int := UDecode(x_c1), Pow2(y);
      Widths();
      Pow2Mono(y, 64 - 1);
      assert 1 <= p <= TWO63;
      assert Wrap128(p * 58659) == 58659 * p;
      UMulOfMultiples(g, x, p);
      assert x_c1 == 58659 * x;
    }
  }

  /** An odd multiple of a power of two below 2^128 does not wrap to zero. */
  lemma ShiftDivisor(y: nat)
    requires y < 128
    ensures Wrap128(Pow2(y) * 58659) != 0
  {
    var c, b := Pow2(y), Pow2(128 - y);
    assert c * b == TWO128 by {
      Widths128();
      Pow2Add(y, 128 - y);
    }
    var rm := 58659 % b;
    assert (c * 58659) % TWO128 == c * rm by {
      ScaledDivMod(58659, b, c);
    }
    assert rm % 2 == 1 by {
      assert b == 2 * Pow2(128 - y - 1);
      EvenModulus(58659, b, Pow2(128 - y - 1));
    }
    assert 0 < c * rm by {
      MulSign(rm, c);
    }
    CongMod(c * 58659, TWO128);
    WrapMUnique(c * rm, c * 58659, TWO128);
  }

  /** Reducing by an even modulus keeps the parity. */
  lemma EvenModulus(x: int, b: int, k: int)
    requires k > 0 && b == 2 * k
    ensures (x % b) % 2 == x % 2
  {
    var q := x / b;
    var rm := x % b;
    assert x == q * b + rm;
    assert q * b == 2 * (q * k);
    DivModUnique(x, 2, q * k + rm / 2, rm % 2);
  }

  /** `x >> y` as u_div by `(1 << y) * A`, which never wraps to zero. */
  function UShr(x_c1: u128, y_c1: u128): (r: u128)
    requires UDecode(y_c1) < 128
    ensures UIsCode(x_c1) && UIsCode(y_c1) && UDecode(y_c1) < 64 ==>
      r == UEncode(None64.UShrCorrected(UDecode(x_c1), UDecode(y_c1)))
  {
    var y := UDecode(y_c1);
    ShiftDivisor(y);
    UShiftedQuotient(x_c1, y);
    UDiv(x_c1, Wrap128(Pow2(y) * 58659))
  }

  lemma UShiftedQuotient(x_c1: u128, y: nat)
    requires y < 128
    ensures Wrap128(Pow2(y) * 58659) != 0
    ensures UIsCode(x_c1) && y < 64 ==>
      UDiv(x_c1, Wrap128(Pow2(y) * 58659)) == UEncode(None64.UShrCorrected(UDecode(x_c1), y))
  {
    ShiftDivisor(y);
    if UIsCode(x_c1) && y < 64 {
      var p: int := Pow2(y);
      Pow2Mono(y, 64 - 1);
      assert Pow2(63) == TWO63 by { Widths64(); }
      assert 1 <= p <= TWO63;
      assert Wrap128(p * 58659) == 58659 * p;
      Multiple(p);
      assert UIsCode(58659 * p) && UDecode(58659 * p) == p;
      assert None64.UDiv(UDecode(x_c1), p) == None64.UShrCorrected(UDecode(x_c1), y);
    }
  }

  /** land as written: true exactly when the coded product is non-zero, that is, when the wrapped 64-bit product is. */
  function Land(g: Globals, x_c1: i128, y_c1: i128): (r: i128)
    requires SWrap128(g.pow64) != 0
    ensures Ready(g) && IsCode(x_c1) && IsCode(y_c1) ==>
      r == Encode(if None64.Mul(Decode(x_c1), Decode(y_c1)) != 0 then 1 else 0)
  {
    LandOfCodes(g, x_c1, y_c1);
    var r_c1 := Mul(g, x_c1, y_c1);
    if r_c1 != 0 then 58659 else r_c1
  }

  lemma LandOfCodes(g: Globals, x_c1: i128, y_c1: i128)
    ensures Ready(g) && IsCode(x_c1) && IsCode(y_c1) ==>
      (Mul(g, x_c1, y_c1) == 0 <==> None64.Mul(Decode(x_c1), Decode(y_c1)) == 0)
  {
    MulEncodes(g, x_c1, y_c1);
  }

  function ULand(g: Globals, x_c1: u128, y_c1: u128): (r: u128)
    requires g.pow64 != 0
    ensures Ready(g) && UIsCode(x_c1) && UIsCode(y_c1) ==>
      r == UEncode(if None64.UMul(UDecode(x_c1), UDecode(y_c1)) != 0 then 1 else 0)
  {
    UMulEncodes(g, x_c1, y_c1);
    var r_c1 := UMul(g, x_c1, y_c1);
    if r_c1 != 0 then 58659 else r_c1
  }

  /**
   * land of two true operands whose 64-bit product wraps to zero is false;
   * MulVanishes shows that 2^32 is such an operand.
   */
  lemma LandOfWrappedProduct(g: Globals, x_c1: i128)
    requires Ready(g) && IsCode(x_c1) && Decode(x_c1) != 0 && None64.Mul(Decode(x_c1), Decode(x_c1)) == 0
    ensures Land(g, x_c1, x_c1) == Encode(0)
    ensures None64.Land(Decode(x_c1), Decode(x_c1)) == 1
  {
  }

  /** The 64-bit products of 2^32 with itself wrap to zero. */
  lemma MulVanishes()
    ensures None64.Mul(0x1_0000_0000, 0x1_0000_0000) == 0 && None64.UMul(0x1_0000_0000, 0x1_0000_0000) == 0
  {
    MulIsCong(0, 0x1_0000_0000_0000_0000, -1, TWO64);
    WrapMUnique(0, 0x1_0000_0000_0000_0000, TWO64);
    SWrapMUnique(0, 0x1_0000_0000_0000_0000, TWO63);
  }

  /** The unsigned counterpart: u_land of two true operands whose product wraps is false. */
  lemma ULandOfWrappedProduct(g: Globals, x_c1: u128)
    requires Ready(g) && UIsCode(x_c1) && UDecode(x_c1) != 0 && None64.UMul(UDecode(x_c1), UDecode(x_c1)) == 0
    ensures ULand(g, x_c1, x_c1) == UEncode(0)
    ensures None64.ULand(UDecode(x_c1), UDecode(x_c1)) == 1
  {
  }

  /** The logical and the encoding intends: true when both codes are non-zero. */
  function LandCorrected(x_c1: i128, y_c1: i128): (r: i128)
    ensures IsCode(x_c1) && IsCode(y_c1) ==> r == Encode(None64.Land(Decode(x_c1), Decode(y_c1)))
  {
    ZeroCode(x_c1);
    ZeroCode(y_c1);
    if x_c1 != 0 && y_c1 != 0 then 58659 else 0
  }

  /** A code is zero exactly when its value is. */
  lemma ZeroCode(x_c1: i128)
    ensures IsCode(x_c1) ==> (x_c1 == 0 <==> Decode(x_c1) == 0)
  {
  }

  function ULandCorrected(x_c1: u128, y_c1: u128): (r: u128)
    ensures UIsCode(x_c1) && UIsCode(y_c1) ==> r == UEncode(None64.ULand(UDecode(x_c1), UDecode(y_c1)))
  {
    if x_c1 != 0 && y_c1 != 0 then 58659 else 0
  }

  /** On a code, the word has the sign of the value and lies far inside the container. */
  lemma CodeSign(x_c1: i128)
    ensures IsCode(x_c1) ==> (x_c1 == 0 <==> Decode(x_c1) == 0) && (x_c1 < 0 <==> Decode(x_c1) < 0)
    ensures IsCode(x_c1) ==> -59000 * TWO63 <= x_c1 < 59000 * TWO63
  {
    if IsCode(x_c1) {
      var d := Decode(x_c1);
      MulSign(d, 58659);
      if d >= 0 {
        MulLe(d, TWO63, 58659);
      } else {
        MulLe(-TWO63, d, 58659);
      }
    }
  }

  /** On an unsigned code, the word is zero with the value and lies far inside the container. */
  lemma UCodeSign(x_c1: u128)
    ensures UIsCode(x_c1) ==> (x_c1 == 0 <==> UDecode(x_c1) == 0) && x_c1 < 59000 * TWO64
  {
    if UIsCode(x_c1) {
      var d := UDecode(x_c1);
      MulSign(d, 58659);
      MulLe(d, TWO64, 58659);
    }
  }

  /** lor adds the codes; a negative operand forces true, since -n + n sums to zero. */
  function Lor(x_c1: i128, y_c1: i128): (r: i128)
    ensures IsCode(x_c1) && IsCode(y_c1) ==> r == Encode(None64.Lor(Decode(x_c1), Decode(y_c1)))
  {
    CodeSign(x_c1);
    CodeSign(y_c1);
    var s: i128 := SWrap128(x_c1 + y_c1);
    var r0: i128 := if s != 0 then 58659 else s;
    if x_c1 < 0 || y_c1 < 0 then 58659 else r0
  }

  /** u_lor adds the codes; a zero sum smaller than both operands has wrapped and counts as true. */
  function ULor(x_c1: u128, y_c1: u128): (r: u128)
    ensures UIsCode(x_c1) && UIsCode(y_c1) ==> r == UEncode(None64.ULor(UDecode(x_c1), UDecode(y_c1)))
  {
    UCodeSign(x_c1);
    UCodeSign(y_c1);
    var s: u128 := Wrap128(x_c1 + y_c1);
    if s != 0 then 58659
    else if s < x_c1 && s < y_c1 then 58659
    else s
  }

  // The bitwise operators decode, apply De Morgan forms of the operator to the values,
  // and re-encode; they hold for every container word.

  function And(x_c1: i128, y_c1: i128): (r: i128)
    ensures r == Encode(None64.And(Decode(x_c1), Decode(y_c1)))
  {
    var x_d1, y_d1 := Decode(x_c1), Decode(y_c1);
    Widths();
    SignedDeMorgan(x_d1, y_d1, 64);
    var r_c: i128 := -1 - SBitOr(-1 - x_d1, -1 - y_d1, 64);
    r_c * 58659
  }

  function UAnd(x_c1: u128, y_c1: u128): (r: u128)
    ensures r == UEncode(None64.UAnd(UDecode(x_c1), UDecode(y_c1)))
  {
    var x_d1, y_d1 := UDecode(x_c1), UDecode(y_c1);
    None64.ComplementAnd(x_d1, y_d1);
    var r_c: u128 := 0xFFFF_FFFF_FFFF_FFFF - BitOr(0xFFFF_FFFF_FFFF_FFFF - x_d1, 0xFFFF_FFFF_FFFF_FFFF - y_d1, 64);
    r_c * 58659
  }

  function Or(x_c1: i128, y_c1: i128): (r: i128)
    ensures r == Encode(None64.Or(Decode(x_c1), Decode(y_c1)))
  {
    var x_d1, y_d1 := Decode(x_c1), Decode(y_c1);
    Widths();
    SignedDeMorgan(x_d1, y_d1, 64);
    var r_c: i128 := -1 - SBitAnd(-1 - x_d1, -1 - y_d1, 64);
    r_c * 58659
  }

  function UOr(x_c1: u128, y_c1: u128): (r: u128)
    ensures r == UEncode(None64.UOr(UDecode(x_c1), UDecode(y_c1)))
  {
    var x_d1, y_d1 := UDecode(x_c1), UDecode(y_c1);
    None64.ComplementOr(x_d1, y_d1);
    var r_c: u128 := 0xFFFF_FFFF_FFFF_FFFF - BitAnd(0xFFFF_FFFF_FFFF_FFFF - x_d1, 0xFFFF_FFFF_FFFF_FFFF - y_d1, 64);
    r_c * 58659
  }

  function Neg(x_c1: i128): (r: i128)
    ensures r == Encode(None64.Neg(Decode(x_c1)))
  {
    var x_d1 := Decode(x_c1);
    var r_c: i128 := -1 - x_d1;
    r_c * 58659
  }

  function UNeg(x_c1: u128): (r: u128)
    ensures r == UEncode(None64.UNeg(UDecode(x_c1)))
  {
    var x_d1 := UDecode(x_c1);
    Widths();
    var r_c: u128 := 0xFFFF_FFFF_FFFF_FFFF - x_d1;
    r_c * 58659
  }

  /** xor as `(~x & y) | (x & ~y)` on codes. */
  function Xor(x_c1: i128, y_c1: i128): (r: i128)
    ensures r == Encode(None64.Xor(Decode(x_c1), Decode(y_c1)))
  {
    XorOfCodes(x_c1, y_c1);
    var p1 := And(Neg(x_c1), y_c1);
    var p2 := And(x_c1, Neg(y_c1));
    Or(p1, p2)
  }

  lemma XorOfCodes(x_c1: i128, y_c1: i128)
    ensures Or(And(Neg(x_c1), y_c1), And(x_c1, Neg(y_c1))) == Encode(None64.Xor(Decode(x_c1), Decode(y_c1)))
  {
    var x, y := Decode(x_c1), Decode(y_c1);
    Widths();
    var nx, ny := Neg(x_c1), Neg(y_c1);
    assert Decode(nx) == -1 - x && Decode(ny) == -1 - y;
    var p1, p2 := And(nx, y_c1), And(x_c1, ny);
    var a1, a2 := SBitAnd(-1 - x, y, 64), SBitAnd(x, -1 - y, 64);
    assert Decode(p1) == a1;
    assert Decode(p2) == a2;
    assert Or(p1, p2) == Encode(SBitOr(a1, a2, 64));
    SignedXorByAndOr(x, y, 64);
    assert SBitOr(a1, a2, 64) == None64.Xor(x, y);
  }

  function UXor(x_c1: u128, y_c1: u128): (r: u128)
    ensures r == UEncode(None64.UXor(UDecode(x_c1), UDecode(y_c1)))
  {
    UXorOfCodes(x_c1, y_c1);
    var p1 := UAnd(UNeg(x_c1), y_c1);
    var p2 := UAnd(x_c1, UNeg(y_c1));
    UOr(p1, p2)
  }

  lemma UXorOfCodes(x_c1: u128, y_c1: u128)
    ensures UOr(UAnd(UNeg(x_c1), y_c1), UAnd(x_c1, UNeg(y_c1))) == UEncode(None64.UXor(UDecode(x_c1), UDecode(y_c1)))
  {
    var x, y := UDecode(x_c1), UDecode(y_c1);
    Widths();
    var nx, ny := UNeg(x_c1), UNeg(y_c1);
    assert UDecode(nx) == BitNot(x, 64) && UDecode(ny) == BitNot(y, 64);
    var p1, p2 := UAnd(nx, y_c1), UAnd(x_c1, ny);
    assert UDecode(p1) == BitAnd(BitNot(x, 64), y, 64);
    assert UDecode(p2) == BitAnd(x, BitNot(y, 64), 64);
    XorByAndOr(x, y, 64);
  }
}
