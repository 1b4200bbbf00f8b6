/**
 * Width-independent arithmetic of the separated residue coding (codings/residue_32.h and
 * codings/residue_64.h): the check field of a value v is CRem(v, 18), and the operations
 * rebuild it from the check fields of their operands.
 */
module ResidueCheck {
  import opened Words

  /**
   * The sign repair of add and sub: a remainder whose sign disagrees with the new value
   * is moved by 18 across zero. For any remainder of the right residue class the result
   * is the C remainder of the value.
   */
  function FixSign(c: int, v: int): (r: int)
    requires -18 < c < 18
    ensures -18 < r < 18
    ensures Cong(c, v, 18) ==> r == CRem(v, 18)
  {
    var r := if v < 0 && c > 0 then -18 + c else if v > 0 && c < 0 then 18 + c else c;
    assert Cong(c, v, 18) ==> r == CRem(v, 18) by {
      if Cong(c, v, 18) {
        MulIsCong(r, c, (r - c) / 18, 18);
        CongTrans(r, c, v, 18);
        CRemUnique(r, v, 18);
      }
    }
    r
  }

  /** Congruence modulo 18 of two naturals is equality of their remainders. */
  lemma SameRem(a: int, b: int)
    ensures Cong(a, b, 18) <==> a % 18 == b % 18
  {
    CongMod(a, 18);
    CongMod(b, 18);
    if Cong(a, b, 18) {
      CongTrans(a % 18, a, b, 18);
      CongSym(b % 18, b, 18);
      CongTrans(a % 18, b, b % 18, 18);
      CongWindow(a % 18, b % 18, 0, 18);
    } else if a % 18 == b % 18 {
      CongSym(a % 18, a, 18);
      CongTrans(a, a % 18, b, 18);
    }
  }

  /** The repair of a wrap-around to a negative value: the remainder is moved below zero. */
  lemma DownFix(t: int, v: int)
    requires Cong(t, v, 18) && v < 0
    ensures CRem(CRem(t, 18) - 18, 18) == CRem(v, 18)
  {
    var c1 := CRem(t, 18);
    CongTrans(c1, t, v, 18);
    MulIsCong(c1 - 18, c1, -1, 18);
    CongTrans(CRem(c1 - 18, 18), c1 - 18, c1, 18);
    CongTrans(CRem(c1 - 18, 18), c1, v, 18);
    CRemUnique(CRem(c1 - 18, 18), v, 18);
  }

  /** The repair of a wrap-around to a non-negative value: the remainder is moved above zero. */
  lemma UpFix(t: int, v: int)
    requires Cong(t, v, 18) && v >= 0
    ensures CRem(CRem(t, 18) + 18, 18) == CRem(v, 18)
  {
    var c1 := CRem(t, 18);
    CongTrans(c1, t, v, 18);
    MulIsCong(c1 + 18, c1, 1, 18);
    CongTrans(CRem(c1 + 18, 18), c1 + 18, c1, 18);
    CongTrans(CRem(c1 + 18, 18), c1, v, 18);
    CRemUnique(CRem(c1 + 18, 18), v, 18);
  }

  /** Two congruent values of one sign have the same C remainder. */
  lemma SameSignRem(t: int, v: int)
    requires Cong(t, v, 18) && ((t < 0 && v < 0) || (t >= 0 && v >= 0))
    ensures CRem(t, 18) == CRem(v, 18)
  {
    CongTrans(CRem(t, 18), t, v, 18);
    CRemUnique(CRem(t, 18), v, 18);
  }

  /** The product of the residues is a residue of the product, with the product's sign. */
  lemma ProductResidue(x: int, y: int)
    ensures Cong(CRem(x, 18) * CRem(y, 18), x * y, 18)
    ensures -289 <= CRem(x, 18) * CRem(y, 18) <= 289
    ensures x * y > 0 ==> CRem(x, 18) * CRem(y, 18) >= 0
    ensures x * y < 0 ==> CRem(x, 18) * CRem(y, 18) <= 0
  {
    var xc, yc := CRem(x, 18), CRem(y, 18);
    CongMul(xc, x, yc, y, 18);
    ProductBound(xc, yc, 17);
    ProductSign(x, y);
    ProductSign(xc, yc);
  }

  /**
   * The internal check of u_div: with the residue yc of the divisor, the two sides
   * checkL (from the dividend's check field and the remainder) and checkR (from the
   * quotient and the divisor's check field) agree exactly when the dividend's check
   * field, taken below 18, is the residue of the dividend.
   */
  lemma CrossCheck(x: nat, y: nat, q: nat, rm: nat, xc: nat, yc: nat)
    requires x == q * y + rm && yc == y % 18 && xc < 18
    ensures LeftCheck(rm, xc) == (q % 18 * yc) % 18 <==> xc == x % 18
  {
    RemainderSide(rm, xc);
    QuotientSide(q, y, yc);
    CrossCheckLinear(x, q * y, rm, xc, LeftCheck(rm, xc), (q % 18 * yc) % 18);
  }

  /** checkL of u_div, from the dividend's check field and the remainder. */
  function LeftCheck(rm: nat, xc: nat): int
  {
    var rem := rm % 18;
    if rem > xc then (xc - rem + 18) % 18 else (xc - rem) % 18
  }

  lemma RemainderSide(rm: nat, xc: nat)
    requires xc < 18
    ensures 0 <= LeftCheck(rm, xc) < 18 && Cong(LeftCheck(rm, xc), xc - rm, 18)
  {
    var rem := rm % 18;
    var d := if rem > xc then xc - rem + 18 else xc - rem;
    CongMod(rm, 18);
    CongMod(d, 18);
    MulIsCong(d, xc - rem, (d - (xc - rem)) / 18, 18);
    CongSub(xc, xc, rem, rm, 18);
    CongTrans(d, xc - rem, xc - rm, 18);
    CongTrans(LeftCheck(rm, xc), d, xc - rm, 18);
  }

  lemma QuotientSide(q: nat, y: nat, yc: nat)
    requires yc == y % 18
    ensures 0 <= (q % 18 * yc) % 18 < 18 && Cong((q % 18 * yc) % 18, q * y, 18)
  {
    var p := q % 18 * yc;
    assert p >= 0 by { MulLe(q % 18, 17, yc); }
    CongMod(q, 18);
    CongMod(y, 18);
    CongMul(q % 18, q, yc, y, 18);
    CongMod(p, 18);
    CongTrans(p % 18, p, q * y, 18);
  }

  /** The comparison of both sides, with the product of quotient and divisor as the plain value p. */
  lemma CrossCheckLinear(x: int, p: int, rm: int, xc: int, checkL: int, checkR: int)
    requires x == p + rm && 0 <= xc < 18
    requires 0 <= checkL < 18 && Cong(checkL, xc - rm, 18)
    requires 0 <= checkR < 18 && Cong(checkR, p, 18)
    ensures checkL == checkR <==> xc == x % 18
  {
    CongMod(x, 18);
    if checkL == checkR {
      CongSym(checkL, xc - rm, 18);
      CongTrans(xc - rm, checkL, p, 18);
      CongAdd(xc - rm, p, rm, rm, 18);
      CongSym(x % 18, x, 18);
      CongTrans(xc, x, x % 18, 18);
      CongWindow(xc, x % 18, 0, 18);
    }
    if xc == x % 18 {
      CongSub(xc, x, rm, rm, 18);
      CongTrans(checkL, xc - rm, p, 18);
      CongSame(checkL, checkR, p, 0, 18);
    }
  }
}
