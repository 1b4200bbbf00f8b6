// The 8-bit codes compared by the detection-capability analysis: residue,
// inverse residue, ones' and two's complement, and the separate AN code on
// 16 bits, each as an encoder and a checker with C's integer promotions.

module DetcapCodes {
  import opened Words

  /** `x % A`. The residue is below A, so it fits the byte. */
  function EncRes(x: u8, A: u8): u8
    requires A != 0
  {
    x % A
  }

  /** `A - (x % A)`, a value in [1, A]. */
  function EncInvRes(x: u8, A: u8): u8
    requires A != 0
  {
    A - x % A
  }

  /** `~x`, converted back to the byte. */
  function EncOnesComp(x: u8, A: u8): u8
  {
    Wrap8(-1 - x)
  }

  /** `~x + 1`, converted back to the byte: the negation modulo 2^8. */
  function EncTwosComp(x: u8, A: u8): u8
  {
    Wrap8(-1 - x + 1)
  }

  /**
   * `x * A` on 16-bit operands: both are promoted to int, and the product is
   * truncated to 16 bits (an int wrap first would not change those bits).
   */
  function EncAN(x: u16, A: u16): u16
  {
    Wrap16(x * A)
  }

  function CheckRes(x: u8, xEnc: u8, A: u8): bool
    requires A != 0
  {
    x % A == xEnc
  }

  function CheckInvRes(x: u8, xEnc: u8, A: u8): bool
    requires A != 0
  {
    A - x % A == xEnc
  }

  /**
   * `~x == x_enc`: `~x` is taken after promotion to int, so it is negative and
   * never equals a byte.
   */
  function CheckOnesComp(x: u8, xEnc: u8, A: u8): bool
  {
    -1 - x == xEnc
  }

  /** `~x + 1 == x_enc` in int: `-x` equals a byte only when both are zero. */
  function CheckTwosComp(x: u8, xEnc: u8, A: u8): bool
  {
    -1 - x + 1 == xEnc
  }

  /** `x_enc % A == 0 && x * A == x_enc`, the product taken in 32-bit int. */
  function CheckAN(x: u16, xEnc: u16, A: u16): bool
    requires A != 0
  {
    xEnc % A == 0 && SWrap32(x * A) == xEnc
  }

  // ---------------------------------------------------------------------------
  // What each encoder computes and what each checker accepts
  // ---------------------------------------------------------------------------

  /** The residue code word is below A and congruent to x; the inverse residue lies in [1, A]. */
  lemma ResidueCodes(x: u8, A: u8)
    requires A != 0
    ensures EncRes(x, A) < A && Cong(EncRes(x, A), x, A)
    ensures 1 <= EncInvRes(x, A) <= A && Cong(A - EncInvRes(x, A), x, A)
  {
    CongMod(x, A);
    CongSym(x % A, x, A);
  }

  /** The residue checkers accept an encoding of x and nothing else. */
  lemma ResidueChecksAcceptCodes(x: u8, xEnc: u8, A: u8)
    requires A != 0
    ensures CheckRes(x, xEnc, A) <==> xEnc == EncRes(x, A)
    ensures CheckInvRes(x, xEnc, A) <==> xEnc == EncInvRes(x, A)
  {
  }

  /** `~x` on a byte is 255 - x; `~x + 1` is 256 - x, and 0 for x = 0. */
  lemma ComplementCodes(x: u8, A: u8)
    ensures EncOnesComp(x, A) == 255 - x
    ensures x == 0 ==> EncTwosComp(x, A) == 0
    ensures x != 0 ==> EncTwosComp(x, A) == 256 - x
  {
  }

  /** The AN code word is x * A modulo 2^16, and x * A itself when the product fits. */
  lemma ANCode(x: u16, A: u16)
    ensures Cong(EncAN(x, A), x * A, TWO16)
    ensures x * A < TWO16 ==> EncAN(x, A) == x * A
  {
    MulSign(x, A);
  }

  /** As written, the ones' complement checker rejects every pair. */
  lemma CheckOnesCompNeverHolds(x: u8, xEnc: u8, A: u8)
    ensures !CheckOnesComp(x, xEnc, A)
  {
  }

  /** As written, the two's complement checker accepts only x = 0 with x_enc = 0. */
  lemma CheckTwosCompOnlyZero(x: u8, xEnc: u8, A: u8)
    ensures CheckTwosComp(x, xEnc, A) <==> x == 0 && xEnc == 0
  {
  }

  /** The ones' complement checker with `~x` truncated to the byte, as intended. */
  function CheckOnesCompCorrected(x: u8, xEnc: u8, A: u8): (ok: bool)
    ensures ok <==> xEnc == EncOnesComp(x, A)
  {
    Wrap8(-1 - x) == xEnc
  }

  /** The two's complement checker with `~x + 1` truncated to the byte, as intended. */
  function CheckTwosCompCorrected(x: u8, xEnc: u8, A: u8): (ok: bool)
    ensures ok <==> xEnc == EncTwosComp(x, A)
  {
    Wrap8(-1 - x + 1) == xEnc
  }

  /**
   * For A up to 255 the AN checker accepts exactly the untruncated product:
   * x * A stays far below 2^31, so the int product never wraps.
   */
  lemma CheckANExact(x: u16, xEnc: u16, A: u16)
    requires 1 <= A <= 255
    ensures CheckAN(x, xEnc, A) <==> xEnc == x * A
  {
    MulLe(x, 0xFFFF, A);
    MulLe(A, 255, 0xFFFF);
    MulSign(x, A);
    assert 0 <= x * A < TWO31;
    if xEnc == x * A {
      DivModUnique(xEnc, A, x, 0);
    }
  }

  /** Every byte's AN code word passes the check: x * A < 2^16, nothing is truncated. */
  lemma CheckANAcceptsCodes(x: u16, A: u16)
    requires x < 256 && 1 <= A <= 255
    ensures EncAN(x, A) == x * A
    ensures CheckAN(x, EncAN(x, A), A)
  {
    MulLe(x, 255, A);
    MulLe(A, 255, 255);
    CheckANExact(x, EncAN(x, A), A);
  }
}
