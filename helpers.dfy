// Fault-model primitives: Hamming distance, single-bit flips, stuck-at faults,
// and the printable name of each operation.

module Helpers {
  import opened Words

  // ---------------------------------------------------------------------------
  // Hamming distance
  // ---------------------------------------------------------------------------

  /** The number of bit positions below n in which a and b differ. */
  function Distance(a: nat, b: nat, n: nat): nat
  {
    Popcount(BitXor(a, b, n))
  }

  /**
   * The counting loop shared by the four `calcHammingDistance` variants: shift
   * `diffs = a ^ b` right one bit at a time and add its lowest bit (`diffs & 1`).
   * The counter never exceeds the width, so its 8- or 16-bit type never wraps.
   */
  method CountDifferences(a: nat, b: nat, n: nat) returns (bitCount: nat)
    requires a < Pow2(n) && b < Pow2(n)
    ensures bitCount == Distance(a, b, n)
    ensures bitCount <= n
    ensures bitCount == 0 <==> a == b
  {
    var diffs := BitXor(a, b, n);
    PopcountBound(diffs, n);
    bitCount := 0;
    while diffs > 0
      invariant bitCount + Popcount(diffs) == Distance(a, b, n)
      invariant bitCount <= n
      decreases diffs
    {
      bitCount := bitCount + diffs % 2;
      diffs := diffs / 2;
    }
    XorZero(a, b, n);
    PopcountZero(BitXor(a, b, n));
  }

  method HammingDistance8(a: u8, b: u8) returns (d: nat)
    ensures d == Distance(a, b, 8) && d <= 8
    ensures d == 0 <==> a == b
  {
    Widths8();
    d := CountDifferences(a, b, 8);
  }

  method HammingDistance16(a: u16, b: u16) returns (d: nat)
    ensures d == Distance(a, b, 16) && d <= 16
    ensures d == 0 <==> a == b
  {
    Widths8();
    d := CountDifferences(a, b, 16);
  }

  method HammingDistance32(a: u32, b: u32) returns (d: nat)
    ensures d == Distance(a, b, 32) && d <= 32
    ensures d == 0 <==> a == b
  {
    Widths32();
    d := CountDifferences(a, b, 32);
  }

  method HammingDistance64(a: u64, b: u64) returns (d: nat)
    ensures d == Distance(a, b, 64) && d <= 64
    ensures d == 0 <==> a == b
  {
    Widths64();
    d := CountDifferences(a, b, 64);
  }

  /** The distance does not depend on the order of its arguments. */
  lemma DistanceSymmetric(a: nat, b: nat, n: nat)
    ensures Distance(a, b, n) == Distance(b, a, n)
  {
    XorComm(a, b, n);
  }

  // ---------------------------------------------------------------------------
  // Single-bit flips
  // ---------------------------------------------------------------------------

  /**
   * `val ^ (1 << position)` where the shift is on a 32-bit int: for position 31
   * it wraps to INT32_MIN, which converts back to the unsigned bit 2^31.
   * Shifting by 32 or more is undefined.
   */
  function FlipBit32(val: u32, position: nat): (r: u32)
    requires position < 32
    ensures forall i :: 0 <= i < 32 ==> Bit(r, i) == (Bit(val, i) != (i == position))
  {
    Widths32();
    Pow2Below(position, 32);
    var mask := Wrap32(SWrap32(Pow2(position)));
    assert mask == Pow2(position);
    FlipBits(val, position, 32);
    BitXor(val, mask, 32)
  }

  /** `val ^ (1ul << position)`; shifting by 64 or more is undefined. */
  function FlipBit64(val: u64, position: nat): (r: u64)
    requires position < 64
    ensures forall i :: 0 <= i < 64 ==> Bit(r, i) == (Bit(val, i) != (i == position))
  {
    Widths64();
    Pow2Below(position, 64);
    FlipBits(val, position, 64);
    BitXor(val, Pow2(position), 64)
  }

  lemma Pow2Below(p: nat, n: nat)
    requires p < n
    ensures Pow2(p) < Pow2(n)
  {
    Pow2Mono(p + 1, n);
  }

  lemma FlipBits(val: nat, p: nat, n: nat)
    ensures forall i :: 0 <= i < n ==> Bit(BitXor(val, Pow2(p), n), i) == (Bit(val, i) != (i == p))
  {
    forall i | 0 <= i < n
      ensures Bit(BitXor(val, Pow2(p), n), i) == (Bit(val, i) != (i == p))
    {
      BitOfXor(val, Pow2(p), n, i);
      BitOfPow2(p, i);
    }
  }

  /** `a ^ (a ^ m) == m`: what a flip changes is exactly its mask. */
  lemma XorDifference(a: nat, m: nat, n: nat)
    requires m < Pow2(n)
    ensures BitXor(a, BitXor(a, m, n), n) == m
  {
    XorComm(a, BitXor(a, m, n), n);
    XorComm(a, m, n);
    XorCancel(m, a, n);
  }

  /** Flipping the same bit twice restores the value. */
  lemma FlipBit32Twice(val: u32, position: nat)
    requires position < 32
    ensures FlipBit32(FlipBit32(val, position), position) == val
  {
    Widths32();
    Pow2Below(position, 32);
    XorCancel(val, Pow2(position), 32);
  }

  lemma FlipBit64Twice(val: u64, position: nat)
    requires position < 64
    ensures FlipBit64(FlipBit64(val, position), position) == val
  {
    Widths64();
    XorCancel(val, Pow2(position), 64);
  }

  /** A flipped value is at Hamming distance exactly 1 from the original. */
  lemma FlipBit32Distance(val: u32, position: nat)
    requires position < 32
    ensures Distance(val, FlipBit32(val, position), 32) == 1
  {
    Widths32();
    Pow2Below(position, 32);
    XorDifference(val, Pow2(position), 32);
    PopcountPow2(position);
  }

  lemma FlipBit64Distance(val: u64, position: nat)
    requires position < 64
    ensures Distance(val, FlipBit64(val, position), 64) == 1
  {
    Widths64();
    Pow2Below(position, 64);
    XorDifference(val, Pow2(position), 64);
    PopcountPow2(position);
  }

  // ---------------------------------------------------------------------------
  // Stuck-at faults
  // ---------------------------------------------------------------------------

  /**
   * The stuck-at fault on an n-bit word. The mask `1 << position` is converted to
   * the word type first, so a position at or above the width gives the mask 0 and
   * leaves the value unchanged. Stuck 0 clears the bit (`val & ~mask`), stuck 1 sets
   * it (`val | mask`), and any other stuck value leaves val as it is.
   */
  function StuckAt(val: nat, position: nat, stuck: nat, n: nat): (r: nat)
    requires val < Pow2(n)
    ensures r < Pow2(n)
    ensures stuck == 0 ==> forall i :: 0 <= i < n ==> Bit(r, i) == (Bit(val, i) && i != position)
    ensures stuck == 1 ==> forall i :: 0 <= i < n ==> Bit(r, i) == (Bit(val, i) || i == position)
    ensures stuck > 1 ==> r == val
  {
    var mask := WrapM(Pow2(position), Pow2(n));
    MaskBits(position, n);
    if stuck == 0 then
      ClearBits(val, mask, position, n);
      BitAnd(val, BitNot(mask, n), n)
    else if stuck == 1 then
      SetBits(val, mask, position, n);
      BitOr(val, mask, n)
    else
      val
  }

  /** The truncated mask has set bit `position` if that is below the width, and no other. */
  lemma MaskBits(p: nat, n: nat)
    ensures forall i :: 0 <= i < n ==> Bit(WrapM(Pow2(p), Pow2(n)), i) == (i == p)
  {
    var mask := WrapM(Pow2(p), Pow2(n));
    if p < n {
      Pow2Below(p, n);
      assert mask == Pow2(p);
    } else {
      MaskVanishes(p, n);
    }
    forall i | 0 <= i < n
      ensures Bit(mask, i) == (i == p)
    {
      if p < n {
        BitOfPow2(p, i);
      } else {
        BitOfZero(i);
      }
    }
  }

  /** Pow2(p) is a multiple of Pow2(n) once p >= n. */
  lemma MaskVanishes(p: nat, n: nat)
    requires n <= p
    ensures WrapM(Pow2(p), Pow2(n)) == 0
  {
    Pow2Add(p - n, n);
    MultipleWraps(Pow2(p), Pow2(p - n), Pow2(n));
  }

  lemma MultipleWraps(x: int, k: int, m: int)
    requires m > 0 && x == k * m
    ensures WrapM(x, m) == 0
  {
    MulIsCong(0, x, -k, m);
    WrapMUnique(0, x, m);
  }

  lemma ClearBits(val: nat, mask: nat, p: nat, n: nat)
    requires mask < Pow2(n)
    requires forall i :: 0 <= i < n ==> Bit(mask, i) == (i == p)
    ensures forall i :: 0 <= i < n ==> Bit(BitAnd(val, BitNot(mask, n), n), i) == (Bit(val, i) && i != p)
  {
    forall i | 0 <= i < n
      ensures Bit(BitAnd(val, BitNot(mask, n), n), i) == (Bit(val, i) && i != p)
    {
      BitOfAnd(val, BitNot(mask, n), n, i);
      BitOfNot(mask, n, i);
    }
  }

  lemma SetBits(val: nat, mask: nat, p: nat, n: nat)
    requires forall i :: 0 <= i < n ==> Bit(mask, i) == (i == p)
    ensures forall i :: 0 <= i < n ==> Bit(BitOr(val, mask, n), i) == (Bit(val, i) || i == p)
  {
    forall i | 0 <= i < n
      ensures Bit(BitOr(val, mask, n), i) == (Bit(val, i) || i == p)
    {
      BitOfOr(val, mask, n, i);
    }
  }

  /** `uint8_t mask = (1U << position)`: the shift is on a 32-bit unsigned int. */
  function StuckAtBit8(val: u8, position: nat, stuck: nat): (r: u8)
    requires position < 32
    ensures stuck == 0 ==> forall i :: 0 <= i < 8 ==> Bit(r, i) == (Bit(val, i) && i != position)
    ensures stuck == 1 ==> forall i :: 0 <= i < 8 ==> Bit(r, i) == (Bit(val, i) || i == position)
    ensures stuck > 1 ==> r == val
  {
    Widths8();
    StuckAt(val, position, stuck, 8)
  }

  function StuckAtBit16(val: u16, position: nat, stuck: nat): (r: u16)
    requires position < 32
    ensures stuck == 0 ==> forall i :: 0 <= i < 16 ==> Bit(r, i) == (Bit(val, i) && i != position)
    ensures stuck == 1 ==> forall i :: 0 <= i < 16 ==> Bit(r, i) == (Bit(val, i) || i == position)
    ensures stuck > 1 ==> r == val
  {
    Widths8();
    StuckAt(val, position, stuck, 16)
  }

  function StuckAtBit32(val: u32, position: nat, stuck: nat): (r: u32)
    requires position < 32
    ensures stuck == 0 ==> forall i :: 0 <= i < 32 ==> Bit(r, i) == (Bit(val, i) && i != position)
    ensures stuck == 1 ==> forall i :: 0 <= i < 32 ==> Bit(r, i) == (Bit(val, i) || i == position)
    ensures stuck > 1 ==> r == val
  {
    Widths32();
    StuckAt(val, position, stuck, 32)
  }

  /** `uint64_t mask = (1ul << position)`: the shift is on a 64-bit unsigned long. */
  function StuckAtBit64(val: u64, position: nat, stuck: nat): (r: u64)
    requires position < 64
    ensures stuck == 0 ==> forall i :: 0 <= i < 64 ==> Bit(r, i) == (Bit(val, i) && i != position)
    ensures stuck == 1 ==> forall i :: 0 <= i < 64 ==> Bit(r, i) == (Bit(val, i) || i == position)
    ensures stuck > 1 ==> r == val
  {
    Widths64();
    StuckAt(val, position, stuck, 64)
  }

  /** Applying the same stuck-at fault twice is the same as applying it once. */
  lemma StuckAtIdempotent(val: nat, position: nat, stuck: nat, n: nat)
    requires val < Pow2(n)
    ensures StuckAt(StuckAt(val, position, stuck, n), position, stuck, n) == StuckAt(val, position, stuck, n)
  {
    var once := StuckAt(val, position, stuck, n);
    var twice := StuckAt(once, position, stuck, n);
    if stuck <= 1 {
      BitsEqual(twice, once, n);
    }
  }

  /** A position at or above the width is only warned about: the value is unchanged. */
  lemma StuckAtOutOfRange(val: nat, position: nat, stuck: nat, n: nat)
    requires val < Pow2(n) && n <= position
    ensures StuckAt(val, position, stuck, n) == val
  {
    var r := StuckAt(val, position, stuck, n);
    if stuck <= 1 {
      BitsEqual(r, val, n);
    }
  }

  // ---------------------------------------------------------------------------
  // Operation names
  // ---------------------------------------------------------------------------

  datatype Operation =
    | ADD | SUB | MUL | DIV | MOD | EQ | NEQ | LEQ | GEQ | LESS
    | GRT | SHL | SHR | BAND | BOR | BXOR | BNEG | LAND | LOR

  /** The value of each enumerator, in declaration order. */
  function Ordinal(op: Operation): (k: nat)
    ensures k < 19
  {
    match op
    case ADD => 0 case SUB => 1 case MUL => 2 case DIV => 3 case MOD => 4
    case EQ => 5 case NEQ => 6 case LEQ => 7 case GEQ => 8 case LESS => 9
    case GRT => 10 case SHL => 11 case SHR => 12 case BAND => 13 case BOR => 14
    case BXOR => 15 case BNEG => 16 case LAND => 17 case LOR => 18
  }

  /**
   * The name stored in a `char name[5]`: every name leaves room for the
   * terminating NUL. A value outside the enumeration gives "ERR".
   */
  function OperationString(op: int): (name: string)
    ensures 0 < |name| <= 4
    ensures (op < 0 || 19 <= op) <==> name == "ERR"
  {
    match op
    case 0 => "add" case 1 => "sub" case 2 => "mul" case 3 => "div" case 4 => "mod"
    case 5 => "eq" case 6 => "neq" case 7 => "leq" case 8 => "qeq" case 9 => "less"
    case 10 => "grt" case 11 => "shl" case 12 => "shr" case 13 => "and" case 14 => "or"
    case 15 => "xor" case 16 => "neg" case 17 => "land" case 18 => "lor"
    case _ => "ERR"
  }

  /** Different operations get different names, so a name identifies its operation. */
  lemma NamesIdentifyOperations(a: Operation, b: Operation)
    ensures OperationString(Ordinal(a)) == OperationString(Ordinal(b)) <==> a == b
  {
  }

  /** GEQ is printed as "qeq". */
  lemma GeqName()
    ensures OperationString(Ordinal(GEQ)) == "qeq"
  {
  }
}
