// The detection-capability analysis: code distances and Hamming-distance
// histograms over all byte values, and the counts of masked faults and silent
// data corruptions (SDCs) under permanent stuck-at faults and transient bit flips.

module Detcap {
  import opened Words
  import opened DetcapCodes
  import Helpers

  const INT32_MAX: nat := 0x7FFF_FFFF

  /** The encoder/checker pairs that the analysis receives as function pointers. */
  datatype Code8 = Residue | InverseResidue | OnesComplement | TwosComplement

  /** A byte code from the table above, or the separate AN code on 16 bits. */
  datatype Scheme = Byte(code: Code8) | SeparateAN

  /** What one injected fault leads to. */
  datatype Outcome = Masked | Detected | Sdc

  function Width(s: Scheme): nat
  {
    if s.Byte? then 8 else 16
  }

  /** The number of values of the word the scheme works on. */
  function Range(s: Scheme): (r: nat)
    ensures r == Pow2(Width(s))
  {
    Widths8();
    if s.Byte? then 256 else 0x1_0000
  }

  predicate ValidA(A: int)
  {
    1 <= A <= 255
  }

  /** The last A the loops process: only A = 1 when the code takes no constant. */
  function LastA(noA: bool): nat
  {
    if noA then 1 else 255
  }

  function Encode(s: Scheme, x: nat, A: nat): (r: nat)
    requires ValidA(A) && x < Range(s)
    ensures r < Range(s)
  {
    match s
    case Byte(code) =>
      (match code
       case Residue => EncRes(x, A)
       case InverseResidue => EncInvRes(x, A)
       case OnesComplement => EncOnesComp(x, A)
       case TwosComplement => EncTwosComp(x, A))
    case SeparateAN => EncAN(x, A)
  }

  function Check(s: Scheme, x: nat, xEnc: nat, A: nat): bool
    requires ValidA(A) && x < Range(s) && xEnc < Range(s)
  {
    match s
    case Byte(code) =>
      (match code
       case Residue => CheckRes(x, xEnc, A)
       case InverseResidue => CheckInvRes(x, xEnc, A)
       case OnesComplement => CheckOnesComp(x, xEnc, A)
       case TwosComplement => CheckTwosComp(x, xEnc, A))
    case SeparateAN => CheckAN(x, xEnc, A)
  }

  /**
   * A faulty pair is masked when it equals the fault-free one; otherwise it is a
   * silent data corruption when the checker still accepts it.
   */
  function Classify(s: Scheme, A: nat, faultyX: nat, faultyEnc: nat, x: nat, xEnc: nat): Outcome
    requires ValidA(A) && faultyX < Range(s) && faultyEnc < Range(s)
  {
    if faultyX == x && faultyEnc == xEnc then Masked
    else if Check(s, faultyX, faultyEnc, A) then Sdc
    else Detected
  }

  // ---------------------------------------------------------------------------
  // Permanent faults: stuck-at masks
  // ---------------------------------------------------------------------------

  /** `(v & ~mask0) | mask1`: the bits of mask0 stuck at 0, those of mask1 at 1. */
  function Stuck(v: nat, mask0: nat, mask1: nat, n: nat): (r: nat)
    requires mask0 < Pow2(n)
    ensures r < Pow2(n)
  {
    BitOr(BitAnd(v, BitNot(mask0, n), n), mask1, n)
  }

  /** `mask0 = j ^ (j & k)`: the bits of j that are not in k. */
  function Mask0(j: nat, k: nat, n: nat): (r: nat)
    ensures r < Pow2(n)
  {
    BitXor(j, BitAnd(j, k, n), n)
  }

  /** `mask1 = j & k`. */
  function Mask1(j: nat, k: nat, n: nat): (r: nat)
    ensures r < Pow2(n)
  {
    BitAnd(j, k, n)
  }

  /** The trial (x, j, k): the same stuck-at pattern hits the value and its encoding. */
  function StuckTrial(s: Scheme, A: nat, x: nat, j: nat, k: nat): Outcome
    requires ValidA(A) && x < Range(s)
  {
    var n := Width(s);
    var xEnc := Encode(s, x, A);
    var mask0, mask1 := Mask0(j, k, n), Mask1(j, k, n);
    Classify(s, A, Stuck(x, mask0, mask1, n), Stuck(xEnc, mask0, mask1, n), x, xEnc)
  }

  /**
   * The stuck-at trials with outcome o that the loops for one constant A run
   * before they reach the value x: every pattern (j, k) of each smaller value.
   * The three functions below follow the three nested loops.
   */
  function StuckBefore(s: Scheme, A: nat, x: nat, o: Outcome): nat
    requires ValidA(A) && x <= 256
    decreases s, A, x, 0, 0, 0
  {
    if x == 0 then 0 else StuckBeforeMask(s, A, x - 1, Range(s), o)
  }

  /** The trials with outcome o run before the pattern (j, 0) of the value x. */
  function StuckBeforeMask(s: Scheme, A: nat, x: nat, j: nat, o: Outcome): nat
    requires ValidA(A) && x < 256 && j <= Range(s)
    decreases s, A, x, 1, j, 0
  {
    if j == 0 then StuckBefore(s, A, x, o) else StuckBeforePair(s, A, x, j - 1, Range(s), o)
  }

  /** The trials with outcome o run before the pattern (j, k) of the value x. */
  function StuckBeforePair(s: Scheme, A: nat, x: nat, j: nat, k: nat, o: Outcome): nat
    requires ValidA(A) && x < 256 && j < Range(s) && k <= Range(s)
    decreases s, A, x, 1, j, k + 1
  {
    if k == 0 then StuckBeforeMask(s, A, x, j, o)
    else StuckBeforePair(s, A, x, j, k - 1, o) + B2I(StuckTrial(s, A, x, j, k - 1) == o)
  }

  /** All the stuck-at trials for the constant A that have outcome o. */
  function CountStuck(s: Scheme, A: nat, o: Outcome): nat
    requires ValidA(A)
  {
    StuckBefore(s, A, 256, o)
  }

  /**
   * The body run for one constant A, shared by `sdc_perm_8bit` and `perm_an_loop`:
   * every x below 256 against every pair of masks (j, k) of the word, counting
   * masked trials and SDCs into `masked[A]` and `sdcs[A]`.
   */
  method StuckAtTrials(s: Scheme, A: nat, sdcs: array<nat>, masked: array<nat>)
    requires ValidA(A) && sdcs.Length == 256 && masked.Length == 256 && sdcs != masked
    modifies sdcs, masked
    ensures masked[A] == old(masked[A]) + CountStuck(s, A, Masked)
    ensures sdcs[A] == old(sdcs[A]) + CountStuck(s, A, Sdc)
    ensures forall a :: 0 <= a < 256 && a != A ==> masked[a] == old(masked[a]) && sdcs[a] == old(sdcs[a])
  {
    var i := 0;
    while i < 256
      invariant 0 <= i <= 256
      invariant masked[A] == old(masked[A]) + StuckBefore(s, A, i, Masked)
      invariant sdcs[A] == old(sdcs[A]) + StuckBefore(s, A, i, Sdc)
      invariant forall a :: 0 <= a < 256 && a != A ==> masked[a] == old(masked[a]) && sdcs[a] == old(sdcs[a])
    {
      var x := i;
      var xEnc := Encode(s, x, A);
      StuckAtTrialsOf(s, A, x, xEnc, sdcs, masked);
      i := i + 1;
    }
  }

  /** The `j` loop for one x: every mask j of the word. */
  method StuckAtTrialsOf(s: Scheme, A: nat, x: nat, xEnc: nat, sdcs: array<nat>, masked: array<nat>)
    requires ValidA(A) && x < 256 && xEnc == Encode(s, x, A)
    requires sdcs.Length == 256 && masked.Length == 256 && sdcs != masked
    modifies sdcs, masked
    ensures masked[A] + StuckBefore(s, A, x, Masked) == old(masked[A]) + StuckBefore(s, A, x + 1, Masked)
    ensures sdcs[A] + StuckBefore(s, A, x, Sdc) == old(sdcs[A]) + StuckBefore(s, A, x + 1, Sdc)
    ensures forall a :: 0 <= a < 256 && a != A ==> masked[a] == old(masked[a]) && sdcs[a] == old(sdcs[a])
  {
    var j := 0;
    while j < Range(s)
      invariant 0 <= j <= Range(s)
      invariant masked[A] + StuckBefore(s, A, x, Masked) == old(masked[A]) + StuckBeforeMask(s, A, x, j, Masked)
      invariant sdcs[A] + StuckBefore(s, A, x, Sdc) == old(sdcs[A]) + StuckBeforeMask(s, A, x, j, Sdc)
      invariant forall a :: 0 <= a < 256 && a != A ==> masked[a] == old(masked[a]) && sdcs[a] == old(sdcs[a])
    {
      MaskPairTrials(s, A, x, xEnc, j, sdcs, masked);
      j := j + 1;
    }
  }

  /** Counts one trial of A: a masked fault, or an undetected one. */
  method Record(A: nat, isMasked: bool, check: bool, sdcs: array<nat>, masked: array<nat>)
    requires A < 256 && sdcs.Length == 256 && masked.Length == 256 && sdcs != masked
    modifies sdcs, masked
    ensures masked[A] == old(masked[A]) + B2I(isMasked)
    ensures sdcs[A] == old(sdcs[A]) + B2I(!isMasked && check)
    ensures forall a :: 0 <= a < 256 && a != A ==> masked[a] == old(masked[a]) && sdcs[a] == old(sdcs[a])
  {
    if isMasked {
      masked[A] := masked[A] + 1;
    }
    if !isMasked && check {
      sdcs[A] := sdcs[A] + 1;
    }
  }

  /** One step of the `k` loop: mask0 = j & ~k is stuck at 0, mask1 = j & k at 1. */
  method StuckTrialAt(s: Scheme, A: nat, x: nat, xEnc: nat, j: nat, k: nat, sdcs: array<nat>, masked: array<nat>)
    requires ValidA(A) && x < 256 && xEnc == Encode(s, x, A) && j < Range(s) && k < Range(s)
    requires sdcs.Length == 256 && masked.Length == 256 && sdcs != masked
    modifies sdcs, masked
    ensures masked[A] == old(masked[A]) + B2I(StuckTrial(s, A, x, j, k) == Masked)
    ensures sdcs[A] == old(sdcs[A]) + B2I(StuckTrial(s, A, x, j, k) == Sdc)
    ensures forall a :: 0 <= a < 256 && a != A ==> masked[a] == old(masked[a]) && sdcs[a] == old(sdcs[a])
  {
    var n := Width(s);
    var mask0 := BitXor(j, BitAnd(j, k, n), n);
    var mask1 := BitAnd(j, k, n);
    var stuckX := BitAnd(x, BitNot(mask0, n), n);
    stuckX := BitOr(stuckX, mask1, n);
    var stuckXEnc := BitAnd(xEnc, BitNot(mask0, n), n);
    stuckXEnc := BitOr(stuckXEnc, mask1, n);
    var isMasked := stuckX == x && stuckXEnc == xEnc;
    var checkStuck := Check(s, stuckX, stuckXEnc, A);
    assert StuckTrial(s, A, x, j, k) == if isMasked then Masked else if checkStuck then Sdc else Detected;
    Record(A, isMasked, checkStuck, sdcs, masked);
  }

  /** The `k` loop for one x and j. */
  method MaskPairTrials(s: Scheme, A: nat, x: nat, xEnc: nat, j: nat, sdcs: array<nat>, masked: array<nat>)
    requires ValidA(A) && x < 256 && xEnc == Encode(s, x, A) && j < Range(s)
    requires sdcs.Length == 256 && masked.Length == 256 && sdcs != masked
    modifies sdcs, masked
    ensures masked[A] + StuckBeforeMask(s, A, x, j, Masked) == old(masked[A]) + StuckBeforeMask(s, A, x, j + 1, Masked)
    ensures sdcs[A] + StuckBeforeMask(s, A, x, j, Sdc) == old(sdcs[A]) + StuckBeforeMask(s, A, x, j + 1, Sdc)
    ensures forall a :: 0 <= a < 256 && a != A ==> masked[a] == old(masked[a]) && sdcs[a] == old(sdcs[a])
  {
    var k := 0;
    while k < Range(s)
      invariant 0 <= k <= Range(s)
      invariant masked[A] + StuckBeforeMask(s, A, x, j, Masked) == old(masked[A]) + StuckBeforePair(s, A, x, j, k, Masked)
      invariant sdcs[A] + StuckBeforeMask(s, A, x, j, Sdc) == old(sdcs[A]) + StuckBeforePair(s, A, x, j, k, Sdc)
      invariant forall a :: 0 <= a < 256 && a != A ==> masked[a] == old(masked[a]) && sdcs[a] == old(sdcs[a])
    {
      StuckTrialAt(s, A, x, xEnc, j, k, sdcs, masked);
      k := k + 1;
    }
  }

  /**
   * The per-A body of `sdc_perm_8bit`, and all of `perm_an_loop` for one thread's
   * constant A: reset the counters of A, then run the trials. The progress
   * counters of `perm_an_loop` are not modelled.
   */
  method PermLoop(s: Scheme, A: nat, sdcs: array<nat>, masked: array<nat>)
    requires ValidA(A) && sdcs.Length == 256 && masked.Length == 256 && sdcs != masked
    modifies sdcs, masked
    ensures masked[A] == CountStuck(s, A, Masked)
    ensures sdcs[A] == CountStuck(s, A, Sdc)
    ensures forall a :: 0 <= a < 256 && a != A ==> masked[a] == old(masked[a]) && sdcs[a] == old(sdcs[a])
  {
    sdcs[A] := 0;
    masked[A] := 0;
    StuckAtTrials(s, A, sdcs, masked);
  }


  /**
   * `sdc_perm_8bit`: the stuck-at trials for every constant A (only A = 1 when
   * noA is set), then the first A with the fewest SDCs. When noA is set the
   * counters of A = 2 are reset before the loop stops; the other entries keep
   * whatever the allocation left in them.
   */
  method SdcPerm8(code: Code8, noA: bool) returns (sdcs: array<nat>, masked: array<nat>, min: nat, minA: nat)
    ensures fresh(sdcs) && fresh(masked) && sdcs.Length == 256 && masked.Length == 256
    ensures forall A :: 1 <= A <= LastA(noA) ==>
      masked[A] == CountStuck(Byte(code), A, Masked) && sdcs[A] == CountStuck(Byte(code), A, Sdc)
    ensures IsFirstMinimum(sdcs[..], LastA(noA), min, minA)
  {
    sdcs := new nat[256];
    masked := new nat[256];
    var A := 1;
    while A <= 255
      invariant 1 <= A <= 256 && (noA ==> A <= 2)
      invariant forall a :: 1 <= a < A ==>
        masked[a] == CountStuck(Byte(code), a, Masked) && sdcs[a] == CountStuck(Byte(code), a, Sdc)
    {
      if noA && A > 1 {
        sdcs[A] := 0;
        masked[A] := 0;
        break;
      }
      PermLoop(Byte(code), A, sdcs, masked);
      A := A + 1;
    }
    min, minA := FirstMinimum(sdcs[..], LastA(noA));
  }

  /**
   * `sdc_perm_an_8bit`: one `perm_an_loop` per constant A on the global counters,
   * then the first A with the fewest SDCs. The threads write disjoint entries, so
   * they are run one after the other here.
   */
  method SdcPermAN(sdcs: array<nat>, masked: array<nat>) returns (min: nat, minA: nat)
    requires sdcs.Length == 256 && masked.Length == 256 && sdcs != masked
    modifies sdcs, masked
    ensures forall A :: 1 <= A <= 255 ==>
      masked[A] == CountStuck(SeparateAN, A, Masked) && sdcs[A] == CountStuck(SeparateAN, A, Sdc)
    ensures masked[0] == old(masked[0]) && sdcs[0] == old(sdcs[0])
    ensures IsFirstMinimum(sdcs[..], 255, min, minA)
  {
    var A := 1;
    while A <= 255
      invariant 1 <= A <= 256
      invariant forall a :: 1 <= a < A ==>
        masked[a] == CountStuck(SeparateAN, a, Masked) && sdcs[a] == CountStuck(SeparateAN, a, Sdc)
      invariant masked[0] == old(masked[0]) && sdcs[0] == old(sdcs[0])
    {
      PermLoop(SeparateAN, A, sdcs, masked);
      A := A + 1;
    }
    min, minA := FirstMinimum(sdcs[..], 255);
  }

  // ---------------------------------------------------------------------------
  // Transient faults: one flip mask on the value or on its encoding
  // ---------------------------------------------------------------------------

  /** The flip masks tried: every byte for the byte codes, j < UINT16_MAX for AN. */
  function TransRange(s: Scheme): (r: nat)
    ensures r <= Range(s)
  {
    if s.Byte? then 256 else 0xFFFF
  }

  /** `x ^ j` checked against the fault-free encoding. */
  function FlipValue(s: Scheme, A: nat, x: nat, j: nat): Outcome
    requires ValidA(A) && x < Range(s)
  {
    var xEnc := Encode(s, x, A);
    Classify(s, A, BitXor(x, j, Width(s)), xEnc, x, xEnc)
  }

  /** `x_enc ^ j` checked against the fault-free value. */
  function FlipEncoding(s: Scheme, A: nat, x: nat, j: nat): Outcome
    requires ValidA(A) && x < Range(s)
  {
    var xEnc := Encode(s, x, A);
    Classify(s, A, x, BitXor(xEnc, j, Width(s)), x, xEnc)
  }

  /** The flip trials with outcome o that the loops for one constant A run before the value x. */
  function FlipsBefore(s: Scheme, A: nat, x: nat, o: Outcome): nat
    requires ValidA(A) && x <= 256
    decreases s, A, x, 0, 0
  {
    if x == 0 then 0 else FlipsBeforeMask(s, A, x - 1, TransRange(s), o)
  }

  /** The flip trials with outcome o run before the mask j of the value x. */
  function FlipsBeforeMask(s: Scheme, A: nat, x: nat, j: nat, o: Outcome): nat
    requires ValidA(A) && x < 256 && j <= TransRange(s)
    decreases s, A, x, 1, j
  {
    if j == 0 then FlipsBefore(s, A, x, o)
    else FlipsBeforeMask(s, A, x, j - 1, o) + B2I(FlipValue(s, A, x, j - 1) == o) + B2I(FlipEncoding(s, A, x, j - 1) == o)
  }

  /** All the flip trials for the constant A that have outcome o. */
  function CountFlips(s: Scheme, A: nat, o: Outcome): nat
    requires ValidA(A)
  {
    FlipsBefore(s, A, 256, o)
  }

  /** The body of `sdc_trans_8bit` and `sdc_trans_an_8bit` for one constant A. */
  method FlipTrials(s: Scheme, A: nat, sdcs: array<nat>, masked: array<nat>)
    requires ValidA(A) && sdcs.Length == 256 && masked.Length == 256 && sdcs != masked
    modifies sdcs, masked
    ensures masked[A] == old(masked[A]) + CountFlips(s, A, Masked)
    ensures sdcs[A] == old(sdcs[A]) + CountFlips(s, A, Sdc)
    ensures forall a :: 0 <= a < 256 && a != A ==> masked[a] == old(masked[a]) && sdcs[a] == old(sdcs[a])
  {
    var i := 0;
    while i < 256
      invariant 0 <= i <= 256
      invariant masked[A] == old(masked[A]) + FlipsBefore(s, A, i, Masked)
      invariant sdcs[A] == old(sdcs[A]) + FlipsBefore(s, A, i, Sdc)
      invariant forall a :: 0 <= a < 256 && a != A ==> masked[a] == old(masked[a]) && sdcs[a] == old(sdcs[a])
    {
      var x := i;
      var xEnc := Encode(s, x, A);
      FlipTrialsOf(s, A, x, xEnc, sdcs, masked);
      i := i + 1;
    }
  }

  /** The `j` loop for one x: flip j on the value, then on the encoding. */
  /** One step of the `j` loop: the value x ^ j with the code word, then x with the code word ^ j. */
  method FlipTrial(s: Scheme, A: nat, x: nat, xEnc: nat, j: nat, sdcs: array<nat>, masked: array<nat>)
    requires ValidA(A) && x < 256 && xEnc == Encode(s, x, A) && j < TransRange(s)
    requires sdcs.Length == 256 && masked.Length == 256 && sdcs != masked
    modifies sdcs, masked
    ensures masked[A] == old(masked[A]) + B2I(FlipValue(s, A, x, j) == Masked) + B2I(FlipEncoding(s, A, x, j) == Masked)
    ensures sdcs[A] == old(sdcs[A]) + B2I(FlipValue(s, A, x, j) == Sdc) + B2I(FlipEncoding(s, A, x, j) == Sdc)
    ensures forall a :: 0 <= a < 256 && a != A ==> masked[a] == old(masked[a]) && sdcs[a] == old(sdcs[a])
  {
    var n := Width(s);
    var transX := BitXor(x, j, n);
    var isMaskedTransX := transX == x;
    var checkTransX := Check(s, transX, xEnc, A);
    assert FlipValue(s, A, x, j) == if isMaskedTransX then Masked else if checkTransX then Sdc else Detected;
    Record(A, isMaskedTransX, checkTransX, sdcs, masked);
    var transXEnc := BitXor(xEnc, j, n);
    var isMaskedTransXEnc := transXEnc == xEnc;
    var checkTransXEnc := Check(s, x, transXEnc, A);
    assert FlipEncoding(s, A, x, j) == if isMaskedTransXEnc then Masked else if checkTransXEnc then Sdc else Detected;
    Record(A, isMaskedTransXEnc, checkTransXEnc, sdcs, masked);
  }

  method FlipTrialsOf(s: Scheme, A: nat, x: nat, xEnc: nat, sdcs: array<nat>, masked: array<nat>)
    requires ValidA(A) && x < 256 && xEnc == Encode(s, x, A)
    requires sdcs.Length == 256 && masked.Length == 256 && sdcs != masked
    modifies sdcs, masked
    ensures masked[A] + FlipsBefore(s, A, x, Masked) == old(masked[A]) + FlipsBefore(s, A, x + 1, Masked)
    ensures sdcs[A] + FlipsBefore(s, A, x, Sdc) == old(sdcs[A]) + FlipsBefore(s, A, x + 1, Sdc)
    ensures forall a :: 0 <= a < 256 && a != A ==> masked[a] == old(masked[a]) && sdcs[a] == old(sdcs[a])
  {
    var j := 0;
    while j < TransRange(s)
      invariant 0 <= j <= TransRange(s)
      invariant masked[A] + FlipsBefore(s, A, x, Masked) == old(masked[A]) + FlipsBeforeMask(s, A, x, j, Masked)
      invariant sdcs[A] + FlipsBefore(s, A, x, Sdc) == old(sdcs[A]) + FlipsBeforeMask(s, A, x, j, Sdc)
      invariant forall a :: 0 <= a < 256 && a != A ==> masked[a] == old(masked[a]) && sdcs[a] == old(sdcs[a])
    {
      FlipTrial(s, A, x, xEnc, j, sdcs, masked);
      j := j + 1;
    }
  }


  /** `sdc_trans_8bit`: the flip trials for every A (only A = 1 when noA is set). */
  method SdcTrans8(code: Code8, noA: bool) returns (sdcs: array<nat>, masked: array<nat>, min: nat, minA: nat)
    ensures fresh(sdcs) && fresh(masked) && sdcs.Length == 256 && masked.Length == 256
    ensures forall A :: 1 <= A <= LastA(noA) ==>
      masked[A] == CountFlips(Byte(code), A, Masked) && sdcs[A] == CountFlips(Byte(code), A, Sdc)
    ensures IsFirstMinimum(sdcs[..], LastA(noA), min, minA)
  {
    sdcs := new nat[256];
    masked := new nat[256];
    var A := 1;
    while A <= 255
      invariant 1 <= A <= 256 && (noA ==> A <= 2)
      invariant forall a :: 1 <= a < A ==>
        masked[a] == CountFlips(Byte(code), a, Masked) && sdcs[a] == CountFlips(Byte(code), a, Sdc)
    {
      if noA && A > 1 {
        break;
      }
      sdcs[A] := 0;
      masked[A] := 0;
      FlipTrials(Byte(code), A, sdcs, masked);
      A := A + 1;
    }
    min, minA := FirstMinimum(sdcs[..], LastA(noA));
  }

  /** `sdc_trans_an_8bit`: the flip trials of the separate AN code for every A. */
  method SdcTransAN() returns (sdcs: array<nat>, masked: array<nat>, min: nat, minA: nat)
    ensures fresh(sdcs) && fresh(masked) && sdcs.Length == 256 && masked.Length == 256
    ensures forall A :: 1 <= A <= 255 ==>
      masked[A] == CountFlips(SeparateAN, A, Masked) && sdcs[A] == CountFlips(SeparateAN, A, Sdc)
    ensures IsFirstMinimum(sdcs[..], 255, min, minA)
  {
    sdcs := new nat[256];
    masked := new nat[256];
    var A := 1;
    while A <= 255
      invariant 1 <= A <= 256
      invariant forall a :: 1 <= a < A ==>
        masked[a] == CountFlips(SeparateAN, a, Masked) && sdcs[a] == CountFlips(SeparateAN, a, Sdc)
    {
      sdcs[A] := 0;
      masked[A] := 0;
      FlipTrials(SeparateAN, A, sdcs, masked);
      A := A + 1;
    }
    min, minA := FirstMinimum(sdcs[..], 255);
  }

  // ---------------------------------------------------------------------------
  // Code distance
  // ---------------------------------------------------------------------------

  /** `calcHammingDistance(x_enc, x)` for the code word of x. */
  function HD(s: Scheme, A: nat, x: nat): nat
    requires ValidA(A) && x < Range(s)
  {
    Helpers.Distance(Encode(s, x, A), x, Width(s))
  }

  /** The number of x in [lo, n) whose code word is at distance d. */
  function CountAtDistance(s: Scheme, A: nat, d: nat, lo: nat, n: nat): nat
    requires ValidA(A) && n <= 256
    decreases s, A, n
  {
    if n <= lo then 0
    else CountAtDistance(s, A, d, lo, n - 1) + B2I(HD(s, A, n - 1) == d)
  }

  /** The smallest distance over x in [lo, n), starting from INT32_MAX. */
  function MinDistance(s: Scheme, A: nat, lo: nat, n: nat): nat
    requires ValidA(A) && n <= 256
    decreases s, A, n
  {
    if n <= lo then INT32_MAX
    else
      var m := MinDistance(s, A, lo, n - 1);
      var hd := HD(s, A, n - 1);
      if hd < m then hd else m
  }

  /** The entry of column d in the histogram row of A: the x in [lo, 256) at distance d. */
  function Histogram(s: Scheme, A: nat, d: nat, lo: nat): nat
    requires ValidA(A)
  {
    CountAtDistance(s, A, d, lo, 256)
  }

  /** The minimum distance of the row of A, over the x in [lo, 256). */
  function MinimumDistance(s: Scheme, A: nat, lo: nat): nat
    requires ValidA(A)
  {
    MinDistance(s, A, lo, 256)
  }

  /**
   * `cd_8bit`: for each A, the histogram of the distances between every byte and
   * its code word and their minimum, then the first A with the largest minimum.
   */
  method CodeDistance8(code: Code8, noA: bool)
    returns (hist: array2<nat>, minHammingDistance: array<nat>, maxA: nat, maxCD: nat)
    ensures fresh(hist) && fresh(minHammingDistance)
    ensures hist.Length0 == 256 && hist.Length1 == 9 && minHammingDistance.Length == 256
    ensures forall A, d :: 1 <= A <= LastA(noA) && 0 <= d < 9 ==>
      hist[A, d] == Histogram(Byte(code), A, d, 0)
    ensures forall A :: 1 <= A <= LastA(noA) ==> minHammingDistance[A] == MinimumDistance(Byte(code), A, 0)
    ensures forall A, d :: (A == 0 || LastA(noA) < A < 256) && 0 <= d < 9 ==> hist[A, d] == 0
    ensures forall A :: (A == 0 || LastA(noA) < A < 256) ==> minHammingDistance[A] == INT32_MAX
    ensures IsFirstMaximum(minHammingDistance[..], LastA(noA), maxA, maxCD)
  {
    hist, minHammingDistance := DistanceTable8(code, noA);
    maxA, maxCD := FirstMaximum(minHammingDistance[..], LastA(noA));
  }

  /** The `A` loop of `cd_8bit`: one row of the histogram and one minimum per A. */
  method DistanceTable8(code: Code8, noA: bool) returns (hist: array2<nat>, minHammingDistance: array<nat>)
    ensures fresh(hist) && fresh(minHammingDistance)
    ensures hist.Length0 == 256 && hist.Length1 == 9 && minHammingDistance.Length == 256
    ensures forall A, d :: 1 <= A <= LastA(noA) && 0 <= d < 9 ==>
      hist[A, d] == Histogram(Byte(code), A, d, 0)
    ensures forall A :: 1 <= A <= LastA(noA) ==> minHammingDistance[A] == MinimumDistance(Byte(code), A, 0)
    ensures forall A, d :: (A == 0 || LastA(noA) < A < 256) && 0 <= d < 9 ==> hist[A, d] == 0
    ensures forall A :: (A == 0 || LastA(noA) < A < 256) ==> minHammingDistance[A] == INT32_MAX
  {
    hist := new nat[256, 9]((_, _) => 0);
    minHammingDistance := new nat[256](_ => INT32_MAX);
    var A := 1;
    while A <= 255
      invariant 1 <= A <= 256 && (noA ==> A <= 2)
      invariant forall a, d :: 0 <= a < 256 && 0 <= d < 9 ==>
        hist[a, d] == if 1 <= a < A then Histogram(Byte(code), a, d, 0) else 0
      invariant forall a :: 0 <= a < 256 ==>
        minHammingDistance[a] == if 1 <= a < A then MinimumDistance(Byte(code), a, 0) else INT32_MAX
    {
      if noA && A > 1 {
        break;
      }
      DistanceRow8(code, A, hist, minHammingDistance);
      A := A + 1;
    }
  }

  /** The `i` loop of `cd_8bit` for one A: row A of the histogram and its minimum. */
  method DistanceRow8(code: Code8, A: nat, hist: array2<nat>, minHammingDistance: array<nat>)
    requires ValidA(A) && hist.Length0 == 256 && hist.Length1 == 9 && minHammingDistance.Length == 256
    requires minHammingDistance[A] == INT32_MAX
    modifies hist, minHammingDistance
    ensures forall d :: 0 <= d < 9 ==> hist[A, d] == old(hist[A, d]) + Histogram(Byte(code), A, d, 0)
    ensures minHammingDistance[A] == MinimumDistance(Byte(code), A, 0)
    ensures forall a, d :: 0 <= a < 256 && a != A && 0 <= d < 9 ==> hist[a, d] == old(hist[a, d])
    ensures forall a :: 0 <= a < 256 && a != A ==> minHammingDistance[a] == old(minHammingDistance[a])
  {
    var s := Byte(code);
    var i := 0;
    while i < 256
      invariant 0 <= i <= 256
      invariant forall d :: 0 <= d < 9 ==> hist[A, d] == old(hist[A, d]) + CountAtDistance(s, A, d, 0, i)
      invariant minHammingDistance[A] == MinDistance(s, A, 0, i)
      invariant forall a, d :: 0 <= a < 256 && a != A && 0 <= d < 9 ==> hist[a, d] == old(hist[a, d])
      invariant forall a :: 0 <= a < 256 && a != A ==> minHammingDistance[a] == old(minHammingDistance[a])
    {
      var x: u8 := i;
      var xEnc := Encode(s, x, A);
      var hd := Helpers.HammingDistance8(xEnc, x);
      hist[A, hd] := hist[A, hd] + 1;
      if hd < minHammingDistance[A] {
        minHammingDistance[A] := hd;
      }
      i := i + 1;
    }
  }

  /** Column c of a two-dimensional table. */
  function Column(hist: array2<nat>, c: nat): (col: seq<nat>)
    requires c < hist.Length1
    reads hist
    ensures |col| == hist.Length0 && forall a :: 0 <= a < hist.Length0 ==> col[a] == hist[a, c]
  {
    seq(hist.Length0, a requires 0 <= a < hist.Length0 reads hist => hist[a, c])
  }

  /**
   * `cd_an_sep_8bit`: the same for the AN code word `x * A` on 16 bits, over
   * x in [1, 255]; column 17 of each row receives the minimum distance.
   */
  method CodeDistanceAN() returns (hist: array2<nat>, maxA: nat, maxCD: nat)
    ensures fresh(hist) && hist.Length0 == 256 && hist.Length1 == 18
    ensures forall A, d :: 1 <= A <= 255 && 0 <= d < 17 ==> hist[A, d] == Histogram(SeparateAN, A, d, 1)
    ensures forall A :: 1 <= A <= 255 ==> hist[A, 17] == MinimumDistance(SeparateAN, A, 1)
    ensures forall d :: 0 <= d < 18 ==> hist[0, d] == 0
    ensures IsFirstMaximum(Column(hist, 17), 255, maxA, maxCD)
  {
    hist := new nat[256, 18]((_, _) => 0);
    var A := 1;
    while A <= 255
      invariant 1 <= A <= 256
      invariant forall a, d :: 1 <= a < A && 0 <= d < 17 ==> hist[a, d] == Histogram(SeparateAN, a, d, 1)
      invariant forall a :: 1 <= a < A ==> hist[a, 17] == MinimumDistance(SeparateAN, a, 1)
      invariant forall a, d :: A <= a < 256 && 0 <= d < 18 ==> hist[a, d] == 0
      invariant forall d :: 0 <= d < 18 ==> hist[0, d] == 0
    {
      DistanceRowAN(A, hist);
      A := A + 1;
    }
    maxA, maxCD := FirstMaximum(Column(hist, 17), 255);
  }

  /** The `i` loop of `cd_an_sep_8bit` for one A, storing the minimum in column 17. */
  method DistanceRowAN(A: nat, hist: array2<nat>)
    requires ValidA(A) && hist.Length0 == 256 && hist.Length1 == 18
    modifies hist
    ensures forall d :: 0 <= d < 17 ==> hist[A, d] == old(hist[A, d]) + Histogram(SeparateAN, A, d, 1)
    ensures hist[A, 17] == MinimumDistance(SeparateAN, A, 1)
    ensures forall a, d :: 0 <= a < 256 && a != A && 0 <= d < 18 ==> hist[a, d] == old(hist[a, d])
  {
    var s := SeparateAN;
    var minHammingDistance := INT32_MAX;
    var i := 1;
    while i < 256
      invariant 1 <= i <= 256
      invariant forall d :: 0 <= d < 17 ==> hist[A, d] == old(hist[A, d]) + CountAtDistance(s, A, d, 1, i)
      invariant minHammingDistance == MinDistance(s, A, 1, i)
      invariant forall a, d :: 0 <= a < 256 && a != A && 0 <= d < 18 ==> hist[a, d] == old(hist[a, d])
    {
      var x: u16 := i;
      var xEnc := EncAN(x, A);
      var hd := Helpers.HammingDistance16(xEnc, x);
      hist[A, hd] := hist[A, hd] + 1;
      if hd < minHammingDistance {
        minHammingDistance := hd;
      }
      i := i + 1;
    }
    hist[A, 17] := minHammingDistance;
  }

  // ---------------------------------------------------------------------------
  // Choosing the best constant
  // ---------------------------------------------------------------------------

  /** best is the largest of values[1..last] (0 if none is positive), first reached at index bestA. */
  predicate IsFirstMaximum(values: seq<nat>, last: nat, bestA: nat, best: nat)
  {
    last < |values|
    && (forall a :: 1 <= a <= last ==> values[a] <= best)
    && (best == 0 ==> bestA == 0)
    && (best > 0 ==> 1 <= bestA <= last && values[bestA] == best && forall a :: 1 <= a < bestA ==> values[a] < best)
  }

  /** best is the smallest of INT32_MAX and values[1..last], first reached at index bestA. */
  predicate IsFirstMinimum(values: seq<nat>, last: nat, best: nat, bestA: nat)
  {
    last < |values|
    && best <= INT32_MAX
    && (forall a :: 1 <= a <= last ==> best <= values[a])
    && (best == INT32_MAX ==> bestA == 0)
    && (best < INT32_MAX ==> 1 <= bestA <= last && values[bestA] == best && forall a :: 1 <= a < bestA ==> best < values[a])
  }

  /** `if (value[A] > maxCD) { maxCD = value[A]; maxA = A; }` over A in [1, last]. */
  method FirstMaximum(values: seq<nat>, last: nat) returns (maxA: nat, maxCD: nat)
    requires last < |values|
    ensures IsFirstMaximum(values, last, maxA, maxCD)
  {
    maxA, maxCD := 0, 0;
    var A := 1;
    while A <= last
      invariant 1 <= A <= last + 1
      invariant IsFirstMaximum(values[..A], A - 1, maxA, maxCD)
    {
      if values[A] > maxCD {
        maxCD := values[A];
        maxA := A;
      }
      A := A + 1;
    }
    assert values[..A] == values[..last + 1];
    ExtendFirstMaximum(values, last, maxA, maxCD);
  }

  lemma ExtendFirstMaximum(values: seq<nat>, last: nat, bestA: nat, best: nat)
    requires last < |values| && IsFirstMaximum(values[..last + 1], last, bestA, best)
    ensures IsFirstMaximum(values, last, bestA, best)
  {
    assert forall a :: 0 <= a <= last ==> values[..last + 1][a] == values[a];
  }

  /** `if (value[A] < min) { min = value[A]; minA = A; }` over A in [1, last], from INT32_MAX. */
  method FirstMinimum(values: seq<nat>, last: nat) returns (min: nat, minA: nat)
    requires last < |values|
    ensures IsFirstMinimum(values, last, min, minA)
  {
    min, minA := INT32_MAX, 0;
    var A := 1;
    while A <= last
      invariant 1 <= A <= last + 1
      invariant IsFirstMinimum(values[..A], A - 1, min, minA)
    {
      if values[A] < min {
        min := values[A];
        minA := A;
      }
      A := A + 1;
    }
    assert values[..A] == values[..last + 1];
    ExtendFirstMinimum(values, last, min, minA);
  }

  lemma ExtendFirstMinimum(values: seq<nat>, last: nat, best: nat, bestA: nat)
    requires last < |values| && IsFirstMinimum(values[..last + 1], last, best, bestA)
    ensures IsFirstMinimum(values, last, best, bestA)
  {
    assert forall a :: 0 <= a <= last ==> values[..last + 1][a] == values[a];
  }

  // ---------------------------------------------------------------------------
  // Stuck-at masks
  // ---------------------------------------------------------------------------

  lemma MaskBitsOf(j: nat, k: nat, n: nat)
    ensures forall i :: 0 <= i < n ==> Bit(Mask0(j, k, n), i) == (Bit(j, i) && !Bit(k, i))
    ensures forall i :: 0 <= i < n ==> Bit(Mask1(j, k, n), i) == (Bit(j, i) && Bit(k, i))
  {
    forall i | 0 <= i < n
      ensures Bit(Mask0(j, k, n), i) == (Bit(j, i) && !Bit(k, i))
      ensures Bit(Mask1(j, k, n), i) == (Bit(j, i) && Bit(k, i))
    {
      BitOfXor(j, BitAnd(j, k, n), n, i);
      BitOfAnd(j, k, n, i);
    }
  }

  /** mask0 and mask1 are disjoint and together make up j. */
  lemma MasksPartition(j: nat, k: nat, n: nat)
    requires j < Pow2(n)
    ensures BitAnd(Mask0(j, k, n), Mask1(j, k, n), n) == 0
    ensures BitOr(Mask0(j, k, n), Mask1(j, k, n), n) == j
  {
    var m0, m1 := Mask0(j, k, n), Mask1(j, k, n);
    MaskBitsOf(j, k, n);
    forall i | 0 <= i < n
      ensures Bit(BitAnd(m0, m1, n), i) == Bit(0, i)
      ensures Bit(BitOr(m0, m1, n), i) == Bit(j, i)
    {
      BitOfAnd(m0, m1, n, i);
      BitOfOr(m0, m1, n, i);
      BitOfZero(i);
    }
    BitsEqual(BitAnd(m0, m1, n), 0, n);
    BitsEqual(BitOr(m0, m1, n), j, n);
  }

  /** The pattern (j, k) forces each bit selected by j to the matching bit of k. */
  lemma StuckPattern(v: nat, j: nat, k: nat, n: nat)
    ensures forall i :: 0 <= i < n ==>
      Bit(Stuck(v, Mask0(j, k, n), Mask1(j, k, n), n), i) == (if Bit(j, i) then Bit(k, i) else Bit(v, i))
  {
    var m0, m1 := Mask0(j, k, n), Mask1(j, k, n);
    MaskBitsOf(j, k, n);
    forall i | 0 <= i < n
      ensures Bit(Stuck(v, m0, m1, n), i) == (if Bit(j, i) then Bit(k, i) else Bit(v, i))
    {
      BitOfOr(BitAnd(v, BitNot(m0, n), n), m1, n, i);
      BitOfAnd(v, BitNot(m0, n), n, i);
      BitOfNot(m0, n, i);
    }
  }

  /** With j = 0 nothing is stuck: the trial is masked. */
  lemma EmptyPatternIsMasked(s: Scheme, A: nat, x: nat, k: nat)
    requires ValidA(A) && x < Range(s)
    ensures StuckTrial(s, A, x, 0, k) == Masked
  {
    var n := Width(s);
    var xEnc := Encode(s, x, A);
    var m0, m1 := Mask0(0, k, n), Mask1(0, k, n);
    StuckPattern(x, 0, k, n);
    StuckPattern(xEnc, 0, k, n);
    forall i | 0 <= i < n
      ensures !Bit(0, i)
    {
      BitOfZero(i);
    }
    BitsEqual(Stuck(x, m0, m1, n), x, n);
    BitsEqual(Stuck(xEnc, m0, m1, n), xEnc, n);
  }

  // ---------------------------------------------------------------------------
  // Counting stuck-at trials
  // ---------------------------------------------------------------------------

  /** With the empty pattern j = 0 every k leaves the pair as it is: k masked trials. */
  lemma {:induction false} EmptyPatternCount(s: Scheme, A: nat, x: nat, k: nat)
    requires ValidA(A) && x < 256 && k <= Range(s)
    ensures StuckBeforePair(s, A, x, 0, k, Masked) == StuckBeforeMask(s, A, x, 0, Masked) + k
    decreases k
  {
    if k > 0 {
      assert StuckTrial(s, A, x, 0, k - 1) == Masked by {
        EmptyPatternIsMasked(s, A, x, k - 1);
      }
      EmptyPatternCount(s, A, x, k - 1);
    }
  }

  /** The counts only grow along the `k` loop. */
  lemma {:induction false} PairsGrow(s: Scheme, A: nat, x: nat, j: nat, k: nat, o: Outcome)
    requires ValidA(A) && x < 256 && j < Range(s) && k <= Range(s)
    ensures StuckBeforePair(s, A, x, j, k, o) >= StuckBeforeMask(s, A, x, j, o)
    decreases k
  {
    if k > 0 {
      PairsGrow(s, A, x, j, k - 1, o);
    }
  }

  /** The counts only grow along the `j` loop. */
  lemma {:induction false} MasksGrow(s: Scheme, A: nat, x: nat, j: nat, o: Outcome)
    requires ValidA(A) && x < 256 && 1 <= j <= Range(s)
    ensures StuckBeforeMask(s, A, x, j, o) >= StuckBeforeMask(s, A, x, 1, o)
    decreases j
  {
    if j > 1 {
      PairsGrow(s, A, x, j - 1, Range(s), o);
      MasksGrow(s, A, x, j - 1, o);
    }
  }

  /** Each value contributes at least Range(s) masked trials: those of the empty pattern. */
  lemma MaskedPerValue(s: Scheme, A: nat, x: nat)
    requires ValidA(A) && x < 256
    ensures StuckBefore(s, A, x + 1, Masked) >= StuckBefore(s, A, x, Masked) + Range(s)
  {
    MasksGrow(s, A, x, Range(s), Masked);
    EmptyPatternCount(s, A, x, Range(s));
  }

  lemma {:induction false} MaskedCount(s: Scheme, A: nat, x: nat)
    requires ValidA(A) && x <= 256
    ensures StuckBefore(s, A, x, Masked) >= x * Range(s)
    decreases x
  {
    if x > 0 {
      MaskedCount(s, A, x - 1);
      MaskedPerValue(s, A, x - 1);
      assert x * Range(s) == (x - 1) * Range(s) + Range(s);
    }
  }

  /**
   * The j = 0 trials alone are masked: at least 256 * 256 masked trials for a
   * byte code, and 256 * 65536 for the separate AN code.
   */
  lemma PermMaskedAtLeast(s: Scheme, A: nat)
    requires ValidA(A)
    ensures CountStuck(s, A, Masked) >= 256 * Range(s)
    ensures s.Byte? ==> CountStuck(s, A, Masked) >= 256 * 256
  {
    MaskedCount(s, A, 256);
  }

  lemma MulSucc(a: int, b: int)
    ensures a * b == (a - 1) * b + b
  {
  }

  /** Every outcome is one of the three. */
  lemma OneOutcome(t: Outcome)
    ensures B2I(t == Masked) + B2I(t == Detected) + B2I(t == Sdc) == 1
  {
  }

  lemma {:induction false} PairTotal(s: Scheme, A: nat, x: nat, j: nat, k: nat)
    requires ValidA(A) && x < 256 && j < Range(s) && k <= Range(s)
    ensures StuckBeforePair(s, A, x, j, k, Masked) + StuckBeforePair(s, A, x, j, k, Detected) + StuckBeforePair(s, A, x, j, k, Sdc)
         == StuckBeforeMask(s, A, x, j, Masked) + StuckBeforeMask(s, A, x, j, Detected) + StuckBeforeMask(s, A, x, j, Sdc) + k
    decreases k
  {
    if k > 0 {
      PairTotal(s, A, x, j, k - 1);
      OneOutcome(StuckTrial(s, A, x, j, k - 1));
    }
  }

  lemma {:induction false} MaskTotal(s: Scheme, A: nat, x: nat, j: nat)
    requires ValidA(A) && x < 256 && j <= Range(s)
    ensures StuckBeforeMask(s, A, x, j, Masked) + StuckBeforeMask(s, A, x, j, Detected) + StuckBeforeMask(s, A, x, j, Sdc)
         == StuckBefore(s, A, x, Masked) + StuckBefore(s, A, x, Detected) + StuckBefore(s, A, x, Sdc) + j * Range(s)
    decreases j
  {
    if j > 0 {
      var r := Range(s);
      MaskTotal(s, A, x, j - 1);
      PairTotal(s, A, x, j - 1, r);
      MulSucc(j, r);
    }
  }

  /** Each trial is counted under exactly one outcome: masked and SDC never overlap. */
  lemma {:induction false} StuckTotal(s: Scheme, A: nat, x: nat)
    requires ValidA(A) && x <= 256
    ensures StuckBefore(s, A, x, Masked) + StuckBefore(s, A, x, Detected) + StuckBefore(s, A, x, Sdc)
         == x * (Range(s) * Range(s))
    decreases x
  {
    if x > 0 {
      var r := Range(s);
      StuckTotal(s, A, x - 1);
      MaskTotal(s, A, x - 1, r);
      MulSucc(x, r * r);
    }
  }

  // ---------------------------------------------------------------------------
  // Counting flip trials
  // ---------------------------------------------------------------------------

  /** `x ^ j == x` exactly when j is 0. */
  lemma XorFixed(x: nat, j: nat, n: nat)
    requires x < Pow2(n) && j < Pow2(n)
    ensures BitXor(x, j, n) == x <==> j == 0
  {
    OpsWithZero(x, n);
    if BitXor(x, j, n) == x {
      Helpers.XorDifference(x, j, n);
      XorZero(x, x, n);
    }
  }

  /** A flip trial is masked exactly for the empty mask j = 0. */
  lemma FlipMaskedIffEmpty(s: Scheme, A: nat, x: nat, j: nat)
    requires ValidA(A) && x < Range(s) && j < Range(s)
    ensures FlipValue(s, A, x, j) == Masked <==> j == 0
    ensures FlipEncoding(s, A, x, j) == Masked <==> j == 0
  {
    XorFixed(x, j, Width(s));
    XorFixed(Encode(s, x, A), j, Width(s));
  }

  lemma {:induction false} FlipsMaskMasked(s: Scheme, A: nat, x: nat, j: nat)
    requires ValidA(A) && x < 256 && j <= TransRange(s)
    ensures FlipsBeforeMask(s, A, x, j, Masked) == FlipsBefore(s, A, x, Masked) + (if j == 0 then 0 else 2)
    decreases j
  {
    if j > 0 {
      FlipsMaskMasked(s, A, x, j - 1);
      FlipMaskedIffEmpty(s, A, x, j - 1);
    }
  }

  lemma {:induction false} FlipsMasked(s: Scheme, A: nat, x: nat)
    requires ValidA(A) && x <= 256
    ensures FlipsBefore(s, A, x, Masked) == 2 * x
    decreases x
  {
    if x > 0 {
      FlipsMasked(s, A, x - 1);
      FlipsMaskMasked(s, A, x - 1, TransRange(s));
    }
  }

  /** Only j = 0 leaves the value or the encoding unchanged: exactly 512 masked trials. */
  lemma TransMasked(s: Scheme, A: nat)
    requires ValidA(A)
    ensures CountFlips(s, A, Masked) == 512
  {
    FlipsMasked(s, A, 256);
  }

  lemma {:induction false} FlipsMaskTotal(s: Scheme, A: nat, x: nat, j: nat)
    requires ValidA(A) && x < 256 && j <= TransRange(s)
    ensures FlipsBeforeMask(s, A, x, j, Masked) + FlipsBeforeMask(s, A, x, j, Detected) + FlipsBeforeMask(s, A, x, j, Sdc)
         == FlipsBefore(s, A, x, Masked) + FlipsBefore(s, A, x, Detected) + FlipsBefore(s, A, x, Sdc) + 2 * j
    decreases j
  {
    if j > 0 {
      FlipsMaskTotal(s, A, x, j - 1);
      OneOutcome(FlipValue(s, A, x, j - 1));
      OneOutcome(FlipEncoding(s, A, x, j - 1));
    }
  }

  /** Two trials per (x, j), each counted under exactly one outcome. */
  lemma {:induction false} FlipsTotal(s: Scheme, A: nat, x: nat)
    requires ValidA(A) && x <= 256
    ensures FlipsBefore(s, A, x, Masked) + FlipsBefore(s, A, x, Detected) + FlipsBefore(s, A, x, Sdc)
         == 2 * x * TransRange(s)
    decreases x
  {
    if x > 0 {
      FlipsTotal(s, A, x - 1);
      FlipsMaskTotal(s, A, x - 1, TransRange(s));
      assert 2 * x * TransRange(s) == 2 * (x - 1) * TransRange(s) + 2 * TransRange(s);
    }
  }

  // ---------------------------------------------------------------------------
  // A checker that accepts nothing reports no SDC
  // ---------------------------------------------------------------------------

  predicate NeverAccepts(s: Scheme, A: nat)
    requires ValidA(A)
  {
    forall x, y :: 0 <= x < Range(s) && 0 <= y < Range(s) ==> !Check(s, x, y, A)
  }

  lemma OnesComplementNeverAccepts(A: nat)
    requires ValidA(A)
    ensures NeverAccepts(Byte(OnesComplement), A)
  {
    forall x, y | 0 <= x < 256 && 0 <= y < 256
      ensures !Check(Byte(OnesComplement), x, y, A)
    {
      CheckOnesCompNeverHolds(x, y, A);
    }
  }

  lemma NoSdcStuckTrial(s: Scheme, A: nat, x: nat, j: nat, k: nat)
    requires ValidA(A) && x < Range(s) && NeverAccepts(s, A)
    ensures StuckTrial(s, A, x, j, k) != Sdc
  {
    var n := Width(s);
    var m0, m1 := Mask0(j, k, n), Mask1(j, k, n);
    assert !Check(s, Stuck(x, m0, m1, n), Stuck(Encode(s, x, A), m0, m1, n), A);
  }

  lemma NoSdcFlipTrials(s: Scheme, A: nat, x: nat, j: nat)
    requires ValidA(A) && x < Range(s) && NeverAccepts(s, A)
    ensures FlipValue(s, A, x, j) != Sdc && FlipEncoding(s, A, x, j) != Sdc
  {
    var n := Width(s);
    var xEnc := Encode(s, x, A);
    assert !Check(s, BitXor(x, j, n), xEnc, A);
    assert !Check(s, x, BitXor(xEnc, j, n), A);
  }

  lemma {:induction false} NoSdcBefore(s: Scheme, A: nat, x: nat)
    requires ValidA(A) && x <= 256 && NeverAccepts(s, A)
    ensures StuckBefore(s, A, x, Sdc) == 0
    decreases s, A, x, 0, 0, 0
  {
    if x > 0 {
      NoSdcBeforeMask(s, A, x - 1, Range(s));
    }
  }

  lemma {:induction false} NoSdcBeforeMask(s: Scheme, A: nat, x: nat, j: nat)
    requires ValidA(A) && x < 256 && j <= Range(s) && NeverAccepts(s, A)
    ensures StuckBeforeMask(s, A, x, j, Sdc) == 0
    decreases s, A, x, 1, j, 0
  {
    if j == 0 {
      NoSdcBefore(s, A, x);
    } else {
      NoSdcBeforePair(s, A, x, j - 1, Range(s));
    }
  }

  lemma {:induction false} NoSdcBeforePair(s: Scheme, A: nat, x: nat, j: nat, k: nat)
    requires ValidA(A) && x < 256 && j < Range(s) && k <= Range(s) && NeverAccepts(s, A)
    ensures StuckBeforePair(s, A, x, j, k, Sdc) == 0
    decreases s, A, x, 1, j, k + 1
  {
    if k == 0 {
      NoSdcBeforeMask(s, A, x, j);
    } else {
      NoSdcBeforePair(s, A, x, j, k - 1);
      NoSdcStuckTrial(s, A, x, j, k - 1);
    }
  }

  lemma {:induction false} NoSdcFlipsBefore(s: Scheme, A: nat, x: nat)
    requires ValidA(A) && x <= 256 && NeverAccepts(s, A)
    ensures FlipsBefore(s, A, x, Sdc) == 0
    decreases s, A, x, 0, 0
  {
    if x > 0 {
      NoSdcFlipsBeforeMask(s, A, x - 1, TransRange(s));
    }
  }

  lemma {:induction false} NoSdcFlipsBeforeMask(s: Scheme, A: nat, x: nat, j: nat)
    requires ValidA(A) && x < 256 && j <= TransRange(s) && NeverAccepts(s, A)
    ensures FlipsBeforeMask(s, A, x, j, Sdc) == 0
    decreases s, A, x, 1, j
  {
    if j == 0 {
      NoSdcFlipsBefore(s, A, x);
    } else {
      NoSdcFlipsBeforeMask(s, A, x, j - 1);
      NoSdcFlipTrials(s, A, x, j - 1);
    }
  }

  /**
   * Because its checker accepts nothing, the ones' complement code is reported
   * with no SDC at all, under either fault model.
   */
  lemma OnesComplementReportsNoSdc(A: nat)
    requires ValidA(A)
    ensures CountStuck(Byte(OnesComplement), A, Sdc) == 0
    ensures CountFlips(Byte(OnesComplement), A, Sdc) == 0
  {
    OnesComplementNeverAccepts(A);
    NoSdcBefore(Byte(OnesComplement), A, 256);
    NoSdcFlipsBefore(Byte(OnesComplement), A, 256);
  }


  // ---------------------------------------------------------------------------
  // Code distance: the histogram and the minimum
  // ---------------------------------------------------------------------------

  lemma DistanceBound(s: Scheme, A: nat, x: nat)
    requires ValidA(A) && x < Range(s)
    ensures HD(s, A, x) <= Width(s)
  {
    PopcountBound(BitXor(Encode(s, x, A), x, Width(s)), Width(s));
  }

  /** The first D columns of a histogram row, summed. */
  function HistSum(s: Scheme, A: nat, D: nat, lo: nat, n: nat): nat
    requires ValidA(A) && n <= 256
    decreases s, A, D
  {
    if D == 0 then 0 else HistSum(s, A, D - 1, lo, n) + CountAtDistance(s, A, D - 1, lo, n)
  }

  lemma {:induction false} HistSumStep(s: Scheme, A: nat, D: nat, lo: nat, n: nat)
    requires ValidA(A) && lo < n <= 256
    ensures HistSum(s, A, D, lo, n) == HistSum(s, A, D, lo, n - 1) + B2I(HD(s, A, n - 1) < D)
    decreases D
  {
    if D > 0 {
      HistSumStep(s, A, D - 1, lo, n);
    }
  }

  /** Every x in [lo, n) lands in one of the columns 0..Width. */
  lemma {:induction false} HistogramTotal(s: Scheme, A: nat, D: nat, lo: nat, n: nat)
    requires ValidA(A) && lo <= n <= 256 && Width(s) < D
    ensures HistSum(s, A, D, lo, n) == n - lo
    decreases n
  {
    if n > lo {
      HistogramTotal(s, A, D, lo, n - 1);
      HistSumStep(s, A, D, lo, n);
      DistanceBound(s, A, n - 1);
    } else {
      HistogramEmpty(s, A, D, lo, n);
    }
  }

  lemma {:induction false} HistogramEmpty(s: Scheme, A: nat, D: nat, lo: nat, n: nat)
    requires ValidA(A) && n <= lo && n <= 256
    ensures HistSum(s, A, D, lo, n) == 0
    decreases D
  {
    if D > 0 {
      HistogramEmpty(s, A, D - 1, lo, n);
    }
  }

  /** A `cd_8bit` row has 256 entries; a `cd_an_sep_8bit` row (columns 0..16) has 255. */
  lemma HistogramRows(code: Code8, A: nat)
    requires ValidA(A)
    ensures HistSum(Byte(code), A, 9, 0, 256) == 256
    ensures HistSum(SeparateAN, A, 17, 1, 256) == 255
  {
    HistogramTotal(Byte(code), A, 9, 0, 256);
    HistogramTotal(SeparateAN, A, 17, 1, 256);
  }

  /** MinDistance is below the distance of every x in [lo, n), and INT32_MAX when that is empty. */
  lemma {:induction false} MinDistanceIsLowerBound(s: Scheme, A: nat, lo: nat, n: nat)
    requires ValidA(A) && n <= 256
    ensures forall x :: lo <= x < n ==> MinDistance(s, A, lo, n) <= HD(s, A, x)
    ensures n <= lo ==> MinDistance(s, A, lo, n) == INT32_MAX
    decreases n
  {
    if n > lo {
      MinDistanceIsLowerBound(s, A, lo, n - 1);
      var m, h := MinDistance(s, A, lo, n - 1), HD(s, A, n - 1);
      assert MinDistance(s, A, lo, n) == if h < m then h else m;
    }
  }

  /** Over a non-empty [lo, n), MinDistance is the distance of some x in it. */
  lemma {:induction false} MinDistanceAttained(s: Scheme, A: nat, lo: nat, n: nat)
    requires ValidA(A) && lo < n <= 256
    ensures exists x :: lo <= x < n && MinDistance(s, A, lo, n) == HD(s, A, x)
    decreases n
  {
    var m, h := MinDistance(s, A, lo, n - 1), HD(s, A, n - 1);
    assert MinDistance(s, A, lo, n) == if h < m then h else m;
    if n - 1 == lo {
      assert m == INT32_MAX;
      assert h < m by {
        DistanceBound(s, A, n - 1);
      }
    } else {
      MinDistanceAttained(s, A, lo, n - 1);
      var w :| lo <= w < n - 1 && m == HD(s, A, w);
      if h >= m {
        assert MinDistance(s, A, lo, n) == HD(s, A, w);
      }
    }
  }
}
