/**
 * The matrix multiplication of mul_validation/: `mul100` multiplies two 100 x 100
 * matrices of 64-bit words stored row-major in arrays of 10000 entries, and
 * `mul100_enc` performs the same product with every value, loop counter and index
 * held in the ones'-complement coding of OnesComp64. Both are specified by one
 * function, the product modulo 2^64, so the encoded run writes the complement of
 * what the plain run writes on the decoded inputs.
 */
module MulValidation {
  import opened Words
  import None64
  import OnesComp64

  /** The matrices are Dim x Dim, stored in Size entries. */
  const Dim: nat := 100
  const Size: nat := 10000

  /** The row-major index `i * 100 + j`; it determines the row and the column. */
  function Idx(i: nat, j: nat): (p: nat)
    requires i < Dim && j < Dim
    ensures p < Size && p / Dim == i && p % Dim == j
  {
    DivModUnique(i * Dim + j, Dim, i, j);
    i * Dim + j
  }

  /** The exact sum of `a[i][k] * b[k][j]` over k < n, before any wrap-around. */
  function DotPrefix(a: seq<u64>, b: seq<u64>, i: nat, j: nat, n: nat): int
    requires |a| == Size && |b| == Size && i < Dim && j < Dim && n <= Dim
    decreases a, n
  {
    if n == 0 then 0 else DotPrefix(a, b, i, j, n - 1) + a[Idx(i, n - 1)] as int * b[Idx(n - 1, j)] as int
  }

  /** Entry (i, j) of the product a * b in 64-bit unsigned arithmetic. */
  function Product(a: seq<u64>, b: seq<u64>, i: nat, j: nat): u64
    requires |a| == Size && |b| == Size && i < Dim && j < Dim
  {
    Wrap64(DotPrefix(a, b, i, j, Dim))
  }

  /** The matrix every entry of which is decoded. */
  function Decoded(m: seq<u64>): (d: seq<u64>)
    ensures |d| == |m| && forall p :: 0 <= p < |m| ==> d[p] == OnesComp64.UDecode(m[p])
  {
    seq(|m|, p requires 0 <= p < |m| => OnesComp64.UDecode(m[p]))
  }

  /**
   * `sumVal += a * b` on uint64_t wraps twice, yet the running sum stays the
   * wrapped exact sum.
   */
  lemma AccumulateStep(s: u64, d: int, x: u64, y: u64)
    requires s == Wrap64(d)
    ensures None64.UAdd(s, None64.UMul(x, y)) == Wrap64(d + x as int * y as int)
  {
    var p := None64.UMul(x, y);
    CongAdd(s, d, p, x as int * y as int, TWO64);
    CongTrans(None64.UAdd(s, p), s + p, d + x as int * y as int, TWO64);
    WrapMUnique(None64.UAdd(s, p), d + x as int * y as int, TWO64);
  }

  /** One step of the `k` loop keeps `sumVal` the wrapped partial dot product. */
  lemma DotStep(a: seq<u64>, b: seq<u64>, i: nat, j: nat, k: nat, sumVal: u64)
    requires |a| == Size && |b| == Size && i < Dim && j < Dim && k < Dim
    requires sumVal == Wrap64(DotPrefix(a, b, i, j, k))
    ensures None64.UAdd(sumVal, None64.UMul(a[Idx(i, k)], b[Idx(k, j)])) == Wrap64(DotPrefix(a, b, i, j, k + 1))
  {
    AccumulateStep(sumVal, DotPrefix(a, b, i, j, k), a[Idx(i, k)], b[Idx(k, j)]);
  }

  /** The `k` loop of `mul100`: the running sum `sumVal` of row i of matA times column j of matB. */
  method DotProduct(matA: array<u64>, matB: array<u64>, i: u64, j: u64) returns (sumVal: u64)
    requires matA.Length == Size && matB.Length == Size && i < 100 && j < 100
    ensures sumVal == Product(matA[..], matB[..], i, j)
  {
    sumVal := 0;
    var k: u64 := 0;
    while k < 100
      invariant k <= Dim
      invariant sumVal == Wrap64(DotPrefix(matA[..], matB[..], i, j, k))
    {
      DotStep(matA[..], matB[..], i, j, k, sumVal);
      sumVal := None64.UAdd(sumVal, None64.UMul(matA[i * 100 + k], matB[k * 100 + j]));
      k := k + 1;
    }
  }

  /**
   * `mul100`: after the triple loop, entry (i, j) of matC is the 64-bit product
   * entry; matA and matB are only read.
   */
  method Mul100(matA: array<u64>, matB: array<u64>, matC: array<u64>)
    requires matA.Length == Size && matB.Length == Size && matC.Length == Size
    requires matC != matA && matC != matB
    modifies matC
    ensures forall i, j :: 0 <= i < Dim && 0 <= j < Dim ==> matC[Idx(i, j)] == Product(matA[..], matB[..], i, j)
  {
    ghost var a, b := matA[..], matB[..];
    var i: u64 := 0;
    while i < 100
      invariant i <= Dim && matA[..] == a && matB[..] == b
      invariant forall p :: 0 <= p < i * Dim ==> matC[p] == Product(a, b, p / Dim, p % Dim)
    {
      var j: u64 := 0;
      while j < 100
        invariant j <= Dim && matA[..] == a && matB[..] == b
        invariant forall p :: 0 <= p < i * Dim + j ==> matC[p] == Product(a, b, p / Dim, p % Dim)
      {
        var sumVal := DotProduct(matA, matB, i, j);
        assert Idx(i, j) == i * 100 + j;
        matC[i * 100 + j] := sumVal;
        j := j + 1;
      }
      i := i + 1;
    }
    forall i, j | 0 <= i < Dim && 0 <= j < Dim
      ensures matC[Idx(i, j)] == Product(a, b, i, j)
    {
      assert Idx(i, j) < Dim * Dim;
    }
  }

  // ---------------------------------------------------------------------------
  // The encoded loop counters and indices of `mul100_enc`
  // ---------------------------------------------------------------------------

  /** `0xffffffffffffffff`, `0xfffffffffffffffe`, `0xffffffffffffff9b`: 0, 1 and 100 encoded. */
  const EncZero: u64 := 0xffff_ffff_ffff_ffff
  const EncOne: u64 := 0xffff_ffff_ffff_fffe
  const EncDim: u64 := 0xffff_ffff_ffff_ff9b

  lemma EncodedConstants()
    ensures OnesComp64.UDecode(EncZero) == 0 && OnesComp64.UDecode(EncOne) == 1 && OnesComp64.UDecode(EncDim) == Dim
    ensures EncZero == OnesComp64.UEncode(0)
  {
    Widths64();
  }

  /** The loop test `u_decode(u_less(i, 0x...9b))` holds exactly when the decoded counter is below 100. */
  lemma EncodedLoopTest(i: u64)
    ensures OnesComp64.UDecode(OnesComp64.ULess(i, EncDim)) == B2I(OnesComp64.UDecode(i) < Dim)
  {
    EncodedConstants();
  }

  /** The step `u_add(i, 0x...fe)` increments the decoded counter. */
  lemma EncodedIncrement(i: u64)
    requires OnesComp64.UDecode(i) < Dim
    ensures OnesComp64.UDecode(OnesComp64.UAdd(i, EncOne)) == OnesComp64.UDecode(i) + 1
  {
    EncodedConstants();
  }

  /** The index `u_decode(u_add(u_mul(i, 0x...9b), k))` is the row-major index of the decoded counters. */
  lemma EncodedIndex(i: u64, k: u64)
    requires OnesComp64.UDecode(i) < Dim && OnesComp64.UDecode(k) < Dim
    ensures OnesComp64.UDecode(OnesComp64.UAdd(OnesComp64.UMul(i, EncDim), k))
         == Idx(OnesComp64.UDecode(i), OnesComp64.UDecode(k))
  {
    EncodedConstants();
    var ii, kk := OnesComp64.UDecode(i), OnesComp64.UDecode(k);
    assert None64.UMul(ii, Dim) == ii * Dim;
    assert None64.UAdd(ii * Dim, kk) == ii * Dim + kk;
  }

  /** `u_add(s, u_mul(x, y))` on encodings decodes to the plain `s + x * y` of the decoded values. */
  lemma EncodedSum(s: u64, x: u64, y: u64)
    ensures OnesComp64.UDecode(OnesComp64.UAdd(s, OnesComp64.UMul(x, y)))
         == None64.UAdd(OnesComp64.UDecode(s), None64.UMul(OnesComp64.UDecode(x), OnesComp64.UDecode(y)))
  {
  }

  /**
   * The encoded indices of one step of the `k` loop of `mul100_enc` address row i
   * of matA and column j of matB, and the counter advances by one.
   */
  lemma EncodedIndices(i: u64, j: u64, k: u64)
    requires OnesComp64.UDecode(i) < Dim && OnesComp64.UDecode(j) < Dim && OnesComp64.UDecode(k) < Dim
    ensures OnesComp64.UDecode(OnesComp64.UAdd(OnesComp64.UMul(i, EncDim), k)) == Idx(OnesComp64.UDecode(i), OnesComp64.UDecode(k))
    ensures OnesComp64.UDecode(OnesComp64.UAdd(OnesComp64.UMul(k, EncDim), j)) == Idx(OnesComp64.UDecode(k), OnesComp64.UDecode(j))
    ensures OnesComp64.UDecode(OnesComp64.UAdd(k, EncOne)) == OnesComp64.UDecode(k) + 1
  {
    EncodedIndex(i, k);
    EncodedIndex(k, j);
    EncodedIncrement(k);
  }

  /**
   * The encoded `u_mul` and `u_add` of one step of the `k` loop extend the
   * decoded running sum by the product of the decoded entries.
   */
  lemma EncodedDotStep(a: seq<u64>, b: seq<u64>, i: nat, j: nat, k: nat, sumVal: u64, x: u64, y: u64)
    requires |a| == Size && |b| == Size && i < Dim && j < Dim && k < Dim
    requires OnesComp64.UDecode(x) == a[Idx(i, k)] && OnesComp64.UDecode(y) == b[Idx(k, j)]
    requires OnesComp64.UDecode(sumVal) == Wrap64(DotPrefix(a, b, i, j, k))
    ensures OnesComp64.UDecode(OnesComp64.UAdd(sumVal, OnesComp64.UMul(x, y))) == Wrap64(DotPrefix(a, b, i, j, k + 1))
  {
    EncodedSum(sumVal, x, y);
    DotStep(a, b, i, j, k, OnesComp64.UDecode(sumVal));
  }

  /**
   * The `k` loop of `mul100_enc`: an encoded counter k and an encoded running sum,
   * which ends as the encoding of the product entry of the decoded matrices.
   */
  method DotProductEnc(matA: array<u64>, matB: array<u64>, i: u64, j: u64) returns (sumVal: u64)
    requires matA.Length == Size && matB.Length == Size
    requires OnesComp64.UDecode(i) < Dim && OnesComp64.UDecode(j) < Dim
    ensures sumVal == OnesComp64.UEncode(Product(Decoded(matA[..]), Decoded(matB[..]), OnesComp64.UDecode(i), OnesComp64.UDecode(j)))
  {
    ghost var a, b := Decoded(matA[..]), Decoded(matB[..]);
    ghost var ii, jj := OnesComp64.UDecode(i), OnesComp64.UDecode(j);
    sumVal := EncZero;
    var k: u64 := EncZero;
    EncodedConstants();
    while OnesComp64.UDecode(OnesComp64.ULess(k, EncDim)) != 0
      invariant OnesComp64.UDecode(k) <= Dim
      invariant OnesComp64.UDecode(sumVal) == Wrap64(DotPrefix(a, b, ii, jj, OnesComp64.UDecode(k)))
      decreases Dim - OnesComp64.UDecode(k)
    {
      EncodedLoopTest(k);
      EncodedIndices(i, j, k);
      var x := matA[OnesComp64.UDecode(OnesComp64.UAdd(OnesComp64.UMul(i, EncDim), k))];
      var y := matB[OnesComp64.UDecode(OnesComp64.UAdd(OnesComp64.UMul(k, EncDim), j))];
      ghost var kk := OnesComp64.UDecode(k);
      assert OnesComp64.UDecode(x) == a[Idx(ii, kk)] && OnesComp64.UDecode(y) == b[Idx(kk, jj)];
      EncodedDotStep(a, b, ii, jj, kk, sumVal, x, y);
      sumVal := OnesComp64.UAdd(sumVal, OnesComp64.UMul(x, y));
      k := OnesComp64.UAdd(k, EncOne);
    }
    EncodedLoopTest(k);
    OnesComp64.EveryWordIsACode(0, sumVal);
  }

  /**
   * `mul100_enc`: every counter is an encoded value, and entry (i, j) of matC
   * receives the encoding of the product entry of the decoded matrices, i.e. the
   * complement of what `mul100` writes for them.
   */
  method Mul100Enc(matA: array<u64>, matB: array<u64>, matC: array<u64>)
    requires matA.Length == Size && matB.Length == Size && matC.Length == Size
    requires matC != matA && matC != matB
    modifies matC
    ensures forall i, j :: 0 <= i < Dim && 0 <= j < Dim ==>
      matC[Idx(i, j)] == OnesComp64.UEncode(Product(Decoded(matA[..]), Decoded(matB[..]), i, j))
  {
    ghost var a, b := Decoded(matA[..]), Decoded(matB[..]);
    var i: u64 := EncZero;
    EncodedConstants();
    EncodedLoopTest(i);
    while OnesComp64.UDecode(OnesComp64.ULess(i, EncDim)) != 0
      invariant OnesComp64.UDecode(i) <= Dim && Decoded(matA[..]) == a && Decoded(matB[..]) == b
      invariant forall p :: 0 <= p < OnesComp64.UDecode(i) * Dim ==>
        matC[p] == OnesComp64.UEncode(Product(a, b, p / Dim, p % Dim))
      decreases Dim - OnesComp64.UDecode(i)
    {
      EncodedLoopTest(i);
      ghost var ii := OnesComp64.UDecode(i);
      var j: u64 := EncZero;
      EncodedLoopTest(j);
      while OnesComp64.UDecode(OnesComp64.ULess(j, EncDim)) != 0
        invariant OnesComp64.UDecode(j) <= Dim && Decoded(matA[..]) == a && Decoded(matB[..]) == b
        invariant forall p :: 0 <= p < ii * Dim + OnesComp64.UDecode(j) ==>
          matC[p] == OnesComp64.UEncode(Product(a, b, p / Dim, p % Dim))
        decreases Dim - OnesComp64.UDecode(j)
      {
        EncodedLoopTest(j);
        ghost var jj := OnesComp64.UDecode(j);
        var sumVal := DotProductEnc(matA, matB, i, j);
        EncodedIndex(i, j);
        matC[OnesComp64.UDecode(OnesComp64.UAdd(OnesComp64.UMul(i, EncDim), j))] := sumVal;
        EncodedIncrement(j);
        j := OnesComp64.UAdd(j, EncOne);
      }
      EncodedLoopTest(j);
      EncodedIncrement(i);
      i := OnesComp64.UAdd(i, EncOne);
    }
    EncodedLoopTest(i);
    forall i, j | 0 <= i < Dim && 0 <= j < Dim
      ensures matC[Idx(i, j)] == OnesComp64.UEncode(Product(a, b, i, j))
    {
      assert Idx(i, j) < Dim * Dim;
    }
  }

  // ---------------------------------------------------------------------------
  // Properties of the product
  // ---------------------------------------------------------------------------

  /** The identity matrix: ones on the diagonal, zeros elsewhere. */
  function Identity(): (m: seq<u64>)
    ensures |m| == Size && forall p :: 0 <= p < Size ==> m[p] == if p / Dim == p % Dim then 1 else 0
  {
    seq(Size, p requires 0 <= p < Size => if p / Dim == p % Dim then 1 else 0)
  }

  lemma {:induction false} DotWithIdentity(a: seq<u64>, i: nat, j: nat, n: nat)
    requires |a| == Size && i < Dim && j < Dim && n <= Dim
    ensures DotPrefix(a, Identity(), i, j, n) == if j < n then a[Idx(i, j)] else 0
  {
    if n > 0 {
      DotWithIdentity(a, i, j, n - 1);
      var e := Identity()[Idx(n - 1, j)];
      assert e == if n - 1 == j then 1 else 0;
    }
  }

  /** Multiplying by the identity matrix gives the matrix back. */
  lemma ProductWithIdentity(a: seq<u64>, i: nat, j: nat)
    requires |a| == Size && i < Dim && j < Dim
    ensures Product(a, Identity(), i, j) == a[Idx(i, j)]
  {
    DotWithIdentity(a, i, j, Dim);
  }

  /** Plain matrices are ones' complement encodings of their complements. */
  lemma DecodedOfEncoded(m: seq<u64>)
    ensures Decoded(seq(|m|, p requires 0 <= p < |m| => OnesComp64.UEncode(m[p]))) == m
  {
  }
}
