# arithmetic-coding-int in Dafny

This project models the integer arithmetic codings of arithmetic-coding-int and
proves what they promise: that computing on encoded values gives the encoding of
the result computed on the plain values. It also models the analyses that
compare the error-detection capability of the codes.

**The codings (`codings/*.h`).** A coding maps a 32- or 64-bit value to a code
word and provides encode, decode and check, and a coded version of every C
operator, signed and unsigned. The model has one module per header:

- **None32 and None64** are the uncoded baseline. Each operator is stated
  against exact integer arithmetic: wrap-around modulo 2^W, C's truncating
  `/` and `%`, and bitwise operations bit by bit. Every other coding is
  proved against these functions.
- **OnesComp32 and OnesComp64** hold `~x`.
- **TwosComp32 and TwosComp64** hold `-x`. For these two codings, each
  coded operator is proved to be a homomorphism: its result is the encoding
  of the native operator applied to the decoded operands. The exceptions
  each have their own line under Left out below:
  - signed Div and Mod, for a dividend that decodes to INT_MIN;
  - for TwosComp, the signed comparisons Less, Grt, Leq and Geq, when exactly one
    operand decodes to INT_MIN;
  - UShr, which is stated only for shift amounts below 31.
- **AN32 and AN64** hold `A * x` in a word of twice the width (A = 58659). The
  homomorphisms hold for valid code words, that is, multiples of A. The
  exceptions are Land and ULand, which are stated as written and listed
  under Findings, and the native operations' own undefined inputs.
  - The module also proves that check accepts exactly those words.
  - AN64 keeps the correction constants of `an_64.h` in a class whose `Init`
    method models `init()`.
- **Residue32 and Residue64** pair a value with its C remainder modulo 18. The
  homomorphisms hold for valid pairs, except for the inputs listed under
  Left out and Findings below:
  - Add and Sub on some inputs that overflow; Mul and Shl are stated only
    for results that do not overflow;
  - Less, Leq and Geq, which are stated as written;
  - Neq, UNeq, Land, ULand and ULor.

  The check arithmetic of add, sub and mul is proved separately to give the
  residue of the wrapped result under the hypotheses its members state. That
  of u_add, u_sub and u_mul is proved for every operand.

**Helpers (`src/helpers/helpers.c`).** Modelled here: the Hamming distance
loops, bit flips, stuck-at bits and the names of the operations.

**DetcapCodes and Detcap (`src/detcap/main.c`).** These model the analysis of
five byte codes: residue, inverse residue, ones' complement, two's complement,
and the separate AN code on 16 bits.
- It computes the histogram of Hamming distances between each value and its
  code word, and the code distance.
- It counts masked faults and silent data corruptions (SDCs) over every
  stuck-at pattern and every bit flip.
- Its loops are methods on arrays. They are proved against counting
  functions, and lemmas give those counts their totals.

**MulValidation (`mul_validation/`).** `mul100` is modelled on plain 64-bit
matrices. `mul100_enc` is the same product with every counter, index and
value in ones' complement. The coded program is proved to store the
encoding of the product of the decoded matrices.

Machine words are integers constrained to their range. Conversions wrap
explicitly, with C's rules for mixed signed and unsigned operands. Undefined
behaviour of C becomes a precondition, or a case about which a member states
nothing:
- division by zero and INT_MIN / -1;
- shifts by the width or more;
- the int `1 << y` of the ones' and two's complement `u_shr`, undefined for
  y >= 31;
- the overflowing `x_c1 + 1` of the ones' complement `div` and `mod` for the
  code of INT_MIN.

## Model

| member | source | states |
|---|---|---|
| None32.Encode | codings/none_32.h:26-38 | encode and decode are the identity: decoding the encoding of x gives x |
| None32.UEncode | codings/none_32.h:30-42 | the unsigned encode and decode are the identity: decoding the encoding of x gives x |
| None32.Add | codings/none_32.h:44-47 | signed `+` is congruent to the exact sum modulo 2^32 (wrap-around) and equals it when it lies in [-2^31, 2^31) |
| None32.Sub | codings/none_32.h:53-56 | signed `-` is congruent to the exact difference modulo 2^32 (wrap-around) and equals it when it lies in [-2^31, 2^31) |
| None32.Mul | codings/none_32.h:62-65 | signed `*` is congruent to the exact product modulo 2^32 (wrap-around) and equals it when it lies in [-2^31, 2^31) |
| None32.UAdd | codings/none_32.h:48-51 | unsigned `+` is congruent to the exact sum modulo 2^32 and equals it when it is below 2^32 |
| None32.USub | codings/none_32.h:57-60 | unsigned `-` is congruent to the exact difference modulo 2^32 and equals it when y <= x |
| None32.UMul | codings/none_32.h:66-69 | unsigned `*` is congruent to the exact product modulo 2^32 and equals it when it is below 2^32 |
| None32.Div | codings/none_32.h:71-74 | signed `/` truncates toward zero: the remainder x - r*y is smaller than y in magnitude and is 0 or has the sign of x; requires a non-zero divisor and excludes -2^31 / -1 (undefined in C) |
| None32.UDiv | codings/none_32.h:75-78 | unsigned `/` is the floor quotient: r*y <= x < r*y + y; requires a non-zero divisor |
| None32.ReverseCheck | codings/none_32.h:75-87 | the reverse check q*y + x%y == x that the coded unsigned divisions rely on holds for every dividend and non-zero divisor |
| None32.Mod | codings/none_32.h:80-83 | signed `%`: smaller than y in magnitude, congruent to x modulo |y|, and 0 or of the sign of x; same requires as Div |
| None32.UMod | codings/none_32.h:84-87 | unsigned `%`: below y and congruent to x modulo y; requires a non-zero divisor |
| None32.Eq | codings/none_32.h:89-92 | the signed comparison yields 0 or 1, and 1 exactly when x == y |
| None32.UEq | codings/none_32.h:93-96 | the unsigned comparison yields 0 or 1, and 1 exactly when x == y |
| None32.Neq | codings/none_32.h:98-101 | the signed comparison yields 0 or 1, and 1 exactly when x != y |
| None32.UNeq | codings/none_32.h:102-105 | the unsigned comparison yields 0 or 1, and 1 exactly when x != y |
| None32.Less | codings/none_32.h:107-110 | the signed comparison yields 0 or 1, and 1 exactly when x < y |
| None32.ULess | codings/none_32.h:111-114 | the unsigned comparison yields 0 or 1, and 1 exactly when x < y |
| None32.Grt | codings/none_32.h:116-119 | the signed comparison yields 0 or 1, and 1 exactly when x > y |
| None32.UGrt | codings/none_32.h:120-123 | the unsigned comparison yields 0 or 1, and 1 exactly when x > y |
| None32.Leq | codings/none_32.h:125-128 | the signed comparison yields 0 or 1, and 1 exactly when x <= y |
| None32.ULeq | codings/none_32.h:129-132 | the unsigned comparison yields 0 or 1, and 1 exactly when x <= y |
| None32.Geq | codings/none_32.h:134-137 | the signed comparison yields 0 or 1, and 1 exactly when x >= y |
| None32.UGeq | codings/none_32.h:138-141 | the unsigned comparison yields 0 or 1, and 1 exactly when x >= y |
| None32.Shl | codings/none_32.h:143-146 | `x << y` is congruent to x * 2^y modulo 2^32; requires 0 <= y < 32 (other shift amounts are undefined in C) |
| None32.UShl | codings/none_32.h:147-150 | unsigned `x << y` is congruent to x * 2^y modulo 2^32; requires y < 32 |
| None32.UShr | codings/none_32.h:154-157 | the unsigned right shift of this header is a stub that returns 0 for every operand |
| None32.UShrStubDiffers | codings/none_32.h:154-157 | u_shr(2, 1) returns 0 where 2 >> 1 is 1 |
| None32.UShrCorrected | codings/none_32.h:154-157 | the right shift the stub stands for: r * 2^y <= x < (r + 1) * 2^y; requires y < 32 |
| None32.Land | codings/none_32.h:159-162 | `x && y` yields 0 or 1, and 1 exactly when both operands are non-zero |
| None32.ULand | codings/none_32.h:163-166 | unsigned `&&` yields 0 or 1, and 1 exactly when both operands are non-zero |
| None32.Lor | codings/none_32.h:168-171 | `x || y` yields 0 or 1, and 1 exactly when an operand is non-zero |
| None32.ULor | codings/none_32.h:172-175 | unsigned `||` yields 0 or 1, and 1 exactly when an operand is non-zero |
| None32.AndBits | codings/none_32.h:177-180 | each of the 32 bits of `x & y` (two's-complement pattern) is the and of the operands' bits |
| None32.UAndBits | codings/none_32.h:181-184 | each of the 32 bits of unsigned `x & y` is the and of the operands' bits |
| None32.OrBits | codings/none_32.h:186-189 | each of the 32 bits of `x | y` is the or of the operands' bits |
| None32.UOrBits | codings/none_32.h:190-193 | each of the 32 bits of unsigned `x | y` is the or of the operands' bits |
| None32.ComplementAnd | codings/none_32.h:181-184 | De Morgan on unsigned words: the complement of (~x | ~y) is x & y |
| None32.ComplementOr | codings/none_32.h:190-193 | De Morgan on unsigned words: the complement of (~x & ~y) is x | y |
| None32.NegBits | codings/none_32.h:195-198 | `~x` flips each of the 32 bits of x |
| None32.UNegBits | codings/none_32.h:199-202 | unsigned `~x` flips each of the 32 bits of x |
| None32.XorBits | codings/none_32.h:204-207 | each of the 32 bits of `x ^ y` is set exactly when the operands' bits differ |
| None32.UXorBits | codings/none_32.h:208-211 | each of the 32 bits of unsigned `x ^ y` is set exactly when the operands' bits differ |
| None64.Encode | codings/none_64.h:26-38 | encode and decode are the identity: decoding the encoding of x gives x |
| None64.UEncode | codings/none_64.h:30-42 | the unsigned encode and decode are the identity: decoding the encoding of x gives x |
| None64.Add | codings/none_64.h:44-47 | signed `+` is congruent to the exact sum modulo 2^64 (wrap-around) and equals it when it lies in [-2^63, 2^63) |
| None64.Sub | codings/none_64.h:53-56 | signed `-` is congruent to the exact difference modulo 2^64 (wrap-around) and equals it when it lies in [-2^63, 2^63) |
| None64.Mul | codings/none_64.h:62-65 | signed `*` is congruent to the exact product modulo 2^64 (wrap-around) and equals it when it lies in [-2^63, 2^63) |
| None64.UAdd | codings/none_64.h:48-51 | unsigned `+` is congruent to the exact sum modulo 2^64 and equals it when it is below 2^64 |
| None64.USub | codings/none_64.h:57-60 | unsigned `-` is congruent to the exact difference modulo 2^64 and equals it when y <= x |
| None64.UMul | codings/none_64.h:66-69 | unsigned `*` is congruent to the exact product modulo 2^64 and equals it when it is below 2^64 |
| None64.Div | codings/none_64.h:71-74 | signed `/` truncates toward zero: the remainder x - r*y is smaller than y in magnitude and is 0 or has the sign of x; requires a non-zero divisor and excludes -2^63 / -1 (undefined in C) |
| None64.UDiv | codings/none_64.h:75-78 | unsigned `/` is the floor quotient: r*y <= x < r*y + y; requires a non-zero divisor |
| None64.ReverseCheck | codings/none_64.h:75-87 | the reverse check q*y + x%y == x that the coded unsigned divisions rely on holds for every dividend and non-zero divisor |
| None64.Mod | codings/none_64.h:80-83 | signed `%`: smaller than y in magnitude, congruent to x modulo |y|, and 0 or of the sign of x; same requires as Div |
| None64.UMod | codings/none_64.h:84-87 | unsigned `%`: below y and congruent to x modulo y; requires a non-zero divisor |
| None64.Eq | codings/none_64.h:89-92 | the signed comparison yields 0 or 1, and 1 exactly when x == y |
| None64.UEq | codings/none_64.h:93-96 | the unsigned comparison yields 0 or 1, and 1 exactly when x == y |
| None64.Neq | codings/none_64.h:98-101 | the signed comparison yields 0 or 1, and 1 exactly when x != y |
| None64.UNeq | codings/none_64.h:102-105 | the unsigned comparison yields 0 or 1, and 1 exactly when x != y |
| None64.Less | codings/none_64.h:107-110 | the signed comparison yields 0 or 1, and 1 exactly when x < y |
| None64.ULess | codings/none_64.h:111-114 | the unsigned comparison yields 0 or 1, and 1 exactly when x < y |
| None64.Grt | codings/none_64.h:116-119 | the signed comparison yields 0 or 1, and 1 exactly when x > y |
| None64.UGrt | codings/none_64.h:120-123 | the unsigned comparison yields 0 or 1, and 1 exactly when x > y |
| None64.Leq | codings/none_64.h:125-128 | the signed comparison yields 0 or 1, and 1 exactly when x <= y |
| None64.ULeq | codings/none_64.h:129-132 | the unsigned comparison yields 0 or 1, and 1 exactly when x <= y |
| None64.Geq | codings/none_64.h:134-137 | the signed comparison yields 0 or 1, and 1 exactly when x >= y |
| None64.UGeq | codings/none_64.h:138-141 | the unsigned comparison yields 0 or 1, and 1 exactly when x >= y |
| None64.Shl | codings/none_64.h:143-146 | `x << y` is congruent to x * 2^y modulo 2^64; requires 0 <= y < 64 (other shift amounts are undefined in C) |
| None64.UShl | codings/none_64.h:147-150 | unsigned `x << y` is congruent to x * 2^y modulo 2^64; requires y < 64 |
| None64.UShr | codings/none_64.h:154-157 | the unsigned right shift of this header is a stub that returns 0 for every operand |
| None64.UShrStubDiffers | codings/none_64.h:154-157 | u_shr(2, 1) returns 0 where 2 >> 1 is 1 |
| None64.UShrCorrected | codings/none_64.h:154-157 | the right shift the stub stands for: r * 2^y <= x < (r + 1) * 2^y; requires y < 64 |
| None64.Land | codings/none_64.h:159-162 | `x && y` yields 0 or 1, and 1 exactly when both operands are non-zero |
| None64.ULand | codings/none_64.h:163-166 | unsigned `&&` yields 0 or 1, and 1 exactly when both operands are non-zero |
| None64.Lor | codings/none_64.h:168-171 | `x || y` yields 0 or 1, and 1 exactly when an operand is non-zero |
| None64.ULor | codings/none_64.h:172-175 | unsigned `||` yields 0 or 1, and 1 exactly when an operand is non-zero |
| None64.AndBits | codings/none_64.h:177-180 | each of the 64 bits of `x & y` (two's-complement pattern) is the and of the operands' bits |
| None64.UAndBits | codings/none_64.h:181-184 | each of the 64 bits of unsigned `x & y` is the and of the operands' bits |
| None64.OrBits | codings/none_64.h:186-189 | each of the 64 bits of `x | y` is the or of the operands' bits |
| None64.UOrBits | codings/none_64.h:190-193 | each of the 64 bits of unsigned `x | y` is the or of the operands' bits |
| None64.ComplementAnd | codings/none_64.h:181-184 | De Morgan on unsigned words: the complement of (~x | ~y) is x & y |
| None64.ComplementOr | codings/none_64.h:190-193 | De Morgan on unsigned words: the complement of (~x & ~y) is x | y |
| None64.NegBits | codings/none_64.h:195-198 | `~x` flips each of the 64 bits of x |
| None64.UNegBits | codings/none_64.h:199-202 | unsigned `~x` flips each of the 64 bits of x |
| None64.XorBits | codings/none_64.h:204-207 | each of the 64 bits of `x ^ y` is set exactly when the operands' bits differ |
| None64.UXorBits | codings/none_64.h:208-211 | each of the 64 bits of unsigned `x ^ y` is set exactly when the operands' bits differ |
| OnesComp32.Encode | codings/ones_comp_32.h:34-38 | the encoding `~x` decodes back to x, and each of its bits is the complement of the bit of x |
| OnesComp32.UEncode | codings/ones_comp_32.h:39-43 | the unsigned encoding `~x` decodes back to x, and each of its bits is the complement of the bit of x |
| OnesComp32.Decode | codings/ones_comp_32.h:45-49 | decoding complements each bit of the code word |
| OnesComp32.UDecode | codings/ones_comp_32.h:50-54 | unsigned decoding complements each bit of the code word |
| OnesComp32.EveryWordIsACode | codings/ones_comp_32.h:34-54 | every word, signed or unsigned, is the encoding of its decoded value (no word is an invalid code) |
| OnesComp32.Check | codings/ones_comp_32.h:55-58 | check holds exactly when valc is the encoding of val |
| OnesComp32.UCheck | codings/ones_comp_32.h:59-62 | the unsigned check holds exactly when valc is the encoding of val |
| OnesComp32.Add | codings/ones_comp_32.h:64-68 | the result is the encoding of the native signed sum (None32.Add) of the decoded operands |
| OnesComp32.UAdd | codings/ones_comp_32.h:69-73 | the result is the encoding of the native unsigned sum (None32.UAdd) of the decoded operands |
| OnesComp32.Sub | codings/ones_comp_32.h:75-79 | the result is the encoding of the native signed difference (None32.Sub) of the decoded operands |
| OnesComp32.USub | codings/ones_comp_32.h:80-84 | the result is the encoding of the native unsigned difference (None32.USub) of the decoded operands |
| OnesComp32.Mul | codings/ones_comp_32.h:86-90 | the result is the encoding of the native signed product (None32.Mul) of the decoded operands |
| OnesComp32.UMul | codings/ones_comp_32.h:91-95 | the result is the encoding of the native unsigned product (None32.UMul) of the decoded operands |
| OnesComp32.Div | codings/ones_comp_32.h:97-100 | when the dividend does not decode to -2^31, the result is the encoding of the native signed quotient (None32.Div) of the decoded operands; requires C's conditions for the division the code performs (no divisor code ~0, no MIN / -1 on the incremented codes) |
| OnesComp32.UDiv | codings/ones_comp_32.h:102-113 | the result is the encoding of the native unsigned quotient (None32.UDiv) of the decoded operands (the reverse check always passes, so the error path is never taken); requires a non-zero decoded divisor |
| OnesComp32.Mod | codings/ones_comp_32.h:115-119 | when the dividend does not decode to -2^31, the result is the encoding of the native signed remainder (None32.Mod) of the decoded operands; same requires as Div |
| OnesComp32.UMod | codings/ones_comp_32.h:120-131 | the encoding of the native unsigned remainder of the decoded operands; requires a non-zero decoded divisor |
| OnesComp32.Eq | codings/ones_comp_32.h:133-136 | the result is the encoding of the native signed `==` (None32.Eq) of the decoded operands |
| OnesComp32.UEq | codings/ones_comp_32.h:137-140 | the result is the encoding of the native unsigned `==` (None32.UEq) of the decoded operands |
| OnesComp32.Neq | codings/ones_comp_32.h:142-145 | the result is the encoding of the native signed `!=` (None32.Neq) of the decoded operands |
| OnesComp32.UNeq | codings/ones_comp_32.h:146-149 | the result is the encoding of the native unsigned `!=` (None32.UNeq) of the decoded operands |
| OnesComp32.Less | codings/ones_comp_32.h:151-154 | the result is the encoding of the native signed `<` (None32.Less) of the decoded operands |
| OnesComp32.ULess | codings/ones_comp_32.h:155-158 | the result is the encoding of the native unsigned `<` (None32.ULess) of the decoded operands |
| OnesComp32.Grt | codings/ones_comp_32.h:160-163 | the result is the encoding of the native signed `>` (None32.Grt) of the decoded operands |
| OnesComp32.UGrt | codings/ones_comp_32.h:164-167 | the result is the encoding of the native unsigned `>` (None32.UGrt) of the decoded operands |
| OnesComp32.Leq | codings/ones_comp_32.h:169-172 | the result is the encoding of the native signed `<=` (None32.Leq) of the decoded operands |
| OnesComp32.ULeq | codings/ones_comp_32.h:173-176 | the result is the encoding of the native unsigned `<=` (None32.ULeq) of the decoded operands |
| OnesComp32.Geq | codings/ones_comp_32.h:178-181 | the result is the encoding of the native signed `>=` (None32.Geq) of the decoded operands |
| OnesComp32.UGeq | codings/ones_comp_32.h:182-185 | the result is the encoding of the native unsigned `>=` (None32.UGeq) of the decoded operands |
| OnesComp32.Shl | codings/ones_comp_32.h:187-192 | the result is the encoding of the native signed left shift (None32.Shl) of the decoded operands; requires a decoded shift amount in 0..31 |
| OnesComp32.UShl | codings/ones_comp_32.h:193-198 | the result is the encoding of the native unsigned left shift (None32.UShl) of the decoded operands; requires a decoded shift amount below 32 |
| OnesComp32.UShr | codings/ones_comp_32.h:203-208 | u_div by `~(1 << y)` is the encoding of x >> y (the corrected shift of None32); requires y < 31, because `1 << y` is computed on a signed int |
| OnesComp32.Land | codings/ones_comp_32.h:210-213 | the result is the encoding of the native signed `&&` (None32.Land) of the decoded operands |
| OnesComp32.ULand | codings/ones_comp_32.h:214-217 | the result is the encoding of the native unsigned `&&` (None32.ULand) of the decoded operands |
| OnesComp32.Lor | codings/ones_comp_32.h:219-222 | the result is the encoding of the native signed `||` (None32.Lor) of the decoded operands |
| OnesComp32.ULor | codings/ones_comp_32.h:223-226 | the result is the encoding of the native unsigned `||` (None32.ULor) of the decoded operands |
| OnesComp32.And | codings/ones_comp_32.h:228-231 | the result is the encoding of the native signed bitwise and (None32.And) of the decoded operands |
| OnesComp32.UAnd | codings/ones_comp_32.h:233-236 | the result is the encoding of the native unsigned bitwise and (None32.UAnd) of the decoded operands |
| OnesComp32.Or | codings/ones_comp_32.h:238-241 | the result is the encoding of the native signed bitwise or (None32.Or) of the decoded operands |
| OnesComp32.UOr | codings/ones_comp_32.h:242-245 | the result is the encoding of the native unsigned bitwise or (None32.UOr) of the decoded operands |
| OnesComp32.Neg | codings/ones_comp_32.h:247-251 | the result is the encoding of the native signed bitwise complement (None32.Neg) of the decoded operand |
| OnesComp32.UNeg | codings/ones_comp_32.h:252-255 | the result is the encoding of the native unsigned bitwise complement (None32.UNeg) of the decoded operand |
| OnesComp32.Xor | codings/ones_comp_32.h:257-260 | the result is the encoding of the native signed bitwise xor (None32.Xor) of the decoded operands |
| OnesComp32.UXor | codings/ones_comp_32.h:261-264 | the result is the encoding of the native unsigned bitwise xor (None32.UXor) of the decoded operands |
| OnesComp32.DivideDecoded | codings/ones_comp_32.h:97-119 | the incremented codes x_c1 + 1 and y_c1 + 1 are -x and -y, so their quotient is the quotient of the values and their remainder the negated remainder, for x other than -2^31 |
| OnesComp32.OrOfCodes | codings/ones_comp_32.h:228-231 | or of two code words is the encoding of the and of their values |
| OnesComp32.AndOfCodes | codings/ones_comp_32.h:238-241 | and of two code words is the encoding of the or of their values |
| OnesComp64.Encode | codings/ones_comp_64.h:34-38 | the encoding `~x` decodes back to x, and each of its bits is the complement of the bit of x |
| OnesComp64.UEncode | codings/ones_comp_64.h:39-43 | the unsigned encoding `~x` decodes back to x, and each of its bits is the complement of the bit of x |
| OnesComp64.Decode | codings/ones_comp_64.h:45-49 | decoding complements each bit of the code word |
| OnesComp64.UDecode | codings/ones_comp_64.h:50-54 | unsigned decoding complements each bit of the code word |
| OnesComp64.EveryWordIsACode | codings/ones_comp_64.h:34-54 | every word, signed or unsigned, is the encoding of its decoded value (no word is an invalid code) |
| OnesComp64.Check | codings/ones_comp_64.h:55-58 | check holds exactly when valc is the encoding of val |
| OnesComp64.UCheck | codings/ones_comp_64.h:59-62 | the unsigned check holds exactly when valc is the encoding of val |
| OnesComp64.Add | codings/ones_comp_64.h:64-68 | the result is the encoding of the native signed sum (None64.Add) of the decoded operands |
| OnesComp64.UAdd | codings/ones_comp_64.h:69-73 | the result is the encoding of the native unsigned sum (None64.UAdd) of the decoded operands |
| OnesComp64.Sub | codings/ones_comp_64.h:75-79 | the result is the encoding of the native signed difference (None64.Sub) of the decoded operands |
| OnesComp64.USub | codings/ones_comp_64.h:80-84 | the result is the encoding of the native unsigned difference (None64.USub) of the decoded operands |
| OnesComp64.Mul | codings/ones_comp_64.h:86-90 | the result is the encoding of the native signed product (None64.Mul) of the decoded operands |
| OnesComp64.UMul | codings/ones_comp_64.h:91-95 | the result is the encoding of the native unsigned product (None64.UMul) of the decoded operands |
| OnesComp64.Div | codings/ones_comp_64.h:97-100 | when the dividend does not decode to -2^63, the result is the encoding of the native signed quotient (None64.Div) of the decoded operands; requires C's conditions for the division the code performs (no divisor code ~0, no MIN / -1 on the incremented codes) |
| OnesComp64.UDiv | codings/ones_comp_64.h:102-113 | the result is the encoding of the native unsigned quotient (None64.UDiv) of the decoded operands (the reverse check always passes, so the error path is never taken); requires a non-zero decoded divisor |
| OnesComp64.Mod | codings/ones_comp_64.h:115-119 | when the dividend does not decode to -2^63, the result is the encoding of the native signed remainder (None64.Mod) of the decoded operands; same requires as Div |
| OnesComp64.UMod | codings/ones_comp_64.h:120-132 | the encoding of the native unsigned remainder of the decoded operands; requires a non-zero decoded divisor |
| OnesComp64.Eq | codings/ones_comp_64.h:134-137 | the result is the encoding of the native signed `==` (None64.Eq) of the decoded operands |
| OnesComp64.UEq | codings/ones_comp_64.h:138-141 | the result is the encoding of the native unsigned `==` (None64.UEq) of the decoded operands |
| OnesComp64.Neq | codings/ones_comp_64.h:143-146 | the result is the encoding of the native signed `!=` (None64.Neq) of the decoded operands |
| OnesComp64.UNeq | codings/ones_comp_64.h:147-150 | the result is the encoding of the native unsigned `!=` (None64.UNeq) of the decoded operands |
| OnesComp64.Less | codings/ones_comp_64.h:152-155 | the result is the encoding of the native signed `<` (None64.Less) of the decoded operands |
| OnesComp64.ULess | codings/ones_comp_64.h:156-159 | the result is the encoding of the native unsigned `<` (None64.ULess) of the decoded operands |
| OnesComp64.Grt | codings/ones_comp_64.h:161-164 | the result is the encoding of the native signed `>` (None64.Grt) of the decoded operands |
| OnesComp64.UGrt | codings/ones_comp_64.h:165-168 | the result is the encoding of the native unsigned `>` (None64.UGrt) of the decoded operands |
| OnesComp64.Leq | codings/ones_comp_64.h:170-173 | the result is the encoding of the native signed `<=` (None64.Leq) of the decoded operands |
| OnesComp64.ULeq | codings/ones_comp_64.h:174-177 | the result is the encoding of the native unsigned `<=` (None64.ULeq) of the decoded operands |
| OnesComp64.Geq | codings/ones_comp_64.h:179-182 | the result is the encoding of the native signed `>=` (None64.Geq) of the decoded operands |
| OnesComp64.UGeq | codings/ones_comp_64.h:183-186 | the result is the encoding of the native unsigned `>=` (None64.UGeq) of the decoded operands |
| OnesComp64.Shl | codings/ones_comp_64.h:188-193 | the result is the encoding of the native signed left shift (None64.Shl) of the decoded operands; requires a decoded shift amount in 0..63 |
| OnesComp64.UShl | codings/ones_comp_64.h:194-199 | the result is the encoding of the native unsigned left shift (None64.UShl) of the decoded operands; requires a decoded shift amount below 64 |
| OnesComp64.UShr | codings/ones_comp_64.h:204-209 | u_div by `~(1 << y)` is the encoding of x >> y (the corrected shift of None64); requires y < 31, because `1 << y` is computed on a signed int |
| OnesComp64.Land | codings/ones_comp_64.h:211-214 | the result is the encoding of the native signed `&&` (None64.Land) of the decoded operands |
| OnesComp64.ULand | codings/ones_comp_64.h:215-218 | the result is the encoding of the native unsigned `&&` (None64.ULand) of the decoded operands |
| OnesComp64.Lor | codings/ones_comp_64.h:220-223 | the result is the encoding of the native signed `||` (None64.Lor) of the decoded operands |
| OnesComp64.ULor | codings/ones_comp_64.h:224-227 | the result is the encoding of the native unsigned `||` (None64.ULor) of the decoded operands |
| OnesComp64.And | codings/ones_comp_64.h:229-232 | the result is the encoding of the native signed bitwise and (None64.And) of the decoded operands |
| OnesComp64.UAnd | codings/ones_comp_64.h:234-237 | the result is the encoding of the native unsigned bitwise and (None64.UAnd) of the decoded operands |
| OnesComp64.Or | codings/ones_comp_64.h:239-242 | the result is the encoding of the native signed bitwise or (None64.Or) of the decoded operands |
| OnesComp64.UOr | codings/ones_comp_64.h:243-246 | the result is the encoding of the native unsigned bitwise or (None64.UOr) of the decoded operands |
| OnesComp64.Neg | codings/ones_comp_64.h:248-252 | the result is the encoding of the native signed bitwise complement (None64.Neg) of the decoded operand |
| OnesComp64.UNeg | codings/ones_comp_64.h:253-256 | the result is the encoding of the native unsigned bitwise complement (None64.UNeg) of the decoded operand |
| OnesComp64.Xor | codings/ones_comp_64.h:258-261 | the result is the encoding of the native signed bitwise xor (None64.Xor) of the decoded operands |
| OnesComp64.UXor | codings/ones_comp_64.h:262-265 | the result is the encoding of the native unsigned bitwise xor (None64.UXor) of the decoded operands |
| OnesComp64.DivideDecoded | codings/ones_comp_64.h:97-119 | the incremented codes x_c1 + 1 and y_c1 + 1 are -x and -y, so their quotient is the quotient of the values and their remainder the negated remainder, for x other than -2^63 |
| OnesComp64.OrOfCodes | codings/ones_comp_64.h:229-232 | or of two code words is the encoding of the and of their values |
| OnesComp64.AndOfCodes | codings/ones_comp_64.h:239-242 | and of two code words is the encoding of the or of their values |
| TwosComp32.Encode | codings/twos_comp_32.h:37-41 | the encoding -x decodes back to x; it is -x, except that -2^31 encodes to itself |
| TwosComp32.UEncode | codings/twos_comp_32.h:42-46 | the unsigned encoding decodes back to x; it is 2^32 - x, and 0 for 0 |
| TwosComp32.Decode | codings/twos_comp_32.h:48-52 | decoding negates the code word, except that -2^31 decodes to itself |
| TwosComp32.UDecode | codings/twos_comp_32.h:53-57 | unsigned decoding is 2^32 - x_c1, and 0 for 0 |
| TwosComp32.Negation | codings/twos_comp_32.h:37-52 | the C expressions `-1 * x` and `x * -1` wrap to -x, and to -2^31 for -2^31 |
| TwosComp32.UNegation | codings/twos_comp_32.h:42-57 | the C expression `x * 2^32-1` wraps to 2^32 - x, and to 0 for 0 |
| TwosComp32.EncodingIsProduct | codings/twos_comp_32.h:37-57 | Encode, UEncode, Decode and UDecode are the products that the header computes |
| TwosComp32.EveryWordIsACode | codings/twos_comp_32.h:37-57 | every word, signed or unsigned, is the encoding of its decoded value |
| TwosComp32.FixedPoints | codings/twos_comp_32.h:37-46 | a value equals its own encoding exactly when it is 0 or -2^31 (signed), 0 or 2^31 (unsigned) |
| TwosComp32.Check | codings/twos_comp_32.h:59-62 | check holds exactly when valc is the encoding of val |
| TwosComp32.UCheck | codings/twos_comp_32.h:63-66 | the unsigned check holds exactly when valc is the encoding of val |
| TwosComp32.Add | codings/twos_comp_32.h:68-72 | the result is the encoding of the native signed sum (None32.Add) of the decoded operands |
| TwosComp32.UAdd | codings/twos_comp_32.h:73-77 | the result is the encoding of the native unsigned sum (None32.UAdd) of the decoded operands |
| TwosComp32.Sub | codings/twos_comp_32.h:79-83 | the result is the encoding of the native signed difference (None32.Sub) of the decoded operands |
| TwosComp32.USub | codings/twos_comp_32.h:84-88 | the result is the encoding of the native unsigned difference (None32.USub) of the decoded operands |
| TwosComp32.Mul | codings/twos_comp_32.h:90-94 | the result is the encoding of the native signed product (None32.Mul) of the decoded operands |
| TwosComp32.UMul | codings/twos_comp_32.h:95-99 | the result is the encoding of the native unsigned product (None32.UMul) of the decoded operands |
| TwosComp32.Div | codings/twos_comp_32.h:101-105 | when the dividend does not decode to -2^31, the result is the encoding of the native signed quotient (None32.Div) of the decoded operands; requires C's conditions for the division of the codes |
| TwosComp32.UDiv | codings/twos_comp_32.h:106-117 | the result is the encoding of the native unsigned quotient (None32.UDiv) of the decoded operands; requires a non-zero decoded divisor |
| TwosComp32.Mod | codings/twos_comp_32.h:119-123 | when the dividend does not decode to -2^31, the result is the encoding of the native signed remainder (None32.Mod) of the decoded operands; same requires as Div |
| TwosComp32.UMod | codings/twos_comp_32.h:124-135 | the result is the encoding of the native unsigned remainder (None32.UMod) of the decoded operands; requires a non-zero decoded divisor |
| TwosComp32.Eq | codings/twos_comp_32.h:137-144 | the result is the encoding of the native signed `==` (None32.Eq) of the decoded operands |
| TwosComp32.UEq | codings/twos_comp_32.h:145-152 | the result is the encoding of the native unsigned `==` (None32.UEq) of the decoded operands |
| TwosComp32.Neq | codings/twos_comp_32.h:154-161 | the result is the encoding of the native signed `!=` (None32.Neq) of the decoded operands |
| TwosComp32.UNeq | codings/twos_comp_32.h:162-169 | the result is the encoding of the native unsigned `!=` (None32.UNeq) of the decoded operands |
| TwosComp32.Less | codings/twos_comp_32.h:171-178 | the result is the encoding of the native `<` of the decoded operands if and only if both or neither of them decodes to -2^31 |
| TwosComp32.ULess | codings/twos_comp_32.h:179-195 | the result is the encoding of the native unsigned `<` (None32.ULess) of the decoded operands |
| TwosComp32.Grt | codings/twos_comp_32.h:197-204 | the result is the encoding of the native `>` of the decoded operands if and only if both or neither of them decodes to -2^31 |
| TwosComp32.UGrt | codings/twos_comp_32.h:205-225 | the result is the encoding of the native unsigned `>` (None32.UGrt) of the decoded operands |
| TwosComp32.Leq | codings/twos_comp_32.h:227-234 | the result is the encoding of the native `<=` of the decoded operands if and only if both or neither of them decodes to -2^31 |
| TwosComp32.ULeq | codings/twos_comp_32.h:235-255 | the result is the encoding of the native unsigned `<=` (None32.ULeq) of the decoded operands |
| TwosComp32.Geq | codings/twos_comp_32.h:257-264 | the result is the encoding of the native `>=` of the decoded operands if and only if both or neither of them decodes to -2^31 |
| TwosComp32.UGeq | codings/twos_comp_32.h:265-285 | the result is the encoding of the native unsigned `>=` (None32.UGeq) of the decoded operands |
| TwosComp32.Shl | codings/twos_comp_32.h:287-292 | the result is the encoding of the native signed left shift (None32.Shl) of the decoded operands; requires a decoded shift amount in 0..31 |
| TwosComp32.UShl | codings/twos_comp_32.h:293-298 | the result is the encoding of the native unsigned left shift (None32.UShl) of the decoded operands; requires a decoded shift amount below 32 |
| TwosComp32.UShr | codings/twos_comp_32.h:303-308 | the encoding of x >> y (the corrected shift of None32) for a decoded shift amount y < 31 |
| TwosComp32.Land | codings/twos_comp_32.h:310-313 | the result is the encoding of the native signed `&&` (None32.Land) of the decoded operands |
| TwosComp32.ULand | codings/twos_comp_32.h:314-317 | the result is the encoding of the native unsigned `&&` (None32.ULand) of the decoded operands |
| TwosComp32.Lor | codings/twos_comp_32.h:319-322 | the result is the encoding of the native signed `||` (None32.Lor) of the decoded operands |
| TwosComp32.ULor | codings/twos_comp_32.h:323-326 | the result is the encoding of the native unsigned `||` (None32.ULor) of the decoded operands |
| TwosComp32.And | codings/twos_comp_32.h:328-336 | the result is the encoding of the native signed bitwise and (None32.And) of the decoded operands |
| TwosComp32.UAnd | codings/twos_comp_32.h:337-345 | the result is the encoding of the native unsigned bitwise and (None32.UAnd) of the decoded operands |
| TwosComp32.Or | codings/twos_comp_32.h:347-355 | the result is the encoding of the native signed bitwise or (None32.Or) of the decoded operands |
| TwosComp32.UOr | codings/twos_comp_32.h:356-364 | the result is the encoding of the native unsigned bitwise or (None32.UOr) of the decoded operands |
| TwosComp32.Neg | codings/twos_comp_32.h:366-370 | the result is the encoding of the native signed bitwise complement (None32.Neg) of the decoded operand |
| TwosComp32.UNeg | codings/twos_comp_32.h:371-375 | the result is the encoding of the native unsigned bitwise complement (None32.UNeg) of the decoded operand |
| TwosComp32.Xor | codings/twos_comp_32.h:377-387 | the result is the encoding of the native signed bitwise xor (None32.Xor) of the decoded operands |
| TwosComp32.UXor | codings/twos_comp_32.h:388-398 | the result is the encoding of the native unsigned bitwise xor (None32.UXor) of the decoded operands |
| TwosComp32.UMulEncodes | codings/twos_comp_32.h:95-99 | the wrapped product x_c1 * y_c1 * 2^32-1 of u_mul is the encoding of the native product of the decoded operands |
| TwosComp32.DivideNegated | codings/twos_comp_32.h:101-123 | for a dividend other than -2^31, the quotient of the code words is the quotient of the values and their remainder the negated remainder |
| TwosComp32.DivOfMinDiffers | codings/twos_comp_32.h:101-105 | div of the codes of -2^31 and 2 decodes to 2^30, where the native quotient is -2^30 |
| TwosComp32.ModOfMinDiffers | codings/twos_comp_32.h:119-123 | mod of the codes of -2^31 and 3 decodes to 2, where the native remainder is -2 |
| TwosComp32.OrderOfNegations | codings/twos_comp_32.h:171-234 | negation reverses the order of two values unless exactly one of them is -2^31, in which case it keeps it |
| TwosComp32.EncodedTruth | codings/twos_comp_32.h:137-152 | the encoding of a truth value b is -b (signed) and b * 2^32-1 (unsigned) |
| TwosComp32.ShiftDivisor | codings/twos_comp_32.h:303-308 | for y < 31, `1 << y` fits a signed int and its product by the all-ones word is the encoding of 2^y |
| TwosComp64.Encode | codings/twos_comp_64.h:37-41 | the encoding -x decodes back to x; it is -x, except that -2^63 encodes to itself |
| TwosComp64.UEncode | codings/twos_comp_64.h:42-46 | the unsigned encoding decodes back to x; it is 2^64 - x, and 0 for 0 |
| TwosComp64.Decode | codings/twos_comp_64.h:48-52 | decoding negates the code word, except that -2^63 decodes to itself |
| TwosComp64.UDecode | codings/twos_comp_64.h:53-57 | unsigned decoding is 2^64 - x_c1, and 0 for 0 |
| TwosComp64.Negation | codings/twos_comp_64.h:37-52 | the C expressions `-1 * x` and `x * -1` wrap to -x, and to -2^63 for -2^63 |
| TwosComp64.UNegation | codings/twos_comp_64.h:42-57 | the C expression `x * 2^64-1` wraps to 2^64 - x, and to 0 for 0 |
| TwosComp64.EncodingIsProduct | codings/twos_comp_64.h:37-57 | Encode, UEncode, Decode and UDecode are the products that the header computes |
| TwosComp64.EveryWordIsACode | codings/twos_comp_64.h:37-57 | every word, signed or unsigned, is the encoding of its decoded value |
| TwosComp64.FixedPoints | codings/twos_comp_64.h:37-46 | a value equals its own encoding exactly when it is 0 or -2^63 (signed), 0 or 2^63 (unsigned) |
| TwosComp64.Check | codings/twos_comp_64.h:59-62 | check holds exactly when valc is the encoding of val |
| TwosComp64.UCheck | codings/twos_comp_64.h:63-66 | the unsigned check holds exactly when valc is the encoding of val |
| TwosComp64.Add | codings/twos_comp_64.h:68-72 | the result is the encoding of the native signed sum (None64.Add) of the decoded operands |
| TwosComp64.UAdd | codings/twos_comp_64.h:73-77 | the result is the encoding of the native unsigned sum (None64.UAdd) of the decoded operands |
| TwosComp64.Sub | codings/twos_comp_64.h:79-83 | the result is the encoding of the native signed difference (None64.Sub) of the decoded operands |
| TwosComp64.USub | codings/twos_comp_64.h:84-88 | the result is the encoding of the native unsigned difference (None64.USub) of the decoded operands |
| TwosComp64.Mul | codings/twos_comp_64.h:90-94 | the result is the encoding of the native signed product (None64.Mul) of the decoded operands |
| TwosComp64.UMul | codings/twos_comp_64.h:95-99 | the result is the encoding of the native unsigned product (None64.UMul) of the decoded operands |
| TwosComp64.Div | codings/twos_comp_64.h:101-105 | when the dividend does not decode to -2^63, the result is the encoding of the native signed quotient (None64.Div) of the decoded operands; requires C's conditions for the division of the codes |
| TwosComp64.UDiv | codings/twos_comp_64.h:106-117 | the result is the encoding of the native unsigned quotient (None64.UDiv) of the decoded operands; requires a non-zero decoded divisor |
| TwosComp64.Mod | codings/twos_comp_64.h:119-123 | when the dividend does not decode to -2^63, the result is the encoding of the native signed remainder (None64.Mod) of the decoded operands; same requires as Div |
| TwosComp64.UMod | codings/twos_comp_64.h:124-135 | the result is the encoding of the native unsigned remainder (None64.UMod) of the decoded operands; requires a non-zero decoded divisor |
| TwosComp64.Eq | codings/twos_comp_64.h:137-144 | the result is the encoding of the native signed `==` (None64.Eq) of the decoded operands |
| TwosComp64.UEq | codings/twos_comp_64.h:145-152 | the result is the encoding of the native unsigned `==` (None64.UEq) of the decoded operands |
| TwosComp64.Neq | codings/twos_comp_64.h:154-161 | the result is the encoding of the native signed `!=` (None64.Neq) of the decoded operands |
| TwosComp64.UNeq | codings/twos_comp_64.h:162-169 | the result is the encoding of the native unsigned `!=` (None64.UNeq) of the decoded operands |
| TwosComp64.Less | codings/twos_comp_64.h:171-178 | the result is the encoding of the native `<` of the decoded operands if and only if both or neither of them decodes to -2^63 |
| TwosComp64.ULess | codings/twos_comp_64.h:179-195 | the result is the encoding of the native unsigned `<` (None64.ULess) of the decoded operands |
| TwosComp64.Grt | codings/twos_comp_64.h:197-204 | the result is the encoding of the native `>` of the decoded operands if and only if both or neither of them decodes to -2^63 |
| TwosComp64.UGrt | codings/twos_comp_64.h:205-225 | the result is the encoding of the native unsigned `>` (None64.UGrt) of the decoded operands |
| TwosComp64.Leq | codings/twos_comp_64.h:227-234 | the result is the encoding of the native `<=` of the decoded operands if and only if both or neither of them decodes to -2^63 |
| TwosComp64.ULeq | codings/twos_comp_64.h:235-255 | the result is the encoding of the native unsigned `<=` (None64.ULeq) of the decoded operands |
| TwosComp64.Geq | codings/twos_comp_64.h:257-264 | the result is the encoding of the native `>=` of the decoded operands if and only if both or neither of them decodes to -2^63 |
| TwosComp64.UGeq | codings/twos_comp_64.h:265-285 | the result is the encoding of the native unsigned `>=` (None64.UGeq) of the decoded operands |
| TwosComp64.Shl | codings/twos_comp_64.h:287-292 | the result is the encoding of the native signed left shift (None64.Shl) of the decoded operands; requires a decoded shift amount in 0..63 |
| TwosComp64.UShl | codings/twos_comp_64.h:293-298 | the result is the encoding of the native unsigned left shift (None64.UShl) of the decoded operands; requires a decoded shift amount below 64 |
| TwosComp64.UShr | codings/twos_comp_64.h:303-308 | the encoding of x >> y (the corrected shift of None64) for a decoded shift amount y < 31 |
| TwosComp64.Land | codings/twos_comp_64.h:310-313 | the result is the encoding of the native signed `&&` (None64.Land) of the decoded operands |
| TwosComp64.ULand | codings/twos_comp_64.h:314-317 | the result is the encoding of the native unsigned `&&` (None64.ULand) of the decoded operands |
| TwosComp64.Lor | codings/twos_comp_64.h:319-322 | the result is the encoding of the native signed `||` (None64.Lor) of the decoded operands |
| TwosComp64.ULor | codings/twos_comp_64.h:323-326 | the result is the encoding of the native unsigned `||` (None64.ULor) of the decoded operands |
| TwosComp64.And | codings/twos_comp_64.h:328-336 | the result is the encoding of the native signed bitwise and (None64.And) of the decoded operands |
| TwosComp64.UAnd | codings/twos_comp_64.h:337-345 | the result is the encoding of the native unsigned bitwise and (None64.UAnd) of the decoded operands |
| TwosComp64.Or | codings/twos_comp_64.h:347-355 | the result is the encoding of the native signed bitwise or (None64.Or) of the decoded operands |
| TwosComp64.UOr | codings/twos_comp_64.h:356-364 | the result is the encoding of the native unsigned bitwise or (None64.UOr) of the decoded operands |
| TwosComp64.Neg | codings/twos_comp_64.h:366-370 | the result is the encoding of the native signed bitwise complement (None64.Neg) of the decoded operand |
| TwosComp64.UNeg | codings/twos_comp_64.h:371-375 | the result is the encoding of the native unsigned bitwise complement (None64.UNeg) of the decoded operand |
| TwosComp64.Xor | codings/twos_comp_64.h:377-387 | the result is the encoding of the native signed bitwise xor (None64.Xor) of the decoded operands |
| TwosComp64.UXor | codings/twos_comp_64.h:388-398 | the result is the encoding of the native unsigned bitwise xor (None64.UXor) of the decoded operands |
| TwosComp64.UMulEncodes | codings/twos_comp_64.h:95-99 | the wrapped product x_c1 * y_c1 * 2^64-1 of u_mul is the encoding of the native product of the decoded operands |
| TwosComp64.DivideNegated | codings/twos_comp_64.h:101-123 | for a dividend other than -2^63, the quotient of the code words is the quotient of the values and their remainder the negated remainder |
| TwosComp64.DivOfMinDiffers | codings/twos_comp_64.h:101-105 | div of the codes of -2^63 and 2 decodes to 2^62, where the native quotient is -2^62 |
| TwosComp64.ModOfMinDiffers | codings/twos_comp_64.h:119-123 | mod of the codes of -2^63 and 3 decodes to 2, where the native remainder is -2 |
| TwosComp64.OrderOfNegations | codings/twos_comp_64.h:171-234 | negation reverses the order of two values unless exactly one of them is -2^63, in which case it keeps it |
| TwosComp64.EncodedTruth | codings/twos_comp_64.h:137-152 | the encoding of a truth value b is -b (signed) and b * 2^64-1 (unsigned) |
| TwosComp64.ShiftDivisor | codings/twos_comp_64.h:303-308 | for y < 31, `1 << y` fits a signed int and its product by the all-ones word is the encoding of 2^y |
| AN32.Encode | codings/an_32.h:32-36 | the encoding A * x (A = 58659, 64-bit code word) is a code word and decodes back to x |
| AN32.UEncode | codings/an_32.h:37-41 | the unsigned encoding x * A is a code word and decodes back to x |
| AN32.Decode | codings/an_32.h:43-47 | a code word is A times its decoded value |
| AN32.UDecode | codings/an_32.h:48-52 | an unsigned code word is its decoded value times A |
| AN32.Check | codings/an_32.h:54-57 | for a code word, check holds exactly when valc == A * val; a word that is not a multiple of A is always rejected |
| AN32.UCheck | codings/an_32.h:58-61 | the same for unsigned code words |
| AN32.Add | codings/an_32.h:63-66 | for code words, the result is A times the exact sum of the values, decodes to the native sum (None32.Add), and is a code word exactly when the sum does not overflow 32 bits |
| AN32.UAdd | codings/an_32.h:67-70 | for code words, the result is A times the exact sum of the values, decodes to the native unsigned sum, and is a code word exactly when the exact sum is below 2^32 |
| AN32.Sub | codings/an_32.h:72-75 | for code words, the result is A times the exact difference of the values, decodes to the native difference (None32.Sub), and is a code word exactly when the difference does not overflow 32 bits |
| AN32.USub | codings/an_32.h:76-85 | for code words, the result is the encoding of the native unsigned difference (None32.USub) of the decoded operands: the correction constant repairs the wrap-around when x < y |
| AN32.Div | codings/an_32.h:127-131 | for code words other than -2^31 / -1, the result is the encoding of the native signed quotient (None32.Div) of the decoded operands; requires a non-zero divisor code and no overflow of the 64-bit division |
| AN32.UDiv | codings/an_32.h:132-136 | for code words, the result is the encoding of the native unsigned quotient (None32.UDiv) of the decoded operands; requires a non-zero divisor code |
| AN32.Mod | codings/an_32.h:138-141 | for code words other than -2^31 / -1, the result is the encoding of the native signed remainder (None32.Mod) of the decoded operands; same requires as Div |
| AN32.UMod | codings/an_32.h:142-145 | for code words, the result is the encoding of the native unsigned remainder (None32.UMod) of the decoded operands; requires a non-zero divisor code |
| AN32.Eq | codings/an_32.h:147-154 | for code words, the result is the encoding of the native signed `==` (None32.Eq) of the decoded operands |
| AN32.UEq | codings/an_32.h:155-162 | for code words, the result is the encoding of the native unsigned `==` (None32.UEq) of the decoded operands |
| AN32.Neq | codings/an_32.h:164-171 | for code words, the result is the encoding of the native signed `!=` (None32.Neq) of the decoded operands |
| AN32.UNeq | codings/an_32.h:172-179 | for code words, the result is the encoding of the native unsigned `!=` (None32.UNeq) of the decoded operands |
| AN32.Less | codings/an_32.h:181-188 | for code words, the result is the encoding of the native signed `<` (None32.Less) of the decoded operands |
| AN32.ULess | codings/an_32.h:189-196 | for code words, the result is the encoding of the native unsigned `<` (None32.ULess) of the decoded operands |
| AN32.Grt | codings/an_32.h:198-205 | for code words, the result is the encoding of the native signed `>` (None32.Grt) of the decoded operands |
| AN32.UGrt | codings/an_32.h:206-213 | for code words, the result is the encoding of the native unsigned `>` (None32.UGrt) of the decoded operands |
| AN32.Leq | codings/an_32.h:215-222 | for code words, the result is the encoding of the native signed `<=` (None32.Leq) of the decoded operands |
| AN32.ULeq | codings/an_32.h:223-230 | for code words, the result is the encoding of the native unsigned `<=` (None32.ULeq) of the decoded operands |
| AN32.Geq | codings/an_32.h:232-239 | for code words, the result is the encoding of the native signed `>=` (None32.Geq) of the decoded operands |
| AN32.UGeq | codings/an_32.h:240-247 | for code words, the result is the encoding of the native unsigned `>=` (None32.UGeq) of the decoded operands |
| AN32.Shl | codings/an_32.h:249-254 | for code words with a shift amount below 32, the result is the encoding of the native signed left shift (None32.Shl) of the decoded operands; requires a decoded shift amount below 63 |
| AN32.UShl | codings/an_32.h:255-262 | for code words with a shift amount below 32, the result is the encoding of the native unsigned left shift (None32.UShl) of the decoded operands; requires a decoded shift amount below 64 |
| AN32.UShr | codings/an_32.h:267-274 | for code words and y < 32, the encoding of x >> y (the corrected shift of None32) |
| AN32.Land | codings/an_32.h:276-283 | for code words, the encoding of 1 exactly when the native 32-bit product of the values is non-zero (as written; see Findings) |
| AN32.ULand | codings/an_32.h:284-291 | for code words, the encoding of 1 exactly when the native unsigned 32-bit product is non-zero (as written) |
| AN32.Lor | codings/an_32.h:299-313 | for code words, the result is the encoding of the native signed `||` (None32.Lor) of the decoded operands |
| AN32.ULor | codings/an_32.h:314-326 | for code words, the result is the encoding of the native unsigned `||` (None32.ULor) of the decoded operands |
| AN32.And | codings/an_32.h:328-335 | the result is the encoding of the native signed bitwise and (None32.And) of the decoded operands (the operation decodes, applies the native operator and re-encodes) |
| AN32.UAnd | codings/an_32.h:336-344 | the result is the encoding of the native unsigned bitwise and (None32.UAnd) of the decoded operands (the operation decodes, applies the native operator and re-encodes) |
| AN32.Or | codings/an_32.h:346-353 | the result is the encoding of the native signed bitwise or (None32.Or) of the decoded operands (the operation decodes, applies the native operator and re-encodes) |
| AN32.UOr | codings/an_32.h:354-362 | the result is the encoding of the native unsigned bitwise or (None32.UOr) of the decoded operands (the operation decodes, applies the native operator and re-encodes) |
| AN32.Neg | codings/an_32.h:364-370 | the result is the encoding of the native signed bitwise complement (None32.Neg) of the decoded operand (the operation decodes, applies the native operator and re-encodes) |
| AN32.UNeg | codings/an_32.h:371-377 | the result is the encoding of the native unsigned bitwise complement (None32.UNeg) of the decoded operand (the operation decodes, applies the native operator and re-encodes) |
| AN32.Xor | codings/an_32.h:379-385 | the result is the encoding of the native signed bitwise xor (None32.Xor) of the decoded operands (the operation decodes, applies the native operator and re-encodes) |
| AN32.UXor | codings/an_32.h:386-392 | the result is the encoding of the native unsigned bitwise xor (None32.UXor) of the decoded operands (the operation decodes, applies the native operator and re-encodes) |
| AN32.USubRepairs | codings/an_32.h:76-85 | the statement sequence of u_sub (subtract, and subtract `sub` again when x_c1 < y_c1) yields the encoding of the native unsigned difference |
| AN32.MulEncodes | codings/an_32.h:87-112 | for code words, the result is the encoding of the native signed product (None32.Mul) of the decoded operands (decode, multiply, wrap, re-encode with the sign repair) |
| AN32.UMulEncodes | codings/an_32.h:113-125 | for code words, the result is the encoding of the native unsigned product (None32.UMul) of the decoded operands |
| AN32.MulOfMultiples | codings/an_32.h:87-112 | mul of A * x and A * y is A times the 32-bit wrapped product x * y |
| AN32.UMulOfMultiples | codings/an_32.h:113-125 | u_mul of A * x and A * y is A times the 32-bit wrapped product |
| AN32.SignRepairCorrect | codings/an_32.h:87-112 | the sign repair of mul turns A times the remainder of the product into A times the wrapped product |
| AN32.ShiftedFactor | codings/an_32.h:249-254 | multiplying a code word by the code of 2^y is the encoding of the wrapped x * 2^y, for y < 32 |
| AN32.UShiftedFactor | codings/an_32.h:255-262 | the unsigned counterpart, for y < 32 |
| AN32.UShiftedQuotient | codings/an_32.h:267-274 | dividing a code word by the code of 2^y is the encoding of x >> y, and that divisor is never 0 |
| AN32.LandOfCodes | codings/an_32.h:276-283 | the product of two code words is 0 exactly when the native wrapped product of their values is 0 |
| AN32.LandOfWrappedProduct | codings/an_32.h:276-283 | for a non-zero value whose square wraps to 0, land of its code with itself is the encoding of 0 while `&&` gives 1 |
| AN32.ULandOfWrappedProduct | codings/an_32.h:284-291 | the same for u_land |
| AN32.MulVanishes | codings/an_32.h:276-283 | 2^16 * 2^16 wraps to 0 on 32 bits, signed and unsigned, so such values exist |
| AN32.LandCorrected | codings/an_32.h:276-283 | land as evidently intended (both values non-zero): for code words, the encoding of the native `&&` |
| AN32.ULandCorrected | codings/an_32.h:284-291 | u_land as evidently intended: for code words, the encoding of the native unsigned `&&` |
| AN32.ZeroCode | codings/an_32.h:276-313 | a code word is 0 exactly when its value is 0 |
| AN32.CodeSign | codings/an_32.h:181-313 | a code word is 0 exactly when its value is, has the sign of its value, and lies within 59000 * 2^31 of 0 |
| AN32.UCodeSign | codings/an_32.h:314-326 | an unsigned code word is 0 exactly when its value is 0 and is below 59000 * 2^32 |
| AN32.XorOfCodes | codings/an_32.h:379-385 | xor built as (~x & y) | (x & ~y) from the coded and, or and neg is the encoding of the native xor |
| AN32.UXorOfCodes | codings/an_32.h:386-392 | the unsigned counterpart |
| AN64.Encode | codings/an_64.h:43-47 | the encoding A * x (A = 58659, 128-bit code word) is a code word and decodes back to x |
| AN64.UEncode | codings/an_64.h:48-52 | the unsigned encoding x * A is a code word and decodes back to x |
| AN64.Decode | codings/an_64.h:54-58 | a code word is A times its decoded value |
| AN64.UDecode | codings/an_64.h:59-63 | an unsigned code word is its decoded value times A |
| AN64.Check | codings/an_64.h:65-68 | for a code word, check holds exactly when valc == A * val; a word that is not a multiple of A is always rejected |
| AN64.UCheck | codings/an_64.h:69-72 | the same for unsigned code words |
| AN64.Add | codings/an_64.h:74-77 | for code words, the result is A times the exact sum of the values, decodes to the native sum (None64.Add), and is a code word exactly when the sum does not overflow 64 bits |
| AN64.UAdd | codings/an_64.h:78-81 | for code words, the result is A times the exact sum of the values, decodes to the native unsigned sum, and is a code word exactly when the exact sum is below 2^64 |
| AN64.Sub | codings/an_64.h:83-86 | for code words, the result is A times the exact difference of the values, decodes to the native difference (None64.Sub), and is a code word exactly when the difference does not overflow 64 bits |
| AN64.USub | codings/an_64.h:87-96 | for initialised globals (Ready) and code words, the result is the encoding of the native unsigned difference (None64.USub) of the decoded operands: the correction constant repairs the wrap-around when x < y |
| AN64.Div | codings/an_64.h:140-144 | for code words other than -2^63 / -1, the result is the encoding of the native signed quotient (None64.Div) of the decoded operands; requires a non-zero divisor code and no overflow of the 128-bit division |
| AN64.UDiv | codings/an_64.h:145-149 | for code words, the result is the encoding of the native unsigned quotient (None64.UDiv) of the decoded operands; requires a non-zero divisor code |
| AN64.Mod | codings/an_64.h:151-154 | for code words other than -2^63 / -1, the result is the encoding of the native signed remainder (None64.Mod) of the decoded operands; same requires as Div |
| AN64.UMod | codings/an_64.h:155-158 | for code words, the result is the encoding of the native unsigned remainder (None64.UMod) of the decoded operands; requires a non-zero divisor code |
| AN64.Eq | codings/an_64.h:160-167 | for code words, the result is the encoding of the native signed `==` (None64.Eq) of the decoded operands |
| AN64.UEq | codings/an_64.h:168-175 | for code words, the result is the encoding of the native unsigned `==` (None64.UEq) of the decoded operands |
| AN64.Neq | codings/an_64.h:177-184 | for code words, the result is the encoding of the native signed `!=` (None64.Neq) of the decoded operands |
| AN64.UNeq | codings/an_64.h:185-192 | for code words, the result is the encoding of the native unsigned `!=` (None64.UNeq) of the decoded operands |
| AN64.Less | codings/an_64.h:194-201 | for code words, the result is the encoding of the native signed `<` (None64.Less) of the decoded operands |
| AN64.ULess | codings/an_64.h:202-209 | for code words, the result is the encoding of the native unsigned `<` (None64.ULess) of the decoded operands |
| AN64.Grt | codings/an_64.h:211-218 | for code words, the result is the encoding of the native signed `>` (None64.Grt) of the decoded operands |
| AN64.UGrt | codings/an_64.h:219-226 | for code words, the result is the encoding of the native unsigned `>` (None64.UGrt) of the decoded operands |
| AN64.Leq | codings/an_64.h:228-235 | for code words, the result is the encoding of the native signed `<=` (None64.Leq) of the decoded operands |
| AN64.ULeq | codings/an_64.h:236-243 | for code words, the result is the encoding of the native unsigned `<=` (None64.ULeq) of the decoded operands |
| AN64.Geq | codings/an_64.h:245-252 | for code words, the result is the encoding of the native signed `>=` (None64.Geq) of the decoded operands |
| AN64.UGeq | codings/an_64.h:253-260 | for code words, the result is the encoding of the native unsigned `>=` (None64.UGeq) of the decoded operands |
| AN64.Shl | codings/an_64.h:262-267 | for initialised globals (Ready) and code words with a shift amount below 64, the result is the encoding of the native signed left shift (None64.Shl) of the decoded operands; requires a decoded shift amount below 127 and a non-zero pow64 |
| AN64.UShl | codings/an_64.h:268-275 | for initialised globals (Ready) and code words with a shift amount below 64, the result is the encoding of the native unsigned left shift (None64.UShl) of the decoded operands; requires a decoded shift amount below 128 and a non-zero pow64 |
| AN64.UShr | codings/an_64.h:280-287 | for code words and y < 64, the encoding of x >> y (the corrected shift of None64) |
| AN64.Land | codings/an_64.h:289-296 | for initialised globals (Ready) and code words, the encoding of 1 exactly when the native 64-bit product of the values is non-zero (as written; see Findings) |
| AN64.ULand | codings/an_64.h:297-304 | for initialised globals (Ready) and code words, the encoding of 1 exactly when the native unsigned 64-bit product is non-zero (as written) |
| AN64.Lor | codings/an_64.h:312-326 | for code words, the result is the encoding of the native signed `||` (None64.Lor) of the decoded operands |
| AN64.ULor | codings/an_64.h:327-339 | for code words, the result is the encoding of the native unsigned `||` (None64.ULor) of the decoded operands |
| AN64.And | codings/an_64.h:341-348 | the result is the encoding of the native signed bitwise and (None64.And) of the decoded operands (the operation decodes, applies the native operator and re-encodes) |
| AN64.UAnd | codings/an_64.h:349-357 | the result is the encoding of the native unsigned bitwise and (None64.UAnd) of the decoded operands (the operation decodes, applies the native operator and re-encodes) |
| AN64.Or | codings/an_64.h:359-366 | the result is the encoding of the native signed bitwise or (None64.Or) of the decoded operands (the operation decodes, applies the native operator and re-encodes) |
| AN64.UOr | codings/an_64.h:367-375 | the result is the encoding of the native unsigned bitwise or (None64.UOr) of the decoded operands (the operation decodes, applies the native operator and re-encodes) |
| AN64.Neg | codings/an_64.h:377-383 | the result is the encoding of the native signed bitwise complement (None64.Neg) of the decoded operand (the operation decodes, applies the native operator and re-encodes) |
| AN64.UNeg | codings/an_64.h:384-390 | the result is the encoding of the native unsigned bitwise complement (None64.UNeg) of the decoded operand (the operation decodes, applies the native operator and re-encodes) |
| AN64.Xor | codings/an_64.h:392-398 | the result is the encoding of the native signed bitwise xor (None64.Xor) of the decoded operands (the operation decodes, applies the native operator and re-encodes) |
| AN64.UXor | codings/an_64.h:399-405 | the result is the encoding of the native unsigned bitwise xor (None64.UXor) of the decoded operands (the operation decodes, applies the native operator and re-encodes) |
| AN64.USubRepairs | codings/an_64.h:87-96 | the statement sequence of u_sub (subtract, and subtract `sub` again when x_c1 < y_c1) yields the encoding of the native unsigned difference |
| AN64.MulEncodes | codings/an_64.h:98-124 | for initialised globals (Ready) and code words, the result is the encoding of the native signed product (None64.Mul) of the decoded operands (decode, multiply, wrap, re-encode with the sign repair) |
| AN64.UMulEncodes | codings/an_64.h:125-138 | for initialised globals (Ready) and code words, the result is the encoding of the native unsigned product (None64.UMul) of the decoded operands |
| AN64.MulOfMultiples | codings/an_64.h:98-124 | mul of A * x and A * y is A times the 64-bit wrapped product x * y |
| AN64.UMulOfMultiples | codings/an_64.h:125-138 | u_mul of A * x and A * y is A times the 64-bit wrapped product |
| AN64.SignRepairCorrect | codings/an_64.h:98-124 | the sign repair of mul turns A times the remainder of the product into A times the wrapped product |
| AN64.ShiftedFactor | codings/an_64.h:262-267 | multiplying a code word by the code of 2^y is the encoding of the wrapped x * 2^y, for y < 64 |
| AN64.UShiftedFactor | codings/an_64.h:268-275 | the unsigned counterpart, for y < 64 |
| AN64.UShiftedQuotient | codings/an_64.h:280-287 | dividing a code word by the code of 2^y is the encoding of x >> y, and that divisor is never 0 |
| AN64.LandOfCodes | codings/an_64.h:289-296 | the product of two code words is 0 exactly when the native wrapped product of their values is 0 |
| AN64.LandOfWrappedProduct | codings/an_64.h:289-296 | for a non-zero value whose square wraps to 0, land of its code with itself is the encoding of 0 while `&&` gives 1 |
| AN64.ULandOfWrappedProduct | codings/an_64.h:297-304 | the same for u_land |
| AN64.MulVanishes | codings/an_64.h:289-296 | 2^32 * 2^32 wraps to 0 on 64 bits, signed and unsigned, so such values exist |
| AN64.LandCorrected | codings/an_64.h:289-296 | land as evidently intended (both values non-zero): for code words, the encoding of the native `&&` |
| AN64.ULandCorrected | codings/an_64.h:297-304 | u_land as evidently intended: for code words, the encoding of the native unsigned `&&` |
| AN64.ZeroCode | codings/an_64.h:289-326 | a code word is 0 exactly when its value is 0 |
| AN64.CodeSign | codings/an_64.h:194-326 | a code word is 0 exactly when its value is, has the sign of its value, and lies within 59000 * 2^63 of 0 |
| AN64.UCodeSign | codings/an_64.h:327-339 | an unsigned code word is 0 exactly when its value is 0 and is below 59000 * 2^64 |
| AN64.XorOfCodes | codings/an_64.h:392-398 | xor built as (~x & y) | (x & ~y) from the coded and, or and neg is the encoding of the native xor |
| AN64.UXorOfCodes | codings/an_64.h:399-405 | the unsigned counterpart |
| AN64.Initial | codings/an_64.h:32-34 | the globals start as sub = 2^64 - A, pow64 = 1, pow64A = 1 |
| AN64.InitEstablishesReady | codings/an_64.h:35-41 | one call of init from the initial globals gives pow64 = 2^64, pow64A = A * 2^64 and sub = 2^64 * (2^64 - A) modulo 2^128 (Ready) |
| AN64.InitIsNotIdempotent | codings/an_64.h:35-41 | a second call of init shifts pow64 out of the 128-bit word: it becomes 0 |
| AN64.Config.constructor | codings/an_64.h:32-34 | the globals after static initialisation equal Initial() |
| AN64.Config.Init | codings/an_64.h:35-41 | init updates the globals as InitStep of their old values, and from the initial globals produces Ready ones |
| Residue32.Encode | codings/residue_32.h:51-57 | the encoding {x, x % 18} is valid and decodes to x; its check lies strictly between -18 and 18 and has the sign of x (C remainder) |
| Residue32.UEncode | codings/residue_32.h:58-64 | the unsigned encoding {x, x % 18} is valid, decodes to x and has a check below 18 |
| Residue32.Check | codings/residue_32.h:74-78 | check holds exactly when valc is the encoding of its own value field (the val argument is ignored); the error marker 33 never passes |
| Residue32.UCheck | codings/residue_32.h:79-83 | the unsigned check holds exactly when valc is the encoding of its own value field; 33 never passes |
| Residue32.SumCheckRem | codings/residue_32.h:85-116 | when the flag is raised exactly on overflow, the check arithmetic of add (including the 2^W correction) gives the residue of the wrapped sum |
| Residue32.CarryTest | codings/residue_32.h:85-116 | the carry test of add detects every signed overflow except -2^31 + -2^31; with `>= 0` in its second half it detects all |
| Residue32.Add | codings/residue_32.h:85-116 | for valid operands other than -2^31 + -2^31, the result is the encoding of the native signed sum (None32.Add) of the decoded operands |
| Residue32.AddOfMinMin | codings/residue_32.h:85-116 | -2^31 + -2^31 wraps to 0 with the carry test silent, and the result is not a valid code |
| Residue32.AddCorrected | codings/residue_32.h:85-116 | add with the completed carry test: for all valid operands, the encoding of the native sum |
| Residue32.UAdd | codings/residue_32.h:117-129 | for valid operands, the result is the encoding of the native unsigned sum (None32.UAdd) of the decoded operands |
| Residue32.UAddCheckRem | codings/residue_32.h:117-129 | the check arithmetic of u_add (adding 14, that is -2^32 modulo 18, when the sum wraps) gives the residue of the wrapped sum |
| Residue32.DiffCheckRem | codings/residue_32.h:131-156 | when the flag is raised exactly on overflow, the check arithmetic of sub yields the residue of the wrapped difference |
| Residue32.BorrowTest | codings/residue_32.h:131-156 | the borrow test of sub detects every signed overflow except 0 - (-2^31); with `x >= 0` in its first half it detects all |
| Residue32.Sub | codings/residue_32.h:131-156 | for valid operands other than 0 - (-2^31), the result is the encoding of the native signed difference (None32.Sub) of the decoded operands |
| Residue32.SubOfZeroMin | codings/residue_32.h:131-156 | 0 - (-2^31) wraps to -2^31 unnoticed by the borrow test, and the result is not a valid code |
| Residue32.SubCorrected | codings/residue_32.h:131-156 | sub with the completed borrow test: for all valid operands, the encoding of the native difference |
| Residue32.USub | codings/residue_32.h:157-170 | for valid operands, the result is the encoding of the native unsigned difference (None32.USub) of the decoded operands |
| Residue32.USubCheckRem | codings/residue_32.h:157-170 | the check arithmetic of u_sub (adding 256 on wrap-around, 18 when only the checks are out of order) gives the residue of the wrapped difference |
| Residue32.Mul | codings/residue_32.h:188-206 | the value field is the native product; for valid operands whose product does not overflow 32 bits, the result is the encoding of the product |
| Residue32.MulCheckRem | codings/residue_32.h:188-206 | when the product fits, the check arithmetic of mul gives the residue of the product |
| Residue32.MulLosesCheck | codings/residue_32.h:188-206 | 3 * 2^30 overflows to -2^30 and the result is not a valid code |
| Residue32.UMul | codings/residue_32.h:172-186 | for valid operands, the result is the encoding of the native unsigned product (None32.UMul) of the decoded operands |
| Residue32.UMulCheckRem | codings/residue_32.h:172-186 | the check arithmetic of u_mul (adding 14, that is -2^32 modulo 18, per unit of the high word) gives the residue of the wrapped product |
| Residue32.Shl | codings/residue_32.h:378-383 | the value field is the native shift; for a valid operand whose shifted value fits, the encoding of x * 2^y; requires 0 <= y < 31 |
| Residue32.UShl | codings/residue_32.h:384-389 | for a valid operand, the result is the encoding of the native unsigned left shift (None32.UShl) of the decoded operands; requires y < 32 |
| Residue32.SignedReverseCheck | codings/residue_32.h:208-219 | the reverse check q * y + x % y == x, in wrapped signed arithmetic, holds for every non-zero divisor |
| Residue32.Div | codings/residue_32.h:208-219 | the encoding of the native signed quotient of the value fields; requires a non-zero divisor and no MIN / -1 |
| Residue32.Mod | codings/residue_32.h:245-256 | the encoding of the native signed remainder of the value fields; same requires as Div |
| Residue32.UDiv | codings/residue_32.h:221-243 | for valid operands, the value field is the quotient and the result is valid; a dividend whose check disagrees with its value gives the error check 33 |
| Residue32.UDivCross | codings/residue_32.h:221-243 | the cross check of u_div accepts exactly when the dividend's check is its residue, and then gives the residue of the quotient |
| Residue32.UMod | codings/residue_32.h:257-268 | the encoding of the native unsigned remainder of the value fields; requires a non-zero divisor |
| Residue32.UShr | codings/residue_32.h:394-399 | for a valid operand, the encoding of x >> y (the corrected shift of None32); a dividend whose check disagrees gives the error check 33 |
| Residue32.Eq | codings/residue_32.h:270-273 | the encoding of 1 exactly when the two coded words are identical; for valid operands, the encoding of the native `==` |
| Residue32.UEq | codings/residue_32.h:274-277 | the unsigned counterpart of Eq |
| Residue32.Neq | codings/residue_32.h:279-282 | the encoding of 1 only for differing values; for valid operands whose values are not congruent modulo 18, the encoding of the native `!=` (as written; see Findings) |
| Residue32.NeqOfSameResidue | codings/residue_32.h:279-282 | for the codes of 0 and 18 (equal checks), neq gives the encoding of 0 while 0 != 18 |
| Residue32.NeqCorrected | codings/residue_32.h:279-282 | neq as the complement of eq: valid, and for valid operands the encoding of the native `!=` |
| Residue32.UNeq | codings/residue_32.h:283-286 | the unsigned counterpart of Neq (as written) |
| Residue32.UNeqOfSameResidue | codings/residue_32.h:283-286 | for the codes of 0 and 18, u_neq gives the encoding of 0 |
| Residue32.UNeqCorrected | codings/residue_32.h:283-286 | u_neq as the complement of u_eq: for valid operands, the encoding of the native unsigned `!=` |
| Residue32.Less | codings/residue_32.h:288-300 | the result encodes 0 or 1, and 1 exactly when x < y and (y < 0 or x - y < -2^31), the underflow test the code makes (as written; see Findings) |
| Residue32.LessOfOneThree | codings/residue_32.h:288-300 | less of the codes of 1 and 3 is the encoding of 0 while 1 < 3 |
| Residue32.LessCorrected | codings/residue_32.h:288-300 | less as evidently intended: a valid code, the encoding of the native `<` of the values |
| Residue32.ULess | codings/residue_32.h:301-313 | for all operands, the encoding of the native unsigned `<` of the value fields |
| Residue32.Leq | codings/residue_32.h:324-336 | the result encodes 0 or 1, and 0 exactly when x > y and (x < 0 or y - x < -2^31) (as written; see Findings) |
| Residue32.LeqOfThreeOne | codings/residue_32.h:324-336 | leq of the codes of 3 and 1 is the encoding of 1 while 3 <= 1 is false |
| Residue32.LeqCorrected | codings/residue_32.h:324-336 | leq as evidently intended: a valid code, the encoding of the native `<=` |
| Residue32.ULeq | codings/residue_32.h:337-349 | the encoding of the native unsigned `<=` of the value fields |
| Residue32.Geq | codings/residue_32.h:351-363 | the result encodes 0 or 1, and 0 exactly under the condition under which less reports true (as written; see Findings) |
| Residue32.GeqOfOneThree | codings/residue_32.h:351-363 | geq of the codes of 1 and 3 is the encoding of 1 while 1 >= 3 is false |
| Residue32.GeqCorrected | codings/residue_32.h:351-363 | geq as evidently intended: a valid code, the encoding of the native `>=` |
| Residue32.UGeq | codings/residue_32.h:364-376 | the encoding of the native unsigned `>=` of the value fields |
| Residue32.Land | codings/residue_32.h:401-408 | for valid operands whose wrapped product is non-zero, or one of which is 0, the encoding of the native `&&` (as written; see Findings) |
| Residue32.LandOfWrappedProduct | codings/residue_32.h:401-408 | land of the code of 2^16 with itself has value 0 while `&&` of the values is 1 |
| Residue32.LandCorrected | codings/residue_32.h:401-408 | land as evidently intended: valid, 1 exactly when both values are non-zero, the encoding of the native `&&` |
| Residue32.ULand | codings/residue_32.h:409-416 | for valid operands, the encoding of 1 exactly when the wrapped unsigned product is non-zero (as written) |
| Residue32.ULandOfWrappedProduct | codings/residue_32.h:409-416 | u_land of the code of 2^16 with itself is the encoding of 0 |
| Residue32.ULandCorrected | codings/residue_32.h:409-416 | u_land as evidently intended: valid, the encoding of the native unsigned `&&` |
| Residue32.Lor | codings/residue_32.h:418-425 | for valid operands, the result is the encoding of the native signed `||` (None32.Lor) of the decoded operands |
| Residue32.ULor | codings/residue_32.h:426-433 | for valid operands whose values do not sum to exactly 2^32, the encoding of the native unsigned `||` (as written; see Findings) |
| Residue32.ULorOfWrappedSum | codings/residue_32.h:426-433 | u_lor of the codes of 1 and 2^32 - 1 is the encoding of 0: their sum wraps to 0 |
| Residue32.ULorCorrected | codings/residue_32.h:426-433 | u_lor as evidently intended: for valid operands, the encoding of the native unsigned `||` |
| Residue32.And | codings/residue_32.h:435-441 | the result is the encoding of the native signed bitwise and (None32.And) of the decoded operands (the operation applies the native operator to the value fields and re-encodes) |
| Residue32.UAnd | codings/residue_32.h:443-451 | the result is the encoding of the native unsigned bitwise and (None32.UAnd) of the decoded operands (the operation applies the native operator to the value fields and re-encodes) |
| Residue32.Or | codings/residue_32.h:453-459 | the result is the encoding of the native signed bitwise or (None32.Or) of the decoded operands (the operation applies the native operator to the value fields and re-encodes) |
| Residue32.UOr | codings/residue_32.h:460-468 | the result is the encoding of the native unsigned bitwise or (None32.UOr) of the decoded operands (the operation applies the native operator to the value fields and re-encodes) |
| Residue32.Neg | codings/residue_32.h:470-476 | the result is the encoding of the native signed bitwise complement (None32.Neg) of the decoded operand (the operation applies the native operator to the value fields and re-encodes) |
| Residue32.UNeg | codings/residue_32.h:477-483 | the result is the encoding of the native unsigned bitwise complement (None32.UNeg) of the decoded operand (the operation applies the native operator to the value fields and re-encodes) |
| Residue32.Xor | codings/residue_32.h:485-491 | the result is the encoding of the native signed bitwise xor (None32.Xor) of the decoded operands (the operation applies the native operator to the value fields and re-encodes) |
| Residue32.UXor | codings/residue_32.h:492-498 | the result is the encoding of the native unsigned bitwise xor (None32.UXor) of the decoded operands (the operation applies the native operator to the value fields and re-encodes) |
| Residue64.Encode | codings/residue_64.h:52-58 | the encoding {x, x % 18} is valid and decodes to x; its check lies strictly between -18 and 18 and has the sign of x (C remainder) |
| Residue64.UEncode | codings/residue_64.h:59-65 | the unsigned encoding {x, x % 18} is valid, decodes to x and has a check below 18 |
| Residue64.Check | codings/residue_64.h:75-79 | check holds exactly when valc is the encoding of its own value field (the val argument is ignored); the error marker 33 never passes |
| Residue64.UCheck | codings/residue_64.h:80-84 | the unsigned check holds exactly when valc is the encoding of its own value field; 33 never passes |
| Residue64.SumCheckRem | codings/residue_64.h:86-117 | when the flag is raised exactly on overflow, the check arithmetic of add (including the 2^W correction) gives the residue of the wrapped sum |
| Residue64.CarryTest | codings/residue_64.h:86-117 | the carry test of add detects every signed overflow except -2^63 + -2^63; with `>= 0` in its second half it detects all |
| Residue64.Add | codings/residue_64.h:86-117 | for valid operands other than -2^63 + -2^63, the result is the encoding of the native signed sum (None64.Add) of the decoded operands |
| Residue64.AddOfMinMin | codings/residue_64.h:86-117 | -2^63 + -2^63 wraps to 0 with the carry test silent, and the result is not a valid code |
| Residue64.AddCorrected | codings/residue_64.h:86-117 | add with the completed carry test: for all valid operands, the encoding of the native sum |
| Residue64.UAdd | codings/residue_64.h:118-130 | for valid operands, the result is the encoding of the native unsigned sum (None64.UAdd) of the decoded operands |
| Residue64.UAddCheckRem | codings/residue_64.h:118-130 | the check arithmetic of u_add (adding 2, that is -2^64 modulo 18, when the sum wraps) gives the residue of the wrapped sum |
| Residue64.DiffCheckRem | codings/residue_64.h:132-157 | when the flag is raised exactly on overflow, the check arithmetic of sub yields the residue of the wrapped difference (with the correction done in signed arithmetic) |
| Residue64.BorrowTest | codings/residue_64.h:132-157 | the borrow test of sub detects every signed overflow except 0 - (-2^63); with `x >= 0` in its first half it detects all |
| Residue64.Sub | codings/residue_64.h:132-157 | for valid operands whose difference does not overflow, the result is the encoding of the native signed difference (None64.Sub) of the decoded operands |
| Residue64.SubOfMaxMinusOne | codings/residue_64.h:132-157 | 2^63 - 1 - (-1) wraps to -2^63, the borrow test fires, and the correction of the check in unsigned arithmetic leaves a result that is not a valid code |
| Residue64.SubOfMultiples | codings/residue_64.h:132-157 | -(2^63 - 8) - 18 wraps to 2^63 - 10, and the corrected check does not match it, so the result is not a valid code |
| Residue64.SubOfZeroMin | codings/residue_64.h:132-157 | 0 - (-2^63) wraps to -2^63 unnoticed by the borrow test, and the result is not a valid code |
| Residue64.SubCorrected | codings/residue_64.h:132-157 | sub with the completed borrow test and the correction in signed arithmetic: for all valid operands, the encoding of the native difference |
| Residue64.USub | codings/residue_64.h:158-172 | for valid operands, the result is the encoding of the native unsigned difference (None64.USub) of the decoded operands |
| Residue64.USubCheckRem | codings/residue_64.h:158-172 | the check arithmetic of u_sub (adding 65536 on wrap-around, 18 when only the checks are out of order) gives the residue of the wrapped difference |
| Residue64.Mul | codings/residue_64.h:192-213 | the value field is the native product; for valid operands whose product does not overflow 64 bits, the result is the encoding of the product |
| Residue64.MulCheckRem | codings/residue_64.h:192-213 | when the product fits, the check arithmetic of mul gives the residue of the product |
| Residue64.MulLosesCheck | codings/residue_64.h:192-213 | 3 * 2^62 overflows to -2^62 and the result is not a valid code |
| Residue64.UMul | codings/residue_64.h:174-190 | for valid operands, the result is the encoding of the native unsigned product (None64.UMul) of the decoded operands |
| Residue64.UMulCheckRem | codings/residue_64.h:174-190 | the check arithmetic of u_mul (adding 2, that is -2^64 modulo 18, per unit of the high word) gives the residue of the wrapped product |
| Residue64.Shl | codings/residue_64.h:385-390 | the value field is the native shift; for a valid operand whose shifted value fits, the encoding of x * 2^y; requires 0 <= y < 63 |
| Residue64.UShl | codings/residue_64.h:391-396 | for a valid operand, the result is the encoding of the native unsigned left shift (None64.UShl) of the decoded operands; requires y < 64 |
| Residue64.SignedReverseCheck | codings/residue_64.h:215-226 | the reverse check q * y + x % y == x, in wrapped signed arithmetic, holds for every non-zero divisor |
| Residue64.Div | codings/residue_64.h:215-226 | the encoding of the native signed quotient of the value fields; requires a non-zero divisor and no MIN / -1 |
| Residue64.Mod | codings/residue_64.h:252-263 | the encoding of the native signed remainder of the value fields; same requires as Div |
| Residue64.UDiv | codings/residue_64.h:228-250 | for valid operands, the value field is the quotient and the result is valid; a dividend whose check disagrees with its value gives the error check 33 |
| Residue64.UDivCross | codings/residue_64.h:228-250 | the cross check of u_div accepts exactly when the dividend's check is its residue, and then gives the residue of the quotient |
| Residue64.UMod | codings/residue_64.h:264-275 | the encoding of the native unsigned remainder of the value fields; requires a non-zero divisor |
| Residue64.UShr | codings/residue_64.h:401-406 | for a valid operand, the encoding of x >> y (the corrected shift of None64); a dividend whose check disagrees gives the error check 33 |
| Residue64.Eq | codings/residue_64.h:277-280 | the encoding of 1 exactly when the two coded words are identical; for valid operands, the encoding of the native `==` |
| Residue64.UEq | codings/residue_64.h:281-284 | the unsigned counterpart of Eq |
| Residue64.Neq | codings/residue_64.h:286-289 | the encoding of 1 only for differing values; for valid operands whose values are not congruent modulo 18, the encoding of the native `!=` (as written; see Findings) |
| Residue64.NeqOfSameResidue | codings/residue_64.h:286-289 | for the codes of 0 and 18 (equal checks), neq gives the encoding of 0 while 0 != 18 |
| Residue64.NeqCorrected | codings/residue_64.h:286-289 | neq as the complement of eq: valid, and for valid operands the encoding of the native `!=` |
| Residue64.UNeq | codings/residue_64.h:290-293 | the unsigned counterpart of Neq (as written) |
| Residue64.UNeqOfSameResidue | codings/residue_64.h:290-293 | for the codes of 0 and 18, u_neq gives the encoding of 0 |
| Residue64.UNeqCorrected | codings/residue_64.h:290-293 | u_neq as the complement of u_eq: for valid operands, the encoding of the native unsigned `!=` |
| Residue64.Less | codings/residue_64.h:295-307 | the result encodes 0 or 1, and 1 exactly when x < y and (y < 0 or x - y < -2^63), the underflow test the code makes (as written; see Findings) |
| Residue64.LessOfOneThree | codings/residue_64.h:295-307 | less of the codes of 1 and 3 is the encoding of 0 while 1 < 3 |
| Residue64.LessCorrected | codings/residue_64.h:295-307 | less as evidently intended: a valid code, the encoding of the native `<` of the values |
| Residue64.ULess | codings/residue_64.h:308-320 | for all operands, the encoding of the native unsigned `<` of the value fields |
| Residue64.Leq | codings/residue_64.h:331-343 | the result encodes 0 or 1, and 0 exactly when x > y and (x < 0 or y - x < -2^63) (as written; see Findings) |
| Residue64.LeqOfThreeOne | codings/residue_64.h:331-343 | leq of the codes of 3 and 1 is the encoding of 1 while 3 <= 1 is false |
| Residue64.LeqCorrected | codings/residue_64.h:331-343 | leq as evidently intended: a valid code, the encoding of the native `<=` |
| Residue64.ULeq | codings/residue_64.h:344-356 | the encoding of the native unsigned `<=` of the value fields |
| Residue64.Geq | codings/residue_64.h:358-370 | the result encodes 0 or 1, and 0 exactly under the condition under which less reports true (as written; see Findings) |
| Residue64.GeqOfOneThree | codings/residue_64.h:358-370 | geq of the codes of 1 and 3 is the encoding of 1 while 1 >= 3 is false |
| Residue64.GeqCorrected | codings/residue_64.h:358-370 | geq as evidently intended: a valid code, the encoding of the native `>=` |
| Residue64.UGeq | codings/residue_64.h:371-383 | the encoding of the native unsigned `>=` of the value fields |
| Residue64.Land | codings/residue_64.h:408-415 | for valid operands whose wrapped product is non-zero, or one of which is 0, the encoding of the native `&&` (as written; see Findings) |
| Residue64.LandOfWrappedProduct | codings/residue_64.h:408-415 | land of the code of 2^32 with itself has value 0 while `&&` of the values is 1 |
| Residue64.LandCorrected | codings/residue_64.h:408-415 | land as evidently intended: valid, 1 exactly when both values are non-zero, the encoding of the native `&&` |
| Residue64.ULand | codings/residue_64.h:416-423 | for valid operands, the encoding of 1 exactly when the wrapped unsigned product is non-zero (as written) |
| Residue64.ULandOfWrappedProduct | codings/residue_64.h:416-423 | u_land of the code of 2^32 with itself is the encoding of 0 |
| Residue64.ULandCorrected | codings/residue_64.h:416-423 | u_land as evidently intended: valid, the encoding of the native unsigned `&&` |
| Residue64.Lor | codings/residue_64.h:425-432 | for valid operands, the result is the encoding of the native signed `||` (None64.Lor) of the decoded operands |
| Residue64.ULor | codings/residue_64.h:433-440 | for valid operands whose values do not sum to exactly 2^64, the encoding of the native unsigned `||` (as written; see Findings) |
| Residue64.ULorOfWrappedSum | codings/residue_64.h:433-440 | u_lor of the codes of 1 and 2^64 - 1 is the encoding of 0: their sum wraps to 0 |
| Residue64.ULorCorrected | codings/residue_64.h:433-440 | u_lor as evidently intended: for valid operands, the encoding of the native unsigned `||` |
| Residue64.And | codings/residue_64.h:442-448 | the result is the encoding of the native signed bitwise and (None64.And) of the decoded operands (the operation applies the native operator to the value fields and re-encodes) |
| Residue64.UAnd | codings/residue_64.h:450-458 | the result is the encoding of the native unsigned bitwise and (None64.UAnd) of the decoded operands (the operation applies the native operator to the value fields and re-encodes) |
| Residue64.Or | codings/residue_64.h:460-466 | the result is the encoding of the native signed bitwise or (None64.Or) of the decoded operands (the operation applies the native operator to the value fields and re-encodes) |
| Residue64.UOr | codings/residue_64.h:467-475 | the result is the encoding of the native unsigned bitwise or (None64.UOr) of the decoded operands (the operation applies the native operator to the value fields and re-encodes) |
| Residue64.Neg | codings/residue_64.h:477-483 | the result is the encoding of the native signed bitwise complement (None64.Neg) of the decoded operand (the operation applies the native operator to the value fields and re-encodes) |
| Residue64.UNeg | codings/residue_64.h:484-490 | the result is the encoding of the native unsigned bitwise complement (None64.UNeg) of the decoded operand (the operation applies the native operator to the value fields and re-encodes) |
| Residue64.Xor | codings/residue_64.h:492-498 | the result is the encoding of the native signed bitwise xor (None64.Xor) of the decoded operands (the operation applies the native operator to the value fields and re-encodes) |
| Residue64.UXor | codings/residue_64.h:499-505 | the result is the encoding of the native unsigned bitwise xor (None64.UXor) of the decoded operands (the operation applies the native operator to the value fields and re-encodes) |
| Helpers.CountDifferences | src/helpers/helpers.c:117-156 | the loop shared by the calcHammingDistance functions counts the positions among the n low bits where a and b differ: the result is Distance(a, b, n), at most n, and 0 exactly when a == b |
| Helpers.HammingDistance8 | src/helpers/helpers.c:117-125 | the number of differing bits of two bytes: Distance(a, b, 8), at most 8, 0 exactly when a == b |
| Helpers.HammingDistance16 | src/helpers/helpers.c:127-135 | the same for 16-bit words, at most 16 |
| Helpers.HammingDistance32 | src/helpers/helpers.c:137-145 | the same for 32-bit words, at most 32 |
| Helpers.HammingDistance64 | src/helpers/helpers.c:147-156 | the same for 64-bit words, at most 64 |
| Helpers.DistanceSymmetric | src/helpers/helpers.c:117-156 | the distance does not depend on the order of the operands |
| Helpers.FlipBit32 | src/helpers/helpers.c:158-165 | exactly bit `position` of the result differs from val; requires position < 32 (a larger shift is undefined in C) |
| Helpers.FlipBit64 | src/helpers/helpers.c:166-173 | exactly bit `position` of the result differs from val; requires position < 64 |
| Helpers.FlipBit32Twice | src/helpers/helpers.c:158-165 | flipping the same bit twice restores the word |
| Helpers.FlipBit64Twice | src/helpers/helpers.c:166-173 | flipping the same bit twice restores the word |
| Helpers.FlipBit32Distance | src/helpers/helpers.c:158-165 | a flip is at Hamming distance 1 from the word |
| Helpers.FlipBit64Distance | src/helpers/helpers.c:166-173 | a flip is at Hamming distance 1 from the word |
| Helpers.StuckAt | src/helpers/helpers.c:174-238 | for n-bit words: stuck 0 clears bit `position` and keeps every other bit, stuck 1 sets it and keeps the others, any other stuck value returns val unchanged; the result stays below 2^n |
| Helpers.StuckAtBit8 | src/helpers/helpers.c:174-188 | the byte version: bit `position` forced to `stuck` and all other bits kept, val unchanged for stuck > 1; requires position < 32, where `1U << position` is defined |
| Helpers.StuckAtBit16 | src/helpers/helpers.c:189-204 | the 16-bit version, same contract |
| Helpers.StuckAtBit32 | src/helpers/helpers.c:206-221 | the 32-bit version, same contract |
| Helpers.StuckAtBit64 | src/helpers/helpers.c:223-238 | the 64-bit version; requires position < 64 |
| Helpers.StuckAtIdempotent | src/helpers/helpers.c:174-238 | sticking the same bit at the same value twice is the same as once |
| Helpers.StuckAtOutOfRange | src/helpers/helpers.c:174-204 | a position beyond the width (a mask truncated to 0 in the narrow versions) leaves the word unchanged |
| Helpers.Ordinal | src/helpers/helpers.h:39-59 | the 19 enumerators of `enum Operation` take the values 0 to 18 |
| Helpers.OperationString | src/helpers/helpers.c:30-94 | every name fits `char name[5]` with its terminator, and the name is "ERR" exactly for a value outside the enumeration |
| Helpers.NamesIdentifyOperations | src/helpers/helpers.c:30-94 | two operations get the same name if and only if they are the same operation |
| Helpers.GeqName | src/helpers/helpers.c:57-58 | GEQ is named "qeq", as written |
| DetcapCodes.ResidueCodes | src/detcap/main.c:25-32 | the residue code is below A and congruent to x modulo A; the inverse residue code lies in [1, A] and A minus it is congruent to x |
| DetcapCodes.ResidueChecksAcceptCodes | src/detcap/main.c:46-53 | each residue checker accepts exactly the code word its encoder gives for x |
| DetcapCodes.ComplementCodes | src/detcap/main.c:33-40 | the ones' complement code of x is 255 - x; the two's complement code is 256 - x, and 0 for 0 |
| DetcapCodes.ANCode | src/detcap/main.c:41-44 | the AN code is congruent to x * A modulo 2^16 and equals it when the product fits 16 bits |
| DetcapCodes.CheckOnesCompNeverHolds | src/detcap/main.c:54-57 | check_ones_comp rejects every pair: `~x` is a negative int after promotion |
| DetcapCodes.CheckTwosCompOnlyZero | src/detcap/main.c:58-61 | check_twos_comp accepts exactly the pair (0, 0): `~x + 1` is -x in int |
| DetcapCodes.CheckOnesCompCorrected | src/detcap/main.c:54-57 | the checker with the comparison on bytes accepts exactly the ones' complement code word of x |
| DetcapCodes.CheckTwosCompCorrected | src/detcap/main.c:58-61 | the checker with the comparison on bytes accepts exactly the two's complement code word of x |
| DetcapCodes.CheckANExact | src/detcap/main.c:62-65 | for 1 <= A <= 255, check_an accepts exactly the pairs with x_enc == x * A exactly (no wrap) |
| DetcapCodes.CheckANAcceptsCodes | src/detcap/main.c:41-65 | for x < 256 the AN code word is x * A exactly, and check_an accepts it |
| Detcap.MaskBitsOf | src/detcap/main.c:218-219 | bit i of mask0 = j ^ (j & k) is set exactly when bit i is in j and not in k; bit i of mask1 = j & k when it is in both |
| Detcap.MasksPartition | src/detcap/main.c:218-219 | mask0 and mask1 are disjoint, and together they make up j |
| Detcap.StuckPattern | src/detcap/main.c:218-223 | applying the masks forces each bit selected by j to the matching bit of k and keeps the others |
| Detcap.Record | src/detcap/main.c:229-233 | masked[A] grows by 1 exactly for a masked trial, sdcs[A] by 1 exactly for an unmasked trial the checker accepts; no other entry changes |
| Detcap.StuckTrialAt | src/detcap/main.c:218-233 | one (x, j, k) trial adds 1 to masked[A] or sdcs[A] as the trial's outcome StuckTrial is masked or an SDC; nothing else changes |
| Detcap.MaskPairTrials | src/detcap/main.c:217-234 | the k loop adds to masked[A] and sdcs[A] the outcome counts of the pairs (j, k) of one x; no other entry changes |
| Detcap.StuckAtTrialsOf | src/detcap/main.c:216-235 | the j loop adds the counts of every pattern of one x |
| Detcap.StuckAtTrials | src/detcap/main.c:213-236 | the i loop adds CountStuck(s, A, Masked) to masked[A] and CountStuck(s, A, Sdc) to sdcs[A], leaving the other entries |
| Detcap.PermLoop | src/detcap/main.c:292-325 | perm_an_loop (and the per-A body of sdc_perm_8bit): the counters of A end as CountStuck of A, the other entries are kept |
| Detcap.SdcPerm8 | src/detcap/main.c:195-268 | for each processed A, masked[A] and sdcs[A] are the stuck-at counts of the code, and (min, minA) is the first A with the fewest SDCs, starting from INT32_MAX |
| Detcap.SdcPermAN | src/detcap/main.c:327-363 | after one perm_an_loop per A, every counter of A in 1..255 holds the stuck-at count of the AN code and (min, minA) is the first A with the fewest SDCs |
| Detcap.EmptyPatternIsMasked | src/detcap/main.c:218-230 | with j = 0 nothing is stuck, and the trial is masked |
| Detcap.EmptyPatternCount | src/detcap/main.c:217-234 | for j = 0 the k loop counts each of its k trials as masked |
| Detcap.PermMaskedAtLeast | src/detcap/main.c:213-236 | at least 256 * Range masked stuck-at trials per A (256 * 256 for the byte codes): those of the empty pattern |
| Detcap.StuckTotal | src/detcap/main.c:213-236 | the masked, detected and SDC counts over the first x values add up to x * Range^2: each trial has exactly one outcome |
| Detcap.MaskTotal | src/detcap/main.c:216-235 | the outcome counts before mask j of value x add up to those before x plus j * Range |
| Detcap.PairTotal | src/detcap/main.c:217-234 | the outcome counts before pair (j, k) add up to those before mask j plus k |
| Detcap.FlipTrial | src/detcap/main.c:384-405 | one mask j adds the outcomes of x ^ j checked with the code word and of x checked with the code word ^ j; nothing else changes |
| Detcap.FlipTrialsOf | src/detcap/main.c:384-405 | the j loop adds the flip counts of one x |
| Detcap.FlipTrials | src/detcap/main.c:381-406 | the i loop adds CountFlips(s, A, Masked) to masked[A] and CountFlips(s, A, Sdc) to sdcs[A], leaving the other entries |
| Detcap.SdcTrans8 | src/detcap/main.c:365-435 | for each processed A, masked[A] and sdcs[A] are the flip counts of the code, and (min, minA) is the first A with the fewest SDCs |
| Detcap.SdcTransAN | src/detcap/main.c:437-493 | the same for the AN code, j below UINT16_MAX, for every A in 1..255 |
| Detcap.TransRange | src/detcap/main.c:442-452 | the masks tried never exceed the word: 256 masks for the byte codes, UINT16_MAX for the AN code |
| Detcap.FlipMaskedIffEmpty | src/detcap/main.c:384-400 | a flip trial is masked exactly when j = 0 |
| Detcap.TransMasked | src/detcap/main.c:381-406 | exactly 512 masked flip trials per A: two for each x, those of j = 0 |
| Detcap.FlipsTotal | src/detcap/main.c:381-406 | the outcome counts of the flips over the first x values add up to 2 * x * TransRange |
| Detcap.OnesComplementNeverAccepts | src/detcap/main.c:54-57 | check_ones_comp accepts no pair, for any A |
| Detcap.NoSdcStuckTrial | src/detcap/main.c:224-233 | for a checker that accepts nothing, no stuck-at trial is an SDC |
| Detcap.NoSdcFlipTrials | src/detcap/main.c:385-403 | for a checker that accepts nothing, no flip trial is an SDC |
| Detcap.OnesComplementReportsNoSdc | src/detcap/main.c:213-236 | as written the analysis reports 0 stuck-at and 0 flip SDCs for the ones' complement code, whatever the code's real strength |
| Detcap.DistanceBound | src/detcap/main.c:87 | the distance between a value and its code word is at most the word width |
| Detcap.HistogramRows | src/detcap/main.c:83-91 | each histogram row counts every x once: 256 for the byte codes, 255 for the AN code (x from 1) |
| Detcap.HistogramTotal | src/detcap/main.c:83-91 | the histogram entries below a bound above the width add up to the number of values counted |
| Detcap.MinDistanceIsLowerBound | src/detcap/main.c:94-95 | the running minimum is at most every distance seen, and INT32_MAX before any value |
| Detcap.MinDistanceAttained | src/detcap/main.c:94-95 | the running minimum over a non-empty range is the distance of some x in it |
| Detcap.DistanceRow8 | src/detcap/main.c:83-96 | the i loop for one A adds Histogram to row A of hist and sets minHammingDistance[A] to MinimumDistance; no other entry changes |
| Detcap.DistanceTable8 | src/detcap/main.c:72-98 | rows 1..LastA of hist hold the histograms and minHammingDistance the minima; the other rows stay 0 and INT32_MAX |
| Detcap.CodeDistance8 | src/detcap/main.c:67-139 | cd_8bit: the histograms and minimum distances for each processed A, and (maxA, maxCD) the first A with the largest minimum distance |
| Detcap.DistanceRowAN | src/detcap/main.c:150-166 | the i loop of cd_an_sep_8bit (x from 1) adds the histogram of A to its row and stores the minimum in column 17 |
| Detcap.CodeDistanceAN | src/detcap/main.c:141-193 | cd_an_sep_8bit: the histogram and minimum distance of the AN code for each A, row 0 left at 0, and (maxA, maxCD) the first A with the largest minimum |
| Detcap.FirstMaximum | src/detcap/main.c:112-121 | maxCD is the largest of values[1..last] (0 if none is positive) and maxA the first index reaching it |
| Detcap.FirstMinimum | src/detcap/main.c:244-262 | min is the smallest of INT32_MAX and values[1..last], and minA the first index reaching it |
| MulValidation.Idx | mul_validation/mul100.c:23-26 | i * 100 + j lies in the 100 x 100 matrix and recovers the row i and the column j |
| MulValidation.DotStep | mul_validation/mul100.c:22-25 | one step of the k loop, sumVal += a[i][k] * b[k][j] on 64 bits, extends the wrapped partial dot product by one term |
| MulValidation.DotProduct | mul_validation/mul100.c:21-25 | the k loop computes Product(matA, matB, i, j), the dot product of row i and column j modulo 2^64 |
| MulValidation.Mul100 | mul_validation/mul100.c:17-29 | every entry C[i][j] is the wrapped dot product of row i of A and column j of B; requires matC distinct from matA and matB |
| MulValidation.ProductWithIdentity | mul_validation/mul100.c:17-29 | the product with the identity matrix returns each entry of the left operand |
| MulValidation.Decoded | mul_validation/mul100_enc.c:18 | the decoded matrix has the same size and holds the ones'-complement decoding of every entry |
| MulValidation.DecodedOfEncoded | mul_validation/mul100_enc.c:18 | decoding an encoded matrix gives the matrix back |
| MulValidation.EncodedConstants | mul_validation/mul100_enc.c:21-30 | the code words 0xff..ff, 0xff..fe and 0xff..9b decode to 0, 1 and 100 |
| MulValidation.EncodedLoopTest | mul_validation/mul100_enc.c:22-29 | the coded test `u_decode(u_less(i, 0xff..9b))` is 1 exactly when the decoded counter is below 100 |
| MulValidation.EncodedIncrement | mul_validation/mul100_enc.c:23-30 | the coded step `u_add(i, 0xff..fe)` increments the decoded counter |
| MulValidation.EncodedIndex | mul_validation/mul100_enc.c:34-38 | the coded index `u_decode(u_add(u_mul(i, 0xff..9b), k))` is i * 100 + k for decoded i, k below 100 |
| MulValidation.EncodedSum | mul_validation/mul100_enc.c:31-43 | the coded `u_add(s, u_mul(x, y))` decodes to the 64-bit s + x * y of the decoded operands |
| MulValidation.DotProductEnc | mul_validation/mul100_enc.c:27-44 | the coded k loop leaves in sumVal the ones'-complement encoding of the dot product of the decoded matrices at the decoded (i, j) |
| MulValidation.Mul100Enc | mul_validation/mul100_enc.c:19-51 | every entry C[i][j] is the encoding of the wrapped dot product of the decoded matrices, i.e. the coded program computes what mul100 computes on the decoded values; requires matC distinct from matA and matB |

## Left out

- Printing: the tables, progress marks and messages that the analysis and the helpers print are not modelled; the model keeps the values they print.
- The averages of the Hamming distances in `cd_8bit` and `cd_an_sep_8bit` are floating point and are left out.
- Threads: `sdc_perm_an_8bit` runs one `perm_an_loop` per A in its own thread; the threads write disjoint entries, and the model runs them one after the other. The progress counters and `perm_an_stat_loop`, which writes them to a file every two seconds, are left out.
- `main` of the analysis (argument parsing and the order in which the analyses run) is left out, as I/O.
- `getInt32Rand` and `getInt64Rand` draw random numbers and are left out; `schedutil_sched_setFIFO` is a system call and is left out.
- `grt_32c1`, `u_grt_32c1`, `grt_64c1` and `u_grt_64c1` of the residue code have empty bodies, whose result is undefined in C; they are not modelled.
- Signed overflow in the codings is modelled as two's-complement wrap-around, which the overflow tests of the code assume; where C leaves the result undefined and no test relies on it, the member states nothing for those inputs (the lines below name them).
- The harness around `mul100` and `mul100_enc` (matrix generation, the table and the comparison script) is not part of this model.
- MulValidation.Mul100: does not model a result matrix that overlaps an operand; it requires matC distinct from matA and matB.
- MulValidation.Mul100Enc: does not model a result matrix that overlaps an operand; it requires matC distinct from matA and matB.
- TwosComp32.Div: stated only for a dividend that does not decode to INT32_MIN. This is a limitation of the -x code, not of `div_32c1` (codings/twos_comp_32.h:101-105): INT32_MIN is its own negation (and `-1 * INT32_MIN` overflows in C), so its code word is INT32_MIN itself and the quotient of the code words has the wrong sign; DivOfMinDiffers gives an instance.
- TwosComp32.Mod: stated only for a dividend that does not decode to INT32_MIN. This is a limitation of the -x code, not of `mod_32c1` (codings/twos_comp_32.h:119-123): INT32_MIN is its own negation (and `-1 * INT32_MIN` overflows in C), so its code word is INT32_MIN itself and the remainder of the code words has the wrong sign; ModOfMinDiffers gives an instance.
- TwosComp32.Less: the homomorphism is stated, as an if-and-only-if, exactly when both or neither operand decodes to INT32_MIN; when exactly one does, negation keeps the order instead of reversing it (OrderOfNegations), for the same reason as for Div.
- TwosComp32.Grt: the homomorphism is stated, as an if-and-only-if, exactly when both or neither operand decodes to INT32_MIN; when exactly one does, negation keeps the order instead of reversing it (OrderOfNegations), for the same reason as for Div.
- TwosComp32.Leq: the homomorphism is stated, as an if-and-only-if, exactly when both or neither operand decodes to INT32_MIN; when exactly one does, negation keeps the order instead of reversing it (OrderOfNegations), for the same reason as for Div.
- TwosComp32.Geq: the homomorphism is stated, as an if-and-only-if, exactly when both or neither operand decodes to INT32_MIN; when exactly one does, negation keeps the order instead of reversing it (OrderOfNegations), for the same reason as for Div.
- OnesComp32.Div: stated only for a dividend that does not decode to INT32_MIN: its code word is INT32_MAX, and `x_c1 + 1` (codings/ones_comp_32.h:97-100) is then a signed overflow, undefined in C.
- OnesComp32.Mod: stated only for a dividend that does not decode to INT32_MIN: its code word is INT32_MAX, and `x_c1 + 1` (codings/ones_comp_32.h:115-119) is then a signed overflow, undefined in C.
- OnesComp32.UShr: stated only for shift amounts below 31: `1 << y` (codings/ones_comp_32.h:206) shifts a signed int, which is undefined in C for y = 31.
- TwosComp32.UShr: stated only for shift amounts below 31: `1 << y` (codings/twos_comp_32.h:306) shifts a signed int, which is undefined in C for y = 31.
- AN32.Div: stated for code words other than INT32_MIN / -1, for which the native operation is undefined in C.
- AN32.Mod: stated for code words other than INT32_MIN / -1, for which the native operation is undefined in C.
- AN32.Shl: stated for shift amounts below 32, where the native shift is defined.
- AN32.UShl: stated for shift amounts below 32, where the native shift is defined.
- AN32.UShr: stated for shift amounts below 32, where the native shift is defined.
- AN32.Land: stated as written, through the wrapped product, which is not the native `&&` when the product wraps to 0 (Findings; AN32.LandCorrected states the native operator).
- AN32.ULand: stated as written, through the wrapped product, which is not the native `&&` when the product wraps to 0 (Findings; AN32.ULandCorrected states the native operator).
- Residue32.Add: stated for valid operands other than INT32_MIN + INT32_MIN, where the carry test misses the overflow and the result is not a valid code (Findings, AddOfMinMin; AddCorrected states every input).
- Residue32.Sub: stated for valid operands other than 0 - (INT32_MIN), where the borrow test misses the overflow and the result is not a valid code (Findings, SubOfZeroMin; SubCorrected states every input).
- Residue32.Mul: keeps the coding only when the product does not overflow 32 bits; on overflow the check is lost (MulLosesCheck).
- Residue32.Shl: keeps the coding only when the shifted value does not overflow 32 bits, as for Mul.
- Residue32.SumCheckRem: stated when the overflow flag is raised exactly on overflow, which the carry test of add does not always meet (CarryTest).
- Residue32.DiffCheckRem: stated when the overflow flag is raised exactly on overflow, which the borrow test of sub does not always meet (BorrowTest).
- Residue32.MulCheckRem: stated only when the product fits 32 bits.
- Residue32.UDiv: the value and validity of the result are stated for valid operands, and the error check 33 for a dividend whose check (below 18) disagrees with its value; nothing is stated for a corrupted divisor or a dividend check of 18 or more.
- Residue32.UShr: the result is stated for a valid operand, and the error check 33 for an operand whose check (below 18) disagrees with its value; nothing is stated for an operand check of 18 or more.
- Residue32.Less: stated as written, which is not the native comparison (Findings, LessOfOneThree; LessCorrected states the native operator).
- Residue32.Leq: stated as written, which is not the native comparison (Findings, LeqOfThreeOne; LeqCorrected states the native operator).
- Residue32.Geq: stated as written, which is not the native comparison (Findings, GeqOfOneThree; GeqCorrected states the native operator).
- Residue32.ULor: stated only when the values do not sum to exactly 2^32 (Findings, ULorOfWrappedSum; ULorCorrected states every input).
- Residue32.Land: stated when the wrapped product is non-zero or an operand is 0 (Findings, LandOfWrappedProduct; LandCorrected states every input).
- Residue32.ULand: stated as written, through the wrapped product (Findings, ULandOfWrappedProduct; ULandCorrected states the native operator).
- Residue32.Neq: the native `!=` is stated only for values that are not congruent modulo 18 (Findings, NeqOfSameResidue; NeqCorrected states every input).
- Residue32.UNeq: the native `!=` is stated only for values that are not congruent modulo 18 (Findings, UNeqOfSameResidue; UNeqCorrected states every input).
- TwosComp64.Div: stated only for a dividend that does not decode to INT64_MIN. This is a limitation of the -x code, not of `div_64c1` (codings/twos_comp_64.h:101-105): INT64_MIN is its own negation (and `-1 * INT64_MIN` overflows in C), so its code word is INT64_MIN itself and the quotient of the code words has the wrong sign; DivOfMinDiffers gives an instance.
- TwosComp64.Mod: stated only for a dividend that does not decode to INT64_MIN. This is a limitation of the -x code, not of `mod_64c1` (codings/twos_comp_64.h:119-123): INT64_MIN is its own negation (and `-1 * INT64_MIN` overflows in C), so its code word is INT64_MIN itself and the remainder of the code words has the wrong sign; ModOfMinDiffers gives an instance.
- TwosComp64.Less: the homomorphism is stated, as an if-and-only-if, exactly when both or neither operand decodes to INT64_MIN; when exactly one does, negation keeps the order instead of reversing it (OrderOfNegations), for the same reason as for Div.
- TwosComp64.Grt: the homomorphism is stated, as an if-and-only-if, exactly when both or neither operand decodes to INT64_MIN; when exactly one does, negation keeps the order instead of reversing it (OrderOfNegations), for the same reason as for Div.
- TwosComp64.Leq: the homomorphism is stated, as an if-and-only-if, exactly when both or neither operand decodes to INT64_MIN; when exactly one does, negation keeps the order instead of reversing it (OrderOfNegations), for the same reason as for Div.
- TwosComp64.Geq: the homomorphism is stated, as an if-and-only-if, exactly when both or neither operand decodes to INT64_MIN; when exactly one does, negation keeps the order instead of reversing it (OrderOfNegations), for the same reason as for Div.
- OnesComp64.Div: stated only for a dividend that does not decode to INT64_MIN: its code word is INT64_MAX, and `x_c1 + 1` (codings/ones_comp_64.h:97-100) is then a signed overflow, undefined in C.
- OnesComp64.Mod: stated only for a dividend that does not decode to INT64_MIN: its code word is INT64_MAX, and `x_c1 + 1` (codings/ones_comp_64.h:115-119) is then a signed overflow, undefined in C.
- OnesComp64.UShr: stated only for shift amounts below 31: `1 << y` (codings/ones_comp_64.h:207) shifts a 32-bit int, which is undefined in C for every y in 31..63, although those are legal shift amounts of a 64-bit word.
- TwosComp64.UShr: stated only for shift amounts below 31: `1 << y` (codings/twos_comp_64.h:306) shifts a 32-bit int, which is undefined in C for every y in 31..63, although those are legal shift amounts of a 64-bit word.
- AN64.Div: stated for code words other than INT64_MIN / -1, for which the native operation is undefined in C.
- AN64.Mod: stated for code words other than INT64_MIN / -1, for which the native operation is undefined in C.
- AN64.Shl: stated for shift amounts below 64, where the native shift is defined.
- AN64.UShl: stated for shift amounts below 64, where the native shift is defined.
- AN64.UShr: stated for shift amounts below 64, where the native shift is defined.
- AN64.Land: stated as written, through the wrapped product, which is not the native `&&` when the product wraps to 0 (Findings; AN64.LandCorrected states the native operator).
- AN64.ULand: stated as written, through the wrapped product, which is not the native `&&` when the product wraps to 0 (Findings; AN64.ULandCorrected states the native operator).
- Residue64.Add: stated for valid operands other than INT64_MIN + INT64_MIN, where the carry test misses the overflow and the result is not a valid code (Findings, AddOfMinMin; AddCorrected states every input).
- Residue64.Sub: stated only when the difference does not overflow: the borrow test misses 0 - (INT64_MIN) and the unsigned correction of the check is wrong on the other overflows (Findings, SubOfZeroMin, SubOfMaxMinusOne, SubOfMultiples; SubCorrected states every input).
- Residue64.Mul: keeps the coding only when the product does not overflow 64 bits; on overflow the check is lost (MulLosesCheck).
- Residue64.Shl: keeps the coding only when the shifted value does not overflow 64 bits, as for Mul.
- Residue64.SumCheckRem: stated when the overflow flag is raised exactly on overflow, which the carry test of add does not always meet (CarryTest).
- Residue64.DiffCheckRem: stated when the overflow flag is raised exactly on overflow, which the borrow test of sub does not always meet (BorrowTest).
- Residue64.MulCheckRem: stated only when the product fits 64 bits.
- Residue64.UDiv: the value and validity of the result are stated for valid operands, and the error check 33 for a dividend whose check (below 18) disagrees with its value; nothing is stated for a corrupted divisor or a dividend check of 18 or more.
- Residue64.UShr: the result is stated for a valid operand, and the error check 33 for an operand whose check (below 18) disagrees with its value; nothing is stated for an operand check of 18 or more.
- Residue64.Less: stated as written, which is not the native comparison (Findings, LessOfOneThree; LessCorrected states the native operator).
- Residue64.Leq: stated as written, which is not the native comparison (Findings, LeqOfThreeOne; LeqCorrected states the native operator).
- Residue64.Geq: stated as written, which is not the native comparison (Findings, GeqOfOneThree; GeqCorrected states the native operator).
- Residue64.ULor: stated only when the values do not sum to exactly 2^64 (Findings, ULorOfWrappedSum; ULorCorrected states every input).
- Residue64.Land: stated when the wrapped product is non-zero or an operand is 0 (Findings, LandOfWrappedProduct; LandCorrected states every input).
- Residue64.ULand: stated as written, through the wrapped product (Findings, ULandOfWrappedProduct; ULandCorrected states the native operator).
- Residue64.Neq: the native `!=` is stated only for values that are not congruent modulo 18 (Findings, NeqOfSameResidue; NeqCorrected states every input).
- Residue64.UNeq: the native `!=` is stated only for values that are not congruent modulo 18 (Findings, UNeqOfSameResidue; UNeqCorrected states every input).
- AN64.InitIsNotIdempotent: a second call of init leaves pow64 at 0, after which the multiplications divide by zero; the operations are stated for globals after exactly one init (Ready).

## Findings

| source | as written | input that shows it | evidently intended | confidence | as-written member | corrected member |
|---|---|---|---|---|---|---|
| codings/an_32.h:276-283 | tests the coded product of the operands for zero | x = y = 2^16 | 1 when both values are non-zero | not executed | AN32.LandOfWrappedProduct | AN32.LandCorrected |
| codings/an_32.h:284-291 | tests the coded unsigned product for zero | x = y = 2^16 | 1 when both values are non-zero | not executed | AN32.ULandOfWrappedProduct | AN32.ULandCorrected |
| codings/residue_32.h:401-408 | tests the wrapped product of the values for zero | x = y = 2^16 | the encoding of 1 | not executed | Residue32.LandOfWrappedProduct | Residue32.LandCorrected |
| codings/residue_32.h:409-416 | tests the wrapped unsigned product for zero | x = y = 2^16 | the encoding of 1 | not executed | Residue32.ULandOfWrappedProduct | Residue32.ULandCorrected |
| codings/residue_32.h:85-116 | the carry test requires a positive wrapped value for two negative operands | x = y = -2^31 | a carry test with `>= 0`, so the check is corrected | not executed | Residue32.AddOfMinMin | Residue32.AddCorrected |
| codings/residue_32.h:131-156 | the borrow test requires a positive minuend | x = 0, y = -2^31 | a borrow test with `x >= 0` | not executed | Residue32.SubOfZeroMin | Residue32.SubCorrected |
| codings/residue_32.h:426-433 | tests the wrapped sum of the values for zero | x = 1, y = 2^32 - 1 | the encoding of 1 | not executed | Residue32.ULorOfWrappedSum | Residue32.ULorCorrected |
| codings/residue_32.h:279-282 | requires both the values and the checks to differ | x = 0, y = 18 | the complement of eq | not executed | Residue32.NeqOfSameResidue | Residue32.NeqCorrected |
| codings/residue_32.h:283-286 | requires both the values and the checks to differ | x = 0, y = 18 | the complement of u_eq | not executed | Residue32.UNeqOfSameResidue | Residue32.UNeqCorrected |
| codings/residue_32.h:288-300 | reports x < y only when the difference x - y is above x | x = 1, y = 3 | the encoding of x < y | not executed | Residue32.LessOfOneThree | Residue32.LessCorrected |
| codings/residue_32.h:324-336 | reports x > y only when y - x is above y | x = 3, y = 1 | the encoding of x <= y | not executed | Residue32.LeqOfThreeOne | Residue32.LeqCorrected |
| codings/residue_32.h:351-363 | the test of less with the results swapped | x = 1, y = 3 | the encoding of x >= y | not executed | Residue32.GeqOfOneThree | Residue32.GeqCorrected |
| codings/none_32.h:154-157 | returns 0 | x = 2, y = 1 | x >> y | not executed | None32.UShrStubDiffers | None32.UShrCorrected |
| codings/an_64.h:289-296 | tests the coded product of the operands for zero | x = y = 2^32 | 1 when both values are non-zero | not executed | AN64.LandOfWrappedProduct | AN64.LandCorrected |
| codings/an_64.h:297-304 | tests the coded unsigned product for zero | x = y = 2^32 | 1 when both values are non-zero | not executed | AN64.ULandOfWrappedProduct | AN64.ULandCorrected |
| codings/residue_64.h:408-415 | tests the wrapped product of the values for zero | x = y = 2^32 | the encoding of 1 | not executed | Residue64.LandOfWrappedProduct | Residue64.LandCorrected |
| codings/residue_64.h:416-423 | tests the wrapped unsigned product for zero | x = y = 2^32 | the encoding of 1 | not executed | Residue64.ULandOfWrappedProduct | Residue64.ULandCorrected |
| codings/residue_64.h:86-117 | the carry test requires a positive wrapped value for two negative operands | x = y = -2^63 | a carry test with `>= 0`, so the check is corrected | not executed | Residue64.AddOfMinMin | Residue64.AddCorrected |
| codings/residue_64.h:132-157 | the borrow test requires a positive minuend | x = 0, y = -2^63 | a borrow test with `x >= 0` | not executed | Residue64.SubOfZeroMin | Residue64.SubCorrected |
| codings/residue_64.h:132-157 | the overflow branches correct the check by UINT64_MAX + 1, which turns the expression into unsigned 64-bit arithmetic where the correction vanishes | x = 2^63 - 1, y = -1 | a correction congruent to 2^64 in signed arithmetic, as u_sub_64c1 uses | not executed | Residue64.SubOfMaxMinusOne | Residue64.SubCorrected |
| codings/residue_64.h:433-440 | tests the wrapped sum of the values for zero | x = 1, y = 2^64 - 1 | the encoding of 1 | not executed | Residue64.ULorOfWrappedSum | Residue64.ULorCorrected |
| codings/residue_64.h:286-289 | requires both the values and the checks to differ | x = 0, y = 18 | the complement of eq | not executed | Residue64.NeqOfSameResidue | Residue64.NeqCorrected |
| codings/residue_64.h:290-293 | requires both the values and the checks to differ | x = 0, y = 18 | the complement of u_eq | not executed | Residue64.UNeqOfSameResidue | Residue64.UNeqCorrected |
| codings/residue_64.h:295-307 | reports x < y only when the difference x - y is above x | x = 1, y = 3 | the encoding of x < y | not executed | Residue64.LessOfOneThree | Residue64.LessCorrected |
| codings/residue_64.h:331-343 | reports x > y only when y - x is above y | x = 3, y = 1 | the encoding of x <= y | not executed | Residue64.LeqOfThreeOne | Residue64.LeqCorrected |
| codings/residue_64.h:358-370 | the test of less with the results swapped | x = 1, y = 3 | the encoding of x >= y | not executed | Residue64.GeqOfOneThree | Residue64.GeqCorrected |
| codings/none_64.h:154-157 | returns 0 | x = 2, y = 1 | x >> y | not executed | None64.UShrStubDiffers | None64.UShrCorrected |
| src/detcap/main.c:54-57 | `~x == x_enc` compares after promotion to int, so it never holds | x = 0, x_enc = 255 | a comparison on bytes | not executed | DetcapCodes.CheckOnesCompNeverHolds | DetcapCodes.CheckOnesCompCorrected |
| src/detcap/main.c:58-61 | `~x + 1 == x_enc` compares in int, so only x = 0 passes | x = 1, x_enc = 255 | a comparison on bytes | not executed | DetcapCodes.CheckTwosCompOnlyZero | DetcapCodes.CheckTwosCompCorrected |
