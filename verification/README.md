# Crypto++: fast algorithms and streaming machines

This project models the cryptographic core bundled under `src/third_party_libs/cryptopp` and
proves that its fast algorithms compute what their simple definitions say, and that its
streaming objects do not depend on how their input is cut up.

- **Scalar multiplication** (`Bits`, `Groups`, `WindowSlider`, `SimultaneousMultiply`,
  `CascadeMultiply`, `GeneralCascade`, `FixedBase`, `Fields`, `ProjectiveDoubling`, `CurveLaws`,
  `ParallelInvert`, `EcpMultiply`). Over any abelian group: signed sliding windows with buckets,
  the two-base window table, the cascade over a heap, fixed-base tables, and over any field of
  odd characteristic the curve arithmetic with cached a·Z⁴ and batch inversion. Each equals
  n·P. The sum of two points is the third point on their line, turned over. `EcpMultiply`
  composes all of them.
- **Number theory** (`Modular`, `ModularPower`, `Euclid`, `InverseMod`, `Esign`,
  `Gf2Polynomials`, `Gf232`, `BlumBlumShub`). Modular powers are the group algorithm again.
  Inverses come out of the almost inverse by shifts and subtractions. ESIGN signing, which
  divides by them, inverts verification, with the exact condition; both multiplications in
  GF(2³²) and the inverse with its implicit 33rd bit; seeking in the Blum-Blum-Shub stream.
- **Streams and authentication** (`Adler32`, `BlockChain`, `Cmac`, `CounterMode`, `Ccm`,
  `CcmFormat`, `CcmStreaming`). A block cipher is any function on blocks. Counter mode, with its buffers,
  batches and seeks, uses one key stream. CMAC and CCM objects are classes whose ghost fields
  record the run; their tags are those of the one-shot definitions for every split of the input,
  and CCM's output that of RFC 3610 on the enciphered counter blocks. The definitions are pinned
  in turn: what CCM enciphers can be read in one way only, and CMAC's subkeys are doublings.
- **Codecs** (`Bytes`, `BitStrings`, `BaseCode`, `BaseDecode`, `BaseRoundTrip`, `BaseText`,
  `DerLengths`, `DerValues`, `DerAccepted`, `DerReencoding`). Base-2^n text through encoder,
  grouper and decoder and back, and as one number; DER lengths, object identifiers and integers,
  and exactly which octets are accepted; re-encoding of BER objects.

Numbers are unbounded where the library uses its `Integer`; machine words are written out: 32-bit
words in `Gf232`, 64-bit lengths and counters (`Wrap`) in the codecs and in CCM, bytes as numbers
below 256. `Shl` and `Shr` are defined by doubling and halving. Automatic induction is switched off
for every lemma: what is proved by induction says so in its body.

Hypotheses, each a named predicate: the group laws (`Lawful`), the field laws with halving
(`LawfulField`), that the addition of a curve is associative (`CurveLaws.Associative`; the other
laws are proved), and Euler's theorem for the seed (`EulerHolds`).

Where the code does not do what it is for:

- `InvertibleESIGNFunction::CalculateRandomizedInverse` may draw an r that p divides (0 is one).
  The code then divides by zero modulo p, and the signature is r itself.
  `CalculateRandomizedInverse` states the exact condition under which it still verifies;
  `ZeroIsAccepted` is an input on which it does not.
- `OID::DEREncode` keeps only the low byte of 40·first + second; `OidRoundTrip` gives the exact
  condition, `OidThatFails` an input.
- `DERReencode`, documented as re-encoding to DER, copies the contents of definite objects as
  they are; `ShortestExactly` says when the result has shortest lengths throughout,
  `InnerStaysOpen` is an input with which it has not.
- `BERDecodeUnsigned` goes on with an unset length after an indefinite one; that value is the
  parameter `stale` here. `StaleLength` is an input with three results; `StaleUnused` and
  `StaleMatters` say exactly when the value matters.
- `AlmostInverse` looks at no more words of the number than the modulus has without leading
  zeros, though its assertion admits as many as the modulus' buffer. `RightForLonger` says when
  the result is right all the same, `LongerNumber` when not.
- `QuotientRing::MultiplicativeInverse` compares with zero modulo m but takes remainders of the
  elements as they are, so an element that is not below m in absolute value has no inverse for
  it: `MultiplicativeInverse` has the exact condition, `UnreducedElement` an input.

The constant of `CMAC_Base::MulU` for 32-byte blocks belongs to no standard cited here, and its
polynomial has a factor (`ModulusFactors`): subkeys of that size are doublings in a ring only.

## Model

| member | source | states |
|---|---|---|
| WindowSliders.FindSetBit | src/third_party_libs/cryptopp/algebra.cpp:221-232 | the first set bit at or above the start is found; `finished` is reported exactly when there is none, for every exponent |
| WindowSliders.TakeWindow | src/third_party_libs/cryptopp/algebra.cpp:234-245 | a window, its sign and the exponent left behind add up to the exponent before; the window is odd and below the modulus |
| WindowSliders.WindowSlider.constructor | src/third_party_libs/cryptopp/algebra.cpp:208-217 | the whole exponent is still to come; window size by the length of the exponent, or as given |
| WindowSliders.WindowSlider.FindNextWindow | src/third_party_libs/cryptopp/algebra.cpp:219-246 | signed window plus remainder is what remained before; windows are odd, at least a window apart and below a fixed bit position, so the search ends |
| SimultaneousMultiplication.SuffixIsBucketSum | src/third_party_libs/cryptopp/algebra.cpp:302-311 | running suffix sums add up to the sum over j of (2j+1) times bucket j |
| SimultaneousMultiplication.CollectBuckets | src/third_party_libs/cryptopp/algebra.cpp:298-312 | the in-place suffix pass over one bucket vector, also of length one, gives the sum over j of (2j+1) times bucket j |
| SimultaneousMultiplication.MoveWindow | src/third_party_libs/cryptopp/algebra.cpp:279-287 | putting base or inverse into bucket window/2 keeps: buckets plus pending windows times the base is exponent times base |
| SimultaneousMultiplication.TakeWindowAt | src/third_party_libs/cryptopp/algebra.cpp:279-287 | at each bit position the bucket index is in range and the account of the exponent is kept, windows taken or not |
| SimultaneousMultiplication.SimultaneousMultiply | src/third_party_libs/cryptopp/algebra.cpp:254-313 | for every abelian group, base, list of exponents and either value of InversionIsFast, result i is exponent i times the base |
| SimultaneousMultiplication.ScalarMultiply | src/third_party_libs/cryptopp/algebra.cpp:90-95 | exponent times base |
| CascadeMultiplication.PowerTable | src/third_party_libs/cryptopp/algebra.cpp:103-129 | every entry (b << w) + a with a or b odd holds a·x + b·y, for each of the three window widths |
| CascadeMultiplication.Lookup | src/third_party_libs/cryptopp/algebra.cpp:154-162 | the windows emitted index inside the table and at an entry that was filled |
| CascadeMultiplication.HalveTogether | src/third_party_libs/cryptopp/algebra.cpp:142-151 | halving both powers together keeps the windows' value; squaresBefore never falls below zero |
| CascadeMultiplication.FirstWindowBounds | src/third_party_libs/cryptopp/algebra.cpp:152-156 | until the first window the two powers are the top bits of the exponents, never both zero |
| CascadeMultiplication.EmitWindow | src/third_party_libs/cryptopp/algebra.cpp:140-167 | after a window the accumulator is (e1 >> i)·x + (e2 >> i)·y |
| CascadeMultiplication.CascadeScalarMultiply | src/third_party_libs/cryptopp/algebra.cpp:97-170 | for all non-negative exponents the result is e1·x + e2·y |
| GeneralCascade.WeightedSumPermuted | src/third_party_libs/cryptopp/algebra.cpp:184-200 | the weighted sum does not depend on the order of the heap |
| GeneralCascade.HeapPop | src/third_party_libs/cryptopp/algebra.cpp:184-185 | the list is permuted, the greatest exponent last and the greatest of the others first; the ordering is by exponent |
| GeneralCascade.DivideGreatest | src/third_party_libs/cryptopp/algebra.cpp:189-196 | one step keeps the weighted sum and strictly lowers the total of the exponents |
| GeneralCascade.GeneralCascadeMultiplication | src/third_party_libs/cryptopp/algebra.cpp:172-204 | for every non-empty list the result is the sum of exponent times base; the loop ends |
| FixedBase.ConvertedMultiple | src/third_party_libs/cryptopp/eprecomp.cpp:90-96 | a multiple computed on converted elements converts back to the multiple of the original |
| FixedBase.PowersClosedForm | src/third_party_libs/cryptopp/eprecomp.cpp:37-39 | stored base i is 2^(w·i) times the first |
| FixedBase.FixedBasePrecomputation.SetBase | src/third_party_libs/cryptopp/eprecomp.cpp:12-24 | the table is kept if it belongs to this base already, otherwise restarted; the powers stay right |
| FixedBase.FixedBasePrecomputation.Precompute | src/third_party_libs/cryptopp/eprecomp.cpp:26-40 | `storage` bases, each the stated multiple of the one before, the first unchanged |
| FixedBase.FixedBasePrecomputation.CutDigit | src/third_party_libs/cryptopp/eprecomp.cpp:77-85 | one digit: what is pushed and what is carried on add up, and with fast negation the digit is at most 2^(w-1) |
| FixedBase.FixedBasePrecomputation.PrepareCascade | src/third_party_libs/cryptopp/eprecomp.cpp:67-88 | the pushed terms sum to exponent times base; every digit but the last is short |
| FixedBase.FixedBasePrecomputation.Exponentiate | src/third_party_libs/cryptopp/eprecomp.cpp:90-96 | exponent times base, for every table and every non-negative exponent |
| FixedBase.FixedBasePrecomputation.CascadeExponentiate | src/third_party_libs/cryptopp/eprecomp.cpp:98-108 | the sum of both multiples, from the two tables together |
| CurveLaws.SumIsThirdPoint | src/third_party_libs/cryptopp/ecp.cpp:220-248 | from the field laws alone: the line with the computed slope through p goes through q and the sum turned over, and cubic less squared line is (x - p.x)(x - q.x)(x - sum.x) for every x; for p = q this is the tangent, with p counted twice |
| CurveLaws.Chord | src/third_party_libs/cryptopp/ecp.cpp:228-237 | p, q and their sum turned over are in line: (q.y - p.y)(p.x - s.x) = (s.y + p.y)(q.x - p.x) |
| CurveLaws.SumOnCurve | src/third_party_libs/cryptopp/ecp.cpp:220-248 | sums and doubles of points of the curve are points of the curve |
| CurveLaws.SumCommutes | src/third_party_libs/cryptopp/ecp.cpp:220-237 | the order of the summands makes no difference |
| CurveLaws.OppositePoints | src/third_party_libs/cryptopp/ecp.cpp:207-226 | two points add up to the identity exactly if one is `Inverse` of the other |
| CurveLaws.PointsFormGroup | src/third_party_libs/cryptopp/ecp.cpp:201-248 | with associativity, the one law that is assumed, the points are an abelian group |
| ProjectiveDoublings.DoubleProjectiveIsDouble | src/third_party_libs/cryptopp/ecp.cpp:316-332 | the projective formulas, with a·Z⁴ in hand, describe the affine doubling, identity and points of order two among the cases |
| ProjectiveDoublings.NextAZ4 | src/third_party_libs/cryptopp/ecp.cpp:322-330 | the cached product aZ4·sixteenY4 is a·Z⁴ again after a doubling |
| ProjectiveDoublings.ProjectiveDoubling.constructor | src/third_party_libs/cryptopp/ecp.cpp:299-314 | the start stands for the given point, the identity included |
| ProjectiveDoublings.ProjectiveDoubling.Double | src/third_party_libs/cryptopp/ecp.cpp:316-332 | the object stands for the doubled point and aZ4·sixteenY4 = a·Z⁴ is kept |
| ProjectiveDoublings.DoubleRepeatedly | src/third_party_libs/cryptopp/ecp.cpp:296-338 | after any number of doublings (X/Z², Y/Z³) is the affine point doubled as often, and Z is zero exactly for the identity |
| ParallelInversion.PairInverse | src/third_party_libs/cryptopp/ecp.cpp:270-280 | from a nonzero inverse of a product to the inverses of its two factors |
| ParallelInversion.ParallelInvert | src/third_party_libs/cryptopp/ecp.cpp:250-285 | in place, every element becomes its inverse and zero stays zero, for every length and wherever a pair product is zero |
| EcpMultiplication.ConvertToAffine | src/third_party_libs/cryptopp/ecp.cpp:422-433 | one batch inversion turns all stored bases into affine coordinates; the identity is left with z = 0 |
| EcpMultiplication.FinalCascade | src/third_party_libs/cryptopp/ecp.cpp:436-454 | the list built from the affine bases is the one that stands for the exponent, identities and negated bases included |
| EcpMultiplication.SimultaneousMultiply | src/third_party_libs/cryptopp/ecp.cpp:373-457 | for every curve over a lawful field whose addition is associative, every point and list of positive exponents, the results are the plain multiples of the point |
| EcpMultiplication.ScalarMultiply | src/third_party_libs/cryptopp/ecp.cpp:351-359 | k times the point for every non-negative k, zero included, on the same assumptions |
| EcpMultiplication.CascadeStaysGeneric | src/third_party_libs/cryptopp/ecp.cpp:354-355 | exponents up to 31 are exactly those sent to the generic algorithm, so the mutual recursion ends |
| Euclid.Gcd | src/third_party_libs/cryptopp/algebra.cpp:56-68 | for all a and b, both zero included: the common divisors of a and b are exactly the divisors of the result; the loop ends |
| Euclid.NextRow | src/third_party_libs/cryptopp/algebra.cpp:77-85 | each round keeps v_j·a congruent to g_j and the common divisors |
| Euclid.MultiplicativeInverse | src/third_party_libs/cryptopp/algebra.cpp:70-88 | for every a, reduced or not, negative or not: an inverse if gcd(a, modulus) = 1 and |a| is below the modulus, zero in every other case; the loop ends |
| Euclid.EndInverting | src/third_party_libs/cryptopp/algebra.cpp:72-87 | the loop ends with one or its negative exactly if |a| is below the modulus and coprime to it, and then with an inverse |
| Euclid.UnreducedElement | src/third_party_libs/cryptopp/algebra.cpp:70-88 | an input for which the code returns zero although there is an inverse: 10 modulo 7 |
| ModularInverse.EvenWordCount | src/third_party_libs/cryptopp/integer.cpp:2614-2619 | the least even number of words that holds the number |
| ModularInverse.ShiftRows | src/third_party_libs/cryptopp/integer.cpp:2644-2677 | zeros moved from the end of f to the end of c keep both congruences up to 2^k, and b·f + c·g |
| ModularInverse.SubtractRows | src/third_party_libs/cryptopp/integer.cpp:2679-2694 | subtracting one odd row from another keeps them, too |
| ModularInverse.AtOne | src/third_party_libs/cryptopp/integer.cpp:2667-2674 | when f is one, b or the modulus less b is 2^k times an inverse, and reduced |
| ModularInverse.AtZero | src/third_party_libs/cryptopp/integer.cpp:2649-2653 | when f is zero there is no inverse |
| ModularInverse.AlmostInverse | src/third_party_libs/cryptopp/integer.cpp:2627-2696 | for every odd modulus 2^k times the reduced inverse, or zero exactly where there is none, of the words it looks at: as many as the modulus has without leading zeros |
| ModularInverse.ReduceRows | src/third_party_libs/cryptopp/integer.cpp:2642-2695 | the loop ends, and the lengths it keeps for f, g, b and c are long enough throughout |
| ModularInverse.DivideByPower2Mod | src/third_party_libs/cryptopp/integer.cpp:2701-2716 | times 2^k the result is the number again, and it stays reduced |
| ModularInverse.Exchanged | src/third_party_libs/cryptopp/integer.cpp:3970-3973 | for an even modulus: the inverse of m modulo a gives that of a modulo m |
| ModularInverse.InverseMod | src/third_party_libs/cryptopp/integer.cpp:3958-3981 | for odd, even and zero moduli and numbers of either sign: the reduced inverse, or zero exactly where there is none; for a number longer than an odd modulus that of its end |
| ModularInverse.RightForLonger | src/third_party_libs/cryptopp/integer.cpp:2635-2638 | that is right for the number itself exactly if its end is congruent to it, or neither has an inverse |
| ModularInverse.LongerNumber | src/third_party_libs/cryptopp/integer.cpp:2647-2653 | inputs for which it is not: numbers congruent to one, whose inverse comes out as zero |
| ModularPower.PowerMod | src/third_party_libs/cryptopp/esign.cpp:46 | the power modulo n, by the windowed algorithm in the multiplicative group modulo n |
| Esign.Binomial | src/third_party_libs/cryptopp/esign.cpp:164-165 | (r + h)^e is r^e + e·r^(e-1)·h where h² vanishes |
| Esign.PowerShift | src/third_party_libs/cryptopp/esign.cpp:164-165 | (r + t·pq)^e is r^e + w·pq modulo p²q for the t that is computed |
| Esign.TopBits | src/third_party_libs/cryptopp/esign.cpp:46 | what is congruent to the shifted message plus something below 2^(2K+1) shifts down to the message |
| Esign.ApplyFunction | src/third_party_libs/cryptopp/esign.cpp:43-47 | the recovered message, below 2^K |
| Esign.SignatureVerifies | src/third_party_libs/cryptopp/esign.cpp:140-179 | for an accepted r with e and r coprime to p, r + t·pq recovers the message |
| Esign.CalculateRandomizedInverse | src/third_party_libs/cryptopp/esign.cpp:140-179 | over any run of the generator: the signature is below n; for prime p it verifies exactly when p divides neither r nor e, or r itself happens to verify by the stated test on the residue |
| Esign.UnshiftedVerifies | src/third_party_libs/cryptopp/esign.cpp:151-165 | when a signature is r itself, it verifies exactly if the residue a is zero, or exceeds the shifted message and (the message is the largest or n - a is below 2^(2K+2)) |
| Esign.PrimeCondition | src/third_party_libs/cryptopp/esign.cpp:163-164 | for prime p the coprimality conditions are that p divides neither r nor e |
| Esign.ZeroSignsOnlyZero | src/third_party_libs/cryptopp/esign.cpp:150-165 | for r = 0 the signature 0 verifies for the message 0 only |
| Esign.ZeroIsAccepted | src/third_party_libs/cryptopp/esign.cpp:148-161 | an input on which r = 0 is accepted for another message, and the signature 0 does not verify: n = 1573, e = 9, message 2 |
| Esign.SmallSignature | src/third_party_libs/cryptopp/esign.cpp:43-47 | a signature of the same message that does verify: 24 |
| Gf232.DoubleReduced | src/third_party_libs/cryptopp/gf2_32.cpp:14-23 | a shift that loses the top bit, reduced by the implicit 33-bit modulus, is multiplication by X |
| Gf232.NextBit | src/third_party_libs/cryptopp/gf2_32.cpp:29-33 | one round of either variant appends the next bit of b to the product |
| Gf232.Multiply | src/third_party_libs/cryptopp/gf2_32.cpp:37-42 | the product of the polynomials modulo X³² + m, in 32 bits |
| Gf232.MultiplyRotating | src/third_party_libs/cryptopp/gf2_32.cpp:25-35 | the same for the rotating variant |
| Gf232.ProductUnique | src/third_party_libs/cryptopp/gf2_32.cpp:9-44 | there is only one such word, so both variants agree |
| Gf232.ComparesDegrees | src/third_party_libs/cryptopp/gf2_32.cpp:71-79 | the word comparisons decide which polynomial has the smaller degree, zero excluded |
| Gf232.Eliminate | src/third_party_libs/cryptopp/gf2_32.cpp:84-93 | one elimination keeps v_j·a congruent to g_j and lowers the degree |
| Gf232.ShiftKeeps | src/third_party_libs/cryptopp/gf2_32.cpp:57-64 | within the degree bounds the shifts of v lose no bits |
| Gf232.MultiplicativeInverse | src/third_party_libs/cryptopp/gf2_32.cpp:46-97 | for zero zero, for every a coprime to the modulus the inverse; the loops end |
| BlumBlumShubGenerator.BlumBlumShub.constructor | src/third_party_libs/cryptopp/blumshub.cpp:8-14 | the object stands at bit 0 of its stream |
| BlumBlumShubGenerator.BlockIsEndOfSquare | src/third_party_libs/cryptopp/blumshub.cpp:8-33 | the bits of the stream, block by block, are the low bits of the squares as numbers |
| BlumBlumShubGenerator.NextSquare | src/third_party_libs/cryptopp/blumshub.cpp:16-25 | each square is the square of the one before modulo n |
| BlumBlumShubGenerator.StartOfSquares | src/third_party_libs/cryptopp/blumshub.cpp:8-14 | the squares start from the start value |
| BlumBlumShubGenerator.BlumBlumShub.GenerateBit | src/third_party_libs/cryptopp/blumshub.cpp:16-25 | the bit of the stream at the current position, squaring only when a block is used up |
| BlumBlumShubGenerator.BlumBlumShub.GenerateByte | src/third_party_libs/cryptopp/blumshub.cpp:27-33 | the next eight bits |
| BlumBlumShubGenerator.BlumBlumShub.GenerateBlock | src/third_party_libs/cryptopp/blumshub.cpp:35-39 | the bytes of the stream from the current position |
| BlumBlumShubGenerator.BlumBlumShub.ProcessData | src/third_party_libs/cryptopp/blumshub.cpp:41-45 | the input masked with the bytes of the stream |
| BlumBlumShubGenerator.ReduceExponent | src/third_party_libs/cryptopp/blumshub.cpp:58-59 | exponents may be reduced modulo the order |
| BlumBlumShubGenerator.BlumBlumShub.Seek | src/third_party_libs/cryptopp/blumshub.cpp:54-61 | the object stands where it would after generating that many bytes, for a seed to which Euler's theorem applies |
| BlumBlumShubGenerator.SliceOfStream | src/third_party_libs/cryptopp/blumshub.cpp:35-61 | m bytes generated from byte k on are bytes k to k + m of those generated from the start |
| BlumBlumShubGenerator.DecryptSlice | src/third_party_libs/cryptopp/blumshub.cpp:41-61 | any slice of a masked input can be unmasked alone after a seek |
| Adler32Checksum.Adler32.Update | src/third_party_libs/cryptopp/adler32.cpp:8-54 | the sums of the byte-at-a-time definition, both below 65521, for every length |
| Adler32Checksum.AddBytesConcat | src/third_party_libs/cryptopp/adler32.cpp:8-54 | the checksum does not depend on how the input is cut up |
| Adler32Checksum.SumsOf | src/third_party_libs/cryptopp/adler32.cpp:8-54 | from the start, s1 is one more than the sum of the bytes and s2 the sum of all values of s1, modulo 65521 (section 8.2 of RFC 1950) |
| Adler32Checksum.SubtractOnce | src/third_party_libs/cryptopp/adler32.cpp:24-26 | one conditional subtraction reduces s1 |
| Adler32Checksum.CeilingFits | src/third_party_libs/cryptopp/adler32.cpp:29-47 | s2 stays below 2³² between its delayed reductions |
| Adler32Checksum.Adler32.TruncatedFinal | src/third_party_libs/cryptopp/adler32.cpp:56-75 | s2 then s1, big-endian, cut to size; a size over four is refused; the object is fresh again |
| BlockChain.AdvancedProcessBlocks | src/third_party_libs/cryptopp/cryptlib.cpp:141-177 | with the input xored in and the output kept in place, as CMAC and CCM call it: the chaining value moves over all whole blocks and less than a block is left |
| BlockChain.ChainConcat | src/third_party_libs/cryptopp/cryptlib.cpp:159-174 | chaining whole blocks first and the rest later is chaining all |
| Cmac.ShiftLeft | src/third_party_libs/cryptopp/cmac.cpp:11-21 | the two-bytes-a-round loop on a buffer of any length: shifted left by one bit, the first byte of an odd length left out, and the bit lost |
| Cmac.MulU | src/third_party_libs/cryptopp/cmac.cpp:11-42 | for every length the shifted buffer, with the constant for its size added if a bit was lost; the error exactly if a bit was lost and there is no constant |
| Cmac.SubkeyIsDouble | src/third_party_libs/cryptopp/cmac.cpp:23-38 | for every even length the result is, as a polynomial, twice the input modulo X^(8·size) plus the constant |
| Cmac.ModulusFactors | src/third_party_libs/cryptopp/cmac.cpp:34-37 | for 32-byte blocks X² + X + 1 divides that modulus: the doublings are in a ring, not in a field |
| Cmac.TopBitReturns | src/third_party_libs/cryptopp/cmac.cpp:23-38 | the doubled top bit is the constant: 1b, 87 and 0423 for 8, 16 and 32 bytes |
| Cmac.SealedUnder | src/third_party_libs/cryptopp/cmac.cpp:99-118 | for every message, cut before its last block: the last block is sealed with twice the enciphered zero block, as a polynomial, if it is complete, and padded and sealed with four times that if it is not |
| Cmac.OnlyBlock | src/third_party_libs/cryptopp/cmac.cpp:44-56 | and only one block is that |
| Cmac.OneBlock | src/third_party_libs/cryptopp/cmac.cpp:99-118 | a message of one complete block is enciphered under the doubled zero block |
| Cmac.CMAC_Base.UncheckedSetKey | src/third_party_libs/cryptopp/cmac.cpp:44-56 | for every cipher: both subkeys and an empty message, or the error exactly if a subkey loses a bit at a size without a constant |
| Cmac.PadInPlace | src/third_party_libs/cryptopp/cmac.cpp:107-110 | flipping one bit after the last byte is padding it |
| Cmac.CMAC_Base.FillBlock | src/third_party_libs/cryptopp/cmac.cpp:66-79 | the waiting block is filled, and chained only when more is coming |
| Cmac.CMAC_Base.Update | src/third_party_libs/cryptopp/cmac.cpp:58-97 | the message grows by the input; everything but its last block, complete or not, has been chained |
| Cmac.CMAC_Base.TruncatedFinal | src/third_party_libs/cryptopp/cmac.cpp:99-118 | the tag of the one-shot definition, cut to size, and a fresh object; too large a size is refused |
| Cmac.MacOfPieces | src/third_party_libs/cryptopp/cmac.cpp:44-118 | for every cipher, size and cut: the error, or the tag of the one-shot definition, which for 8 and 16-byte blocks is that of sections 2.3 and 2.4 of RFC 4493 and section 6 of NIST SP 800-38B |
| CounterMode.IncrementCounterByOne | src/third_party_libs/cryptopp/misc.h:445-449 | one is added to the number in the first bytes, with all carries, and wraps around |
| CounterMode.ProcessCounterBlocks | src/third_party_libs/cryptopp/cryptlib.cpp:141-177 | with the input block as a counter: one enciphered block after another, the last byte alone counting |
| CounterMode.CounterTextIsKeyText | src/third_party_libs/cryptopp/modes.cpp:116-120 | as long as the last byte does not carry these are the blocks of the key stream |
| CounterMode.Operate | src/third_party_libs/cryptopp/modes.cpp:110-128 | whole blocks in batches that end where the last byte wraps: the key text for the whole count, and the counter that many further |
| CounterMode.CTR_Mode.SeekToIteration | src/third_party_libs/cryptopp/modes.cpp:93-103 | the counter is the register plus the iteration count, modulo 2 to the block's bits |
| CounterMode.CTR_Mode.OperateKeystream | src/third_party_libs/cryptopp/modes.cpp:110-128 | the next whole blocks of key text, bare or xored with an input |
| CounterMode.KeyTextIsStretch | src/third_party_libs/cryptopp/modes.cpp:110-128 | whole blocks of key text are that stretch of the one key stream, a function of the position |
| CounterMode.CTR_Mode.ProcessData | src/third_party_libs/cryptopp/strciphr.cpp:66-123 | left-over bytes, whole blocks, full buffers and a last part: the data xored with the key stream from the current position, for every length, buffer size and either kind of policy |
| CounterMode.CTR_Mode.Seek | src/third_party_libs/cryptopp/strciphr.cpp:134-151 | the same key stream from any position below 2^64 |
| CounterMode.CTR_Mode.Resynchronize | src/third_party_libs/cryptopp/strciphr.cpp:125-132 | a new vector at position zero; another length is refused, and what was left of a block is lost then |
| CounterMode.TransformTwice | src/third_party_libs/cryptopp/authenc.cpp:123-130 | the key stream undoes itself |
| CounterMode.ProcessAll | src/third_party_libs/cryptopp/strciphr.cpp:66-123 | however the data are cut up, the output is that of the whole |
| CounterMode.DecryptSlice | src/third_party_libs/cryptopp/strciphr.cpp:66-151 | any slice of what was enciphered in any pieces is deciphered by itself after a seek |
| Ccm.KeyStreamBlocks | src/third_party_libs/cryptopp/ccm.cpp:37-46 | while the counter fits its field the key stream of counter mode is E(A_0), E(A_1) and so on of section 2.3 of RFC 3610 |
| Ccm.ChainPadded | src/third_party_libs/cryptopp/ccm.cpp:108-113 | a short last block goes in as if padded with zeros |
| Ccm.ChainSections | src/third_party_libs/cryptopp/ccm.cpp:51-130 | first block, header and message chained one after the other give the CBC-MAC of the formatted input |
| Ccm.CryptIsCiphertext | src/third_party_libs/cryptopp/ccm.cpp:28-49 | for every message the code accepts, byte j of the output is byte j under byte j mod 16 of E(A_i), i = 1 + j / 16: the counter stays in its field |
| Ccm.TagIsAuthenticationTag | src/third_party_libs/cryptopp/ccm.cpp:132-136 | and the tag is the CBC-MAC value under E(A_0) |
| CcmFormat.FirstBlockReadOnce | src/third_party_libs/cryptopp/ccm.cpp:59-64 | size of the tag, nonce, message length and whether there is a header can be read off the first block |
| CcmFormat.HeaderLengthReadOnce | src/third_party_libs/cryptopp/ccm.cpp:67-90 | the header length can be read off its prefix, whatever follows |
| CcmFormat.LengthForms | src/third_party_libs/cryptopp/ccm.cpp:67-90 | where the 2, 6 and 10-byte prefixes begin and end |
| CcmFormat.MacInputReadOnce | src/third_party_libs/cryptopp/ccm.cpp:51-130 | no input of the CBC-MAC is the start of another: tag size, nonce, header and message can be read off it |
| CcmFormat.CounterBlockReadOnce | src/third_party_libs/cryptopp/ccm.cpp:28-49 | within its field no counter block comes back, nor under another nonce |
| CcmFormat.FirstBlockIsNoCounter | src/third_party_libs/cryptopp/ccm.cpp:28-64 | and none is a first block |
| CcmFormat.LengthFits | src/third_party_libs/cryptopp/ccm.h:43-44 | the lengths accepted are those that fit the length field |
| CcmFormat.PacketVector | src/third_party_libs/cryptopp/ccm.cpp:28-64 | the blocks of the first packet vectors in section 8 of RFC 3610 |
| CcmStreaming.CCM_Base.SetKey | src/third_party_libs/cryptopp/authenc.cpp:48-60 | accepted exactly for 16-byte blocks and even tag sizes from 4 to 16 |
| CcmStreaming.CCM_Base.Resynchronize | src/third_party_libs/cryptopp/authenc.cpp:62-73 | a run begins, for nonces of 7 to 13 bytes on a keyed object; the error otherwise |
| CcmStreaming.CCM_Base.Resync | src/third_party_libs/cryptopp/ccm.cpp:28-49 | L, the counter block and the key stream from its second block on |
| CcmStreaming.PutFirstBlock | src/third_party_libs/cryptopp/ccm.cpp:62-64 | writing flag, 64-bit length and nonce over each other gives the first block |
| CcmStreaming.PutHeaderLength | src/third_party_libs/cryptopp/ccm.cpp:67-90 | the prefix of the header length in the start of the buffer, in 2, 6 or 10 bytes |
| CcmStreaming.CCM_Base.FormFirstBlock | src/third_party_libs/cryptopp/ccm.cpp:59-64 | the first block of section 2.2 of RFC 3610 |
| CcmStreaming.CCM_Base.UncheckedSpecifyDataLengths | src/third_party_libs/cryptopp/ccm.cpp:51-91 | the run enters its header; only after a nonce |
| CcmStreaming.CCM_Base.SpecifyDataLengths | src/third_party_libs/cryptopp/cryptlib.cpp:204-216 | which lengths are refused |
| CcmStreaming.CCM_Base.AuthenticateData | src/third_party_libs/cryptopp/authenc.cpp:11-46 | whole blocks are chained and the rest is buffered, for every input length and every fill of the buffer |
| CcmStreaming.CCM_Base.AuthenticateLastHeaderBlock | src/third_party_libs/cryptopp/ccm.cpp:100-114 | refused unless the header had the specified length; otherwise flushed |
| CcmStreaming.CCM_Base.AuthenticateLastConfidentialBlock | src/third_party_libs/cryptopp/ccm.cpp:116-130 | the same for the message |
| CcmStreaming.CCM_Base.AuthenticateLastFooterBlock | src/third_party_libs/cryptopp/ccm.cpp:132-136 | the chaining value under the first block of the key stream |
| CcmStreaming.CCM_Base.Update | src/third_party_libs/cryptopp/authenc.cpp:75-102 | header bytes are added to the run; footer bytes close the message and are counted; the error, and the state kept, otherwise |
| CcmStreaming.CCM_Base.StartMessage | src/third_party_libs/cryptopp/authenc.cpp:118-122 | the header is closed once, and refused if its length is wrong |
| CcmStreaming.CCM_Base.TransformData | src/third_party_libs/cryptopp/authenc.cpp:123-130 | encrypting authenticates what goes in, decrypting what comes out |
| CcmStreaming.CCM_Base.ProcessData | src/third_party_libs/cryptopp/authenc.cpp:104-134 | the output, the message so far, the next state, and exactly which states and lengths are errors |
| CcmStreaming.CCM_Base.CloseSections | src/third_party_libs/cryptopp/authenc.cpp:155-163 | the chaining value is that of the whole formatted input |
| CcmStreaming.CCM_Base.TruncatedFinal | src/third_party_libs/cryptopp/authenc.cpp:136-176 | for every size up to a block: the tag of the run, cut to size, and exactly when it is refused: wrong lengths, footer data, wrong state |
| CcmStreaming.CCM_Base.TruncatedVerify | src/third_party_libs/cryptopp/cryptlib.cpp:301-307 | true exactly for the prefixes of the tag up to the digest size, the empty one among them; longer ones are refused |
| CcmStreaming.CCM_Base.EncryptAndAuthenticate | src/third_party_libs/cryptopp/cryptlib.cpp:218-225 | ciphertext and tag of the one-shot definition, and when the call succeeds, whatever the object did before |
| CcmStreaming.CCM_Base.DecryptAndVerify | src/third_party_libs/cryptopp/cryptlib.cpp:227-234 | the decrypted message, and true exactly for the prefixes of its tag up to the digest size, the empty one among them |
| CcmStreaming.RoundTrip | src/third_party_libs/cryptopp/cryptlib.cpp:218-234 | output and tag are those of section 2 of RFC 3610; decrypting them verifies and returns the message |
| CcmStreaming.AnySplit | src/third_party_libs/cryptopp/authenc.cpp:75-176 | however header and message are cut up, the output is the message xor E(A_1), E(A_2) and so on, and the tag the CBC-MAC xor E(A_0): sections 2.2 to 2.4 of RFC 3610 |
| BaseCode.EncoderBlockSize | src/third_party_libs/cryptopp/basecode.cpp:31-34 | the characters of the shortest run that is a whole number of bytes |
| BaseCode.DecoderBlockSize | src/third_party_libs/cryptopp/basecode.cpp:116-119 | the bytes of the same run |
| BaseCode.BlockLeast | src/third_party_libs/cryptopp/basecode.cpp:31-34 | that run is as short as can be |
| BaseText.TextIsNumber | src/third_party_libs/cryptopp/basecode.cpp:39-104 | the text spells the base-2^k digits of the data, read as one number and filled up with fewer zero bits than a character has |
| BaseText.PaddedText | src/third_party_libs/cryptopp/basecode.cpp:86-102 | padding goes behind it, up to whole blocks and less than one |
| BaseCode.BaseN_Encoder.TakeByte | src/third_party_libs/cryptopp/basecode.cpp:47-70 | one byte, in pieces, extends the bits in the buffer by its eight bits; every index is in range |
| BaseCode.BaseN_Encoder.PutByte | src/third_party_libs/cryptopp/basecode.cpp:44-84 | a block of text goes out exactly when it is complete |
| BaseCode.BaseN_Encoder.MessageEnd | src/third_party_libs/cryptopp/basecode.cpp:86-102 | the last characters and the padding complete the encoded text |
| BaseCode.BaseN_Encoder.Put2 | src/third_party_libs/cryptopp/basecode.cpp:39-104 | over any calls, what went out is the encoded text of the whole message |
| BaseCode.NewEncoder | src/third_party_libs/cryptopp/basecode.cpp:13-37 | refused exactly for widths outside 1 to 7 |
| BaseDecode.InitializeDecodingLookupArray | src/third_party_libs/cryptopp/basecode.cpp:169-188 | each entry is the index of the letter the character stands for, in either case if asked, or -1 |
| BaseDecode.BaseN_Decoder.TakeCharacter | src/third_party_libs/cryptopp/basecode.cpp:137-153 | one character extends the bits in the buffer by its own, over a byte edge or not; every index is in range |
| BaseDecode.BaseN_Decoder.PutCharacter | src/third_party_libs/cryptopp/basecode.cpp:127-159 | other characters are skipped; a block of bytes goes out exactly when it is complete |
| BaseDecode.BaseN_Decoder.Put2 | src/third_party_libs/cryptopp/basecode.cpp:124-167 | over any calls, what went out is the whole bytes of the message's characters |
| BaseDecode.NewDecoder | src/third_party_libs/cryptopp/basecode.cpp:106-122 | refused exactly for widths outside 1 to 7 |
| BaseText.GroupAt | src/third_party_libs/cryptopp/basecode.cpp:205-234 | where each group of the data stands in the grouped text, and what follows it |
| BaseRoundTrip.Grouper.PutPiece | src/third_party_libs/cryptopp/basecode.cpp:212-222 | a separator goes in front only when a group is full and more follows |
| BaseRoundTrip.Grouper.Put2 | src/third_party_libs/cryptopp/basecode.cpp:205-234 | over any calls, what went out is the grouped text, and the terminator at the end |
| BaseRoundTrip.LookupInverts | src/third_party_libs/cryptopp/basecode.cpp:169-188 | the table finds every letter and ignores exactly the characters that stand for none |
| BaseRoundTrip.TextRoundTrip | src/third_party_libs/cryptopp/basecode.cpp:39-234 | for every width, data, padding, group size, separator and terminator outside the alphabet, decoding the grouped text gives the data |
| BaseRoundTrip.StreamRoundTrip | src/third_party_libs/cryptopp/basecode.cpp:39-234 | the same through the three objects, with data and text each cut up in any way |
| DerLengths.DERLengthEncode | src/third_party_libs/cryptopp/asn.cpp:16-35 | the length octets, and how many |
| DerLengths.BERLengthDecode | src/third_party_libs/cryptopp/asn.cpp:37-73 | the value of as many octets as announced if it fits 64 bits; overflow, truncation and the indefinite form exactly where they occur |
| DerLengths.LengthRoundTrip | src/third_party_libs/cryptopp/asn.cpp:16-73 | every 64-bit length decodes to itself, whatever follows |
| DerLengths.LengthIsShortest | src/third_party_libs/cryptopp/asn.cpp:16-35 | no octets that decode to a length are fewer, and no others are as few (section 10.1 of ITU-T X.690) |
| DerLengths.LongLength | src/third_party_libs/cryptopp/asn.cpp:37-73 | any 1 to 127 octets in the long form are read if their value has 64 bits, and refused otherwise |
| DerLengths.CutOffLength | src/third_party_libs/cryptopp/asn.cpp:37-73 | length octets that are cut off are refused |
| DerValues.EncodeValue | src/third_party_libs/cryptopp/asn.cpp:218-223 | the base-128 digits, the top group chosen by the bit precision |
| DerValues.DecodeValue | src/third_party_libs/cryptopp/asn.cpp:225-242 | the value of the digits up to the first without continuation bit, if it fits 32 bits; the error otherwise |
| DerValues.SubIdentifierRoundTrip | src/third_party_libs/cryptopp/asn.cpp:218-242 | every 32-bit sub-identifier decodes to itself, whatever follows |
| DerValues.SubIdentifierMinimal | src/third_party_libs/cryptopp/asn.cpp:218-223 | no leading zero digits (section 8.19.2 of ITU-T X.690) |
| DerValues.DEREncodeOid | src/third_party_libs/cryptopp/asn.cpp:244-254 | tag, length and contents, 32-bit arithmetic in the first byte |
| DerValues.BERDecodeArcs | src/third_party_libs/cryptopp/asn.cpp:274-282 | sub-identifiers that fill the contents exactly; the error where one reaches beyond |
| DerValues.BERDecodeOid | src/third_party_libs/cryptopp/asn.cpp:256-283 | the identifier at the front, what follows it, or the error |
| DerValues.OidRoundTrip | src/third_party_libs/cryptopp/asn.cpp:244-283 | an identifier decodes to itself exactly when its second arc is below 40 and 40·first + second below 256 |
| DerValues.OidThatFails | src/third_party_libs/cryptopp/asn.cpp:244-283 | an identifier that does not: 2.999 |
| DerValues.TrimmedBuffer | src/third_party_libs/cryptopp/asn.h:298-315 | filling the buffer and trimming it leaves the contents octets |
| DerValues.DEREncodeUnsigned | src/third_party_libs/cryptopp/asn.h:296-320 | tag, length and contents, and how many bytes |
| DerValues.ReadUnsigned | src/third_party_libs/cryptopp/asn.h:341-352 | leading zeros are dropped down to the size of the type; the value if it fits |
| DerValues.BERDecodeUnsigned | src/third_party_libs/cryptopp/asn.h:326-356 | the value if it fits the type and the bounds, what follows it, or the error; after an indefinite length, for each value the unset variable may hold |
| DerValues.StaleLength | src/third_party_libs/cryptopp/asn.h:333-338 | one input with three results: 02 80 05 is 0, is 5 and is an error as the unset length is 0, 1 and 2 |
| DerValues.StaleUnused | src/third_party_libs/cryptopp/asn.h:326-338 | unless the tag is right and the length indefinite, the unset variable makes no difference |
| DerValues.StaleMatters | src/third_party_libs/cryptopp/asn.h:326-356 | there it makes none exactly if no leading part of what follows is a number of the type and within the bounds |
| DerValues.OpenUnsigned | src/third_party_libs/cryptopp/asn.h:326-356 | and then the octets read are as many as that variable says |
| DerValues.UnsignedRoundTrip | src/third_party_libs/cryptopp/asn.h:296-356 | for every tag and every integer of the type and within the bounds: it decodes to itself, whatever follows, exactly if the tag is not BOOLEAN or the value is 0 or 255 |
| DerValues.UnsignedMinimal | src/third_party_libs/cryptopp/asn.h:305-315 | the contents are minimal and never read as negative (section 8.3.2 of ITU-T X.690) |
| DerAccepted.DefiniteUnsigned | src/third_party_libs/cryptopp/asn.h:326-356 | under a definite length: the value of the contents, minimal or not, if it fits the type and the bounds, and the error otherwise |
| DerAccepted.AcceptedUnsigned | src/third_party_libs/cryptopp/asn.h:326-356 | nothing else is accepted: other tags, missing or cut-off lengths and contents are refused |
| DerAccepted.DefiniteOid | src/third_party_libs/cryptopp/asn.cpp:256-283 | a first byte and sub-identifiers, minimal or not, that fill the contents are read as these arcs |
| DerAccepted.AcceptedOid | src/third_party_libs/cryptopp/asn.cpp:256-283 | nothing else is accepted |
| DerAccepted.LengthExamples | src/third_party_libs/cryptopp/asn.cpp:16-35 | 38 is 26 and 201 is 81 c9 |
| DerAccepted.OidExample | src/third_party_libs/cryptopp/asn.cpp:244-254 | the octets of 1.2.840.113549 |
| DerAccepted.UnsignedExamples | src/third_party_libs/cryptopp/asn.h:298-315 | the octets of 127 and 128 |
| DerReencoding.Init | src/third_party_libs/cryptopp/asn.cpp:388-399 | which tag and length octets are accepted |
| DerReencoding.PutObject | src/third_party_libs/cryptopp/asn.cpp:504-511 | tag, shortest length, contents |
| DerReencoding.ReencodeParts | src/third_party_libs/cryptopp/asn.cpp:209-213 | the parts of an open object, up to its end-of-contents octets |
| DerReencoding.DERReencode | src/third_party_libs/cryptopp/asn.cpp:201-216 | for every input: success or failure, output and remaining input of the recursive definition; it ends |
| DerReencoding.RewritesObject | src/third_party_libs/cryptopp/asn.cpp:201-216 | any well-formed object is consumed exactly and rewritten with a definite, shortest length |
| DerReencoding.RewritesFramed | src/third_party_libs/cryptopp/asn.cpp:201-216 | whatever is framed by its lengths is accepted: under a definite length any tag and contents, under an open one a constructed tag and parts |
| DerReencoding.AcceptedIsFramed | src/third_party_libs/cryptopp/asn.cpp:201-216 | and nothing else is |
| DerReencoding.CutOffIsRefused | src/third_party_libs/cryptopp/asn.cpp:388-480 | what is accepted to its end is refused when it is cut off |
| DerReencoding.CutOffObject | src/third_party_libs/cryptopp/asn.cpp:388-480 | so is every well-formed object |
| DerReencoding.OpenTags | src/third_party_libs/cryptopp/asn.cpp:388-399 | the tags that may be open, in all four classes (section 8.1.2.5 of ITU-T X.690) |
| DerReencoding.MeaningKept | src/third_party_libs/cryptopp/asn.cpp:201-216 | the rewritten object has the tags and contents of the object, at every level |
| DerReencoding.LengthReadOnce | src/third_party_libs/cryptopp/asn.cpp:37-73 | length octets in front of anything are those of one length only |
| DerReencoding.ReadOnce | src/third_party_libs/cryptopp/asn.cpp:388-420 | a string of octets starts with at most one well-formed object, and what follows it is determined |
| DerReencoding.OneMeaning | src/third_party_libs/cryptopp/asn.cpp:201-216 | so octets denote one tree of tags and contents |
| DerReencoding.OutputMeans | src/third_party_libs/cryptopp/asn.cpp:201-216 | the octets put out denote what the octets taken in denote, and nothing else |
| DerReencoding.RewrittenWellFormed | src/third_party_libs/cryptopp/asn.cpp:201-216 | the output is a well-formed object |
| DerReencoding.Idempotent | src/third_party_libs/cryptopp/asn.cpp:201-216 | rewriting the output changes nothing |
| DerReencoding.ShortestExactly | src/third_party_libs/cryptopp/asn.cpp:207-208 | the output has shortest lengths all the way down exactly when the contents of the definite objects reached had them |
| DerReencoding.InnerStaysOpen | src/third_party_libs/cryptopp/asn.cpp:207-208 | an input whose output is not DER: an open object inside a definite one is copied as it is |

## Left out

- Block cipher internals, hash functions, key generation and parsing of keys: a cipher is an arbitrary function on blocks.
- Curve associativity, primality and Euler's theorem: hypotheses, see above.
- EcpMultiplication.SimultaneousMultiply: does not take zero exponents, which make the source read an empty list; the conversion to and from Montgomery form around it is not modelled.
- GeneralCascade.GeneralCascadeMultiplication: does not take an empty list, which the source would read beyond.
- GeneralCascade.HeapPop: does not model the inner order of the heap, only what the C++ standard promises of the heap functions.
- Loading and saving of precomputed tables, and `Integer`'s own multiplication and division.
- ModularInverse.AlmostInverse: keeps numbers with word counts beside them instead of word buffers; a number that does not fit into the modulus' buffer, which its assertion excludes, is not taken.
- ModularInverse.InverseMod: does not take a non-negative number that does not fit into the buffer of an odd modulus, for the same reason.
- Esign.CalculateRandomizedInverse: does not model the random generator; its values are a sequence, each between 0 and pq inclusive as `Integer::Randomize` allows, and the loop may run out of it.
- Gf232.MultiplicativeInverse: does not take an element that shares a factor with the modulus, which has no inverse.
- BlockChain.AdvancedProcessBlocks: does not model the reverse direction, which nothing modelled here uses; the counter variant is `CounterMode.ProcessCounterBlocks`.
- Counter mode: `GenerateBlock`, setting a key, and alignment hints.
- CcmStreaming.CCM_Base.SetKey: does not model the optional nonce among the parameters.
- CcmStreaming.CCM_Base.Resynchronize: does not model the default length -1.
- CcmStreaming.CCM_Base.TruncatedFinal: does not take a size over 16, for which the source reads beyond the 16 bytes of its chaining value, so that no result is defined; the size is the caller's to keep.
- CcmStreaming.CCM_Base.EncryptAndAuthenticate: does not take a tag size over 16, for the same reason.
- CCM runs in which data comes before `SpecifyDataLengths`, or which go on after an error: the object then stays valid but its run is no longer tracked.
- The CCM object holds its key stream as a function and a position; that a counter mode object gives just these bytes is `CounterMode.CTR_Mode.ProcessData` and `Seek`.
- The base encoder's characters are looked up in an alphabet of exactly 2^k letters.
- BaseDecode.NewDecoder: does not take a lookup table with entries from 2^k to 255, whose bits would run into the neighbouring character's; `InitializeDecodingLookupArray` makes none.
- Non-blocking output, channels and flushing of filters; wiping of memory; texts of exceptions.
- DerReencoding.DERReencode: does not state what has been written to the destination and taken from the source when it fails; does not model tags of more than one byte, or nested decoder objects: reading through an open object is reading its queue.
- DerReencoding.ReencodeParts: does not state what its two queues hold after a failure.
- `EncodedObjectFilter`, bit and octet strings, times and Boolean decoding in asn.cpp.
- `arc4`, `crc`, `cbcmac`, `eax`, `channels` and the MaidSafe tools: easier relatives of what is here, or plumbing.
