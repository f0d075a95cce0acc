# GF(2^w) arithmetic and Reed–Solomon helpers of CUETools.Parity, in Dafny

This project models the `Galois` class of CUETools.Parity (`CUETools.Parity/Galois.cs`)
and proves what its operations compute. The class is a GF(2^w) arithmetic engine. It
builds a doubled exponential table and a logarithm table by walking the powers of the
primitive element α. On those tables it offers scalar products, quotients and inverses,
conversions between value form and log form (in log form `-1` stands for the zero
element), log-form polynomial helpers, and two polynomial products. It also provides the
Reed–Solomon pieces of the codec: the generator polynomial, the byte-at-a-time encode
and decode tables, the syndrome computation and Forney's error-value formula.

Files:

- `bits.dfy` (module `Bits`): the integer bit operations the code uses, on naturals. It
  defines `Xor`, `Or`, `1 << k` as `Pow2`, `>> k` as `Hi`, `& (2^k - 1)` as `Lo`, and C#'s
  truncating `%` as `Rem`, with their algebra.
- `walk.dfy` (module `FieldWalk`): the constructor's walk, one `Step` at a time. It also
  defines the hypothesis `Primitive` (the polynomial is odd and the walk meets
  `max = 2^w - 1` distinct values) and an independent shift-and-reduce multiplication,
  `ShiftMul`. Under `Primitive` it proves the facts about the cycle that the table laws
  rest on.
- `field.dfy` (module `Field`): the table contents as functions of `(polynomial, w)`
  (`ExpEntry`, `LogEntry`) and the lookups (`TMul`, `TDiv`, `TInv`, `TMulExp`, `TDivExp`).
  It proves the field laws these lookups satisfy: inversion of the tables, periodicity,
  commutativity, associativity, distributivity, inverse, quotient, and agreement with
  `ShiftMul`.
- `poly.dfy` (module `Polynomials`): polynomials as coefficient sequences, lowest degree
  first. It defines evaluation, the generator Π(x + α^k), convolution in value form and
  in log form, and the formal derivative.
- `rs.dfy` (module `ReedSolomon`): the syndrome's Horner loop, the two sums of Forney's
  formula and the log-form substitution. It proves each of them equal to the value of a
  polynomial at a power of α.
- `galois.dfy` (module `Parity`): class `Galois` with the two tables as `array` fields,
  and its constructor, functions and methods. Each loop in the source is a loop here with
  its invariants. Each method's `ensures` ties its result or its output buffer to the
  specification functions of the modules above.

Behaviours of the code that the contracts state:

- `gfdiff` keeps `a[i+1]` at even `i` and puts `-1` at odd `i` (Galois.cs:219).
  `Polynomials.DiffIsDerivative` proves this is the formal derivative, read with index `i`
  as the coefficient of `x^i`.
- `calcSyndrome` evaluates at α^i with no `symStart` offset; the line that adds the
  offset is commented out (Galois.cs:474-475).
- `doForney` reads `sigma` and `omega` as value-form arrays, because `mulExp` takes a
  value (Galois.cs:123, 519, 526).
- `div(a, 0)` and `inv(0)` do not fail. `logTbl[0]` keeps its initial 0, because the walk
  never meets 0 for an odd polynomial. So `div(a, 0) == a` and `inv(0) == 1`, and the
  model states these results instead of excluding a zero divisor.

## Model

| member | source | states |
|---|---|---|
| Parity.StandardFields | CUETools.Parity/Galois.cs:538-560 | the two instances' polynomials 0x1d (w = 8) and 0x1100B (w = 16) are odd, so max is 0xFF and 0xFFFF, every expTbl entry lies in [1, max] and logTbl[0] keeps 0 |
| Parity.Galois.constructor | CUETools.Parity/Galois.cs:18-37 | the tables have lengths 2·max and max+1 and hold exactly what the walk leaves: expTbl[i] = α^(i mod max), and logTbl[v] = the last step at which the walk met v |
| Parity.Galois.WalkTables | CUETools.Parity/Galois.cs:23-36 | the constructor's loop, proved by invariants: after i steps d = α^i, both halves of expTbl are filled below i, and logTbl holds the last-met step for every value |
| Parity.Galois.WalkStep | CUETools.Parity/Galois.cs:31-35 | one step records d in expTbl[i] and expTbl[max+i] and i in logTbl[d], then moves d on to α^(i+1) |
| Parity.Galois.NextD | CUETools.Parity/Galois.cs:33-35 | the shift, the test of bit w and the reduction `(d ^ polynomial) & max` compute multiplication by α and keep d a w-bit value |
| FieldWalk.StepCode | CUETools.Parity/Galois.cs:33-35 | the code's bit operations equal the top-bit form of multiplication by α used in the proofs |
| Field.ExpEntryRange | CUETools.Parity/Galois.cs:26-36 | for an odd polynomial every expTbl entry lies in [1, max], and expTbl[i + max] = expTbl[i] |
| Field.LogExp | CUETools.Parity/Galois.cs:26-36 | under a primitive polynomial logTbl[expTbl[i]] = i for i < max |
| Field.ExpLog | CUETools.Parity/Galois.cs:26-36 | under a primitive polynomial expTbl[logTbl[v]] = v for v in [1, max] |
| Field.LogZero | CUETools.Parity/Galois.cs:24-32 | logTbl[0] keeps its initial 0 because the walk never meets 0 |
| FieldWalk.AlphaPeriod | CUETools.Parity/Galois.cs:26-36 | under a primitive polynomial the walk is back at 1 after max steps |
| FieldWalk.WalkDistinct | CUETools.Parity/Galois.cs:26-36 | under the primitivity hypothesis the walk's values α^i for i < max are pairwise distinct; the guard at lines 29-30, commented out in the source, would only have caught d == 0, and this is strictly stronger (an odd polynomial never reaches 0 but may cycle early) |
| Parity.Galois.ToExp | CUETools.Parity/Galois.cs:69-72 | toExp(a) is α^a; it is nonzero and at most max for an odd polynomial, and its log is a when a < max |
| Parity.Galois.ToLog | CUETools.Parity/Galois.cs:80-83 | toLog(a) is an exponent below max, and α raised to it is a for nonzero a |
| Parity.Galois.ToPos | CUETools.Parity/Galois.cs:95-98 | the position counted from the first symbol: length - 1 - pos is the exponent of the locator a |
| Parity.Galois.Mul | CUETools.Parity/Galois.cs:108-111 | mul(a, b) stays in range, is zero exactly when a factor is zero, and equals shift-and-reduce multiplication under a primitive polynomial |
| Field.TMulShift | CUETools.Parity/Galois.cs:108-111 | the table product equals the reference shift-and-reduce product `ShiftMul` |
| Field.TMulUnit | CUETools.Parity/Galois.cs:108-111 | mul is commutative, mul(a, 0) = mul(0, a) = 0 and mul(a, 1) = a |
| Field.TMulAssoc | CUETools.Parity/Galois.cs:108-111 | mul is associative |
| Field.TMulDistrib | CUETools.Parity/Galois.cs:108-111 | mul distributes over addition (xor) |
| Parity.Galois.MulExp | CUETools.Parity/Galois.cs:121-124 | mulExp(a, b) is a multiplied b times by α; the lookup needs log a + b inside expTbl |
| Field.TMulExpMul | CUETools.Parity/Galois.cs:121-124 | mulExp(a, e) = mul(a, α^e) |
| Parity.Galois.Div | CUETools.Parity/Galois.cs:134-137 | div(a, b)·b = a for nonzero b, div(0, b) = 0, and div(a, 0) = a because the zero divisor is not checked |
| Field.TDivOfMul | CUETools.Parity/Galois.cs:108-137 | div(mul(a, b), b) = a for nonzero b |
| Parity.Galois.DivExp | CUETools.Parity/Galois.cs:147-150 | divExp(a, b) is undone by mulExp(·, b) for 0 ≤ b ≤ max |
| Parity.Galois.Inv | CUETools.Parity/Galois.cs:159-162 | mul(a, inv(a)) = 1 for nonzero a, and inv(0) = 1 |
| Parity.Galois.ToLogArray | CUETools.Parity/Galois.cs:164-170 | toLog(int[]) gives each value's log form, -1 for 0, and toExp of the result gives the input back |
| Parity.Galois.ToLogUShorts | CUETools.Parity/Galois.cs:172-178 | the same conversion from ushort symbols, with the same round trip |
| Parity.Galois.ToExpArray | CUETools.Parity/Galois.cs:180-186 | toExp(int[]) gives each symbol's value, 0 for -1, and toLog of the result gives the log-form input back |
| Parity.Galois.LogSeqRoundTrip | CUETools.Parity/Galois.cs:164-186 | toExp(toLog(p)) = p for every value-form p |
| Field.ExpOfLogOf | CUETools.Parity/Galois.cs:164-186 | a value converted to log form and back is unchanged (0 goes through -1) |
| Field.LogOfExpOf | CUETools.Parity/Galois.cs:164-186 | a log-form symbol converted to a value and back is unchanged |
| Parity.Galois.GfAdd | CUETools.Parity/Galois.cs:188-194 | gfadd is xor of the values read back in log form: gfadd(a, -1) = a and gfadd(a, a) = -1 |
| Parity.Galois.GfAddArray | CUETools.Parity/Galois.cs:196-204 | every entry of the result is gfadd of the matching entry and b |
| Parity.Galois.GfDiff | CUETools.Parity/Galois.cs:206-221 | the result has length n-1, with a[i+1] at even i and -1 at odd i |
| Polynomials.DiffIsDerivative | CUETools.Parity/Galois.cs:206-221 | gfdiff's output, read as values, is the formal derivative over characteristic 2 |
| Parity.Galois.GfMul | CUETools.Parity/Galois.cs:223-226 | the exponent sum is taken in 32-bit `int`: a negative operand gives -1; for log-form operands the result is the log of the product; a sum of 2^31 or more wraps negative and gives a result in (-max, 0] |
| Field.LogMul | CUETools.Parity/Galois.cs:223-226 | adding exponents modulo max multiplies the values |
| Parity.Galois.GfDiv | CUETools.Parity/Galois.cs:228-231 | the exponent difference max + a - b is taken in 32-bit `int`: only the dividend is checked for -1; for log-form operands the result times the divisor gives the dividend; a difference in [2^31, 2^32) wraps negative and gives a result in (-max, 0] |
| Field.LogDiv | CUETools.Parity/Galois.cs:228-231 | (max + a - b) mod max names the quotient of α^a by α^b |
| Parity.Galois.GfPow | CUETools.Parity/Galois.cs:233-236 | the product value·p is taken in 32-bit `int`: with no sentinel check, -1 gives -(p mod max); an exponent v with v·p < 2^31 gives the log of the p-th power; a product in [2^31, 2^32) wraps negative and gives a result in (-max, 0] |
| Bits.Wrap32Product | CUETools.Parity/Galois.cs:235 | the 32-bit product is exact for the sentinel -1 and for non-negative products below 2^31, and negative from 2^31 to 2^32 |
| Field.GfPowRem | CUETools.Parity/Galois.cs:233-236 | C#'s remainder of value·p by max, for the sentinel and for an exponent |
| Parity.Galois.GfSubstitute | CUETools.Parity/Galois.cs:238-249 | -1 for the zero point; otherwise the log form of the sum, whose value is the polynomial evaluated at α^value |
| Parity.Galois.AddSubstTerm | CUETools.Parity/Galois.cs:242-247 | one pass of the loop adds the k-th term α^(p[k] + value·k), looked up at the folded exponent, and skips -1 coefficients |
| ReedSolomon.AlphaFold | CUETools.Parity/Galois.cs:245-246 | the folded index (pow & max) + (pow >> w) names the same power of α as pow |
| ReedSolomon.SubstEval | CUETools.Parity/Galois.cs:238-249 | the loop's sum over the first n terms is the value at α^value of the first n coefficients |
| ReedSolomon.SubstLog | CUETools.Parity/Galois.cs:238-249 | the log form of the sum, read back, is the polynomial's value at α^value |
| Parity.Galois.GfConvFull | CUETools.Parity/Galois.cs:251-254 | gfconv(a, b) gives all a.Length + b.Length - 1 coefficients of the product |
| Parity.Galois.GfConv | CUETools.Parity/Galois.cs:256-276 | seki[k] is the log form of the xor of α^(a[ia]+b[ib]) over ia + ib = k, skipping -1, truncated to len |
| Parity.Galois.AddLogRow | CUETools.Parity/Galois.cs:259-272 | one row of the outer loop adds all products of a[ia] that land inside seki |
| Parity.Galois.AddLogProduct | CUETools.Parity/Galois.cs:265-270 | one inner step adds expTbl[a[ia] + b[ib]] into seki[ia + ib] unless b[ib] is -1 |
| Parity.Galois.LogRowDone | CUETools.Parity/Galois.cs:264-271 | once the products of row ia below len are in, or a[ia] is -1, the row is complete |
| Parity.Galois.MulPolyFull | CUETools.Parity/Galois.cs:300-303 | mulPoly(a, b) gives all a.Length + b.Length - 1 coefficients of the product |
| Parity.Galois.MulPolyLen | CUETools.Parity/Galois.cs:305-310 | mulPoly(a, b, len) gives the first len coefficients in a new array |
| Parity.Galois.MulPoly | CUETools.Parity/Galois.cs:320-338 | seki is cleared, then seki[k] is the xor of mul(a[ia], b[ib]) over ia + ib = k, truncated to seki.Length; nothing else is written |
| Parity.Galois.AddRow | CUETools.Parity/Galois.cs:323-337 | one row of the outer loop adds all products of a nonzero a[ia] that land inside seki |
| Parity.Galois.AddProduct | CUETools.Parity/Galois.cs:331-334 | one inner step adds the product a[ia]·b[ib] into seki[ia + ib] unless b[ib] is 0 |
| Parity.Galois.ConvRowDone | CUETools.Parity/Galois.cs:328-336 | once the products of row ia below len are in, or a[ia] is 0, the row is complete |
| Polynomials.GfConvMulPoly | CUETools.Parity/Galois.cs:256-338 | toExp(gfconv(toLog(a), toLog(b))) equals mulPoly(a, b), coefficient by coefficient |
| Polynomials.LogConvMatches | CUETools.Parity/Galois.cs:256-338 | the log-form partial sums over the first n rows equal the value-form ones |
| Polynomials.ConvLinear | CUETools.Parity/Galois.cs:320-338 | mulPoly(p, [c, 1]) is multiplication by (x + c), the step the generator is built from |
| Parity.Galois.MakeEncodeGx | CUETools.Parity/Galois.cs:370-386 | the array has npar entries, and g[j] is the coefficient of x^(npar-1-j) in Π_{k<npar}(x + α^k) |
| Parity.Galois.GxRound | CUETools.Parity/Galois.cs:374-384 | one outer pass multiplies the stored product by (x + α^i) |
| Parity.Galois.MulLinearPass | CUETools.Parity/Galois.cs:378-383 | the inner loop and the last-slot update multiply the stored polynomial by (x + ex) in place |
| Parity.Galois.MulLinearStep | CUETools.Parity/Galois.cs:381 | g[j] = mul(g[j], ex) ^ g[j+1] is the new coefficient of that degree; nothing else changes |
| Polynomials.GenPolyShape | CUETools.Parity/Galois.cs:361-386 | the generator is monic of degree npar with w-bit coefficients |
| Polynomials.EncodeGxComplete | CUETools.Parity/Galois.cs:361-386 | the stored coefficients, reversed and completed with the implicit leading 1, are the generator |
| Polynomials.GenPolyRoots | CUETools.Parity/Galois.cs:361-386 | the generator vanishes at each root α^k, k < npar |
| Polynomials.EncodeGxRoots | CUETools.Parity/Galois.cs:361-386 | makeEncodeGx's array with its leading 1 vanishes at each α^k, k < npar |
| Parity.Galois.MakeEncodeGxLog | CUETools.Parity/Galois.cs:388-398 | throws exactly when a coefficient is 0; otherwise each entry is the log of the makeEncodeGx coefficient |
| Parity.Galois.MakeEncodeTable | CUETools.Parity/Galois.cs:406-426 | throws exactly when makeEncodeGxLog does; otherwise [ib,0,i] = mul(ib, gx[i]) and [ib,1,i] = mul(ib<<8, gx[i]); row 0 is zero |
| Parity.Galois.FillEncodeRow | CUETools.Parity/Galois.cs:415-424 | fills row ib of the encode table and leaves every other row unchanged |
| Parity.Galois.FillEncodeCell | CUETools.Parity/Galois.cs:419-423 | fills both halves of column i of row ib |
| Parity.Galois.EncodeEntry | CUETools.Parity/Galois.cs:417-422 | with w = 16, ib << 8 indexes logTbl and the sum of logs indexes expTbl, giving the product |
| Parity.Galois.MakeDecodeTable | CUETools.Parity/Galois.cs:434-453 | [ib,0,i] = mul(ib, α^i) and [ib,1,i] = mul(ib<<8, α^i); row 0 is zero |
| Parity.Galois.FillDecodeRow | CUETools.Parity/Galois.cs:442-451 | fills row ib of the decode table and leaves every other row unchanged |
| Parity.Galois.FillDecodeCell | CUETools.Parity/Galois.cs:446-450 | fills both halves of column i of row ib |
| Parity.Galois.DecodeEntry | CUETools.Parity/Galois.cs:444-449 | with w = 16 every index the decode table reads is in range and the entry is the product |
| Parity.Galois.CalcSyndrome | CUETools.Parity/Galois.cs:466-481 | syn[i] is the Horner value of data[0..length), first symbol highest, at α^i with no symStart offset; only syn is written; the result is true iff every syn[i] is 0 |
| Parity.Galois.SyndromeInto | CUETools.Parity/Galois.cs:469-479 | one outer pass sets syn[i] and keeps hasErr zero exactly while all syndromes so far are zero |
| Parity.Galois.SyndromeAt | CUETools.Parity/Galois.cs:471-476 | the inner Horner loop computes the i-th syndrome |
| ReedSolomon.HornerEval | CUETools.Parity/Galois.cs:471-476 | the Horner loop evaluates the received word, first symbol highest, at α^i |
| ReedSolomon.SyndromesEval | CUETools.Parity/Galois.cs:466-481 | every syndrome is the received word's value at the matching power of α |
| Parity.Galois.DoForney | CUETools.Parity/Galois.cs:511-535 | the result is mul(ps, div(ov, dv)), with ov and dv the two loop sums at zlog = max - log ps |
| Parity.Galois.OmegaValue | CUETools.Parity/Galois.cs:516-520 | ov = omega[0] ⊕ Σ_{1≤j<jisu} mulExp(omega[j], zlog·j mod max) |
| Parity.Galois.AddOmegaTerm | CUETools.Parity/Galois.cs:519 | one pass adds omega[j]·z^j |
| Parity.Galois.DerivValue | CUETools.Parity/Galois.cs:523-527 | dv = sigma[1] ⊕ Σ over even 2≤j<jisu of mulExp(sigma[j+1], zlog·j mod max) |
| Parity.Galois.AddDerivTerm | CUETools.Parity/Galois.cs:526 | one pass adds sigma[j+1]·z^j |
| ReedSolomon.OmegaEval | CUETools.Parity/Galois.cs:516-520 | ov is ω evaluated at z = α^zlog over its first jisu coefficients |
| ReedSolomon.DerivEval | CUETools.Parity/Galois.cs:523-527 | for σ of degree jisu, dv is the formal derivative σ' evaluated at z |
| ReedSolomon.ForneyPoint | CUETools.Parity/Galois.cs:513 | z = α^(max - log ps) is the inverse of ps |
| ReedSolomon.ForneyEval | CUETools.Parity/Galois.cs:511-535 | ov = ω(1/ps) and dv = σ'(1/ps), the two factors of Forney's formula e = ps·ω(z)/σ'(z) |
| ReedSolomon.ForneySingleError | CUETools.Parity/Galois.cs:511-535 | with jisu = 1, σ = [1, α^pos] and ω = [e], the formula returns e |

## Left out

- The unsafe pointer overloads `gfconv(int*, …)`, `mulPoly(int*, …)` and
  `calcSyndrome(ushort*, …)` (Galois.cs:278-298, 340-359, 494-509) repeat the array
  versions line for line. The array versions stand for them. The one difference is that
  `calcSyndrome(ushort*, …)` reads 16-bit symbols.
- `Galois81D.instance` and `Galois16.instance` are static initialisation. Only their
  `(polynomial, w)` constants are kept, as `Parity.Polynomial8` (0x1d, w = 8) and
  `Parity.Polynomial16` (0x1100B, w = 16); `Parity.StandardFields` states what oddness
  alone gives for them.
- Primitivity of 0x1d at w = 8 and of 0x1100B at w = 16 is not proved. Every field law
  takes `FieldWalk.Primitive` as a hypothesis. The code never checks it either.
- Parity.Galois.constructor: requires 1 ≤ w ≤ 16. Wider symbols would truncate the
  `(ushort)` casts, and the code is only used at w = 8 and w = 16.
- The `ExpTbl`, `LogTbl` and `Max` properties (Galois.cs:39-61) are the class's fields,
  read directly.
- Parity.Galois.MakeEncodeTable and Parity.Galois.MakeDecodeTable: require w = 16,
  because `LogTbl[ib << 8]` is only inside the table at that width.
- Parity.Galois.DoForney: takes `sigma` and `omega` as sequences, not raw pointers. Its
  precondition names how many entries the two loops read; the code trusts its caller on
  that.
- Parity.Galois.MulExp and Parity.Galois.DivExp: require that the looked-up index lies
  inside expTbl. That is the condition under which the C# lookup does not throw.
- Parity.Galois.GfSubstitute and Parity.Galois.AddSubstTerm: require every exponent
  p[k] + value·k to stay below 2^31. C#'s 32-bit wrap-around of a larger `pow` is not
  modelled (its negative `pow >> w` would index outside expTbl or read a wrong entry).
- Parity.Galois.DoForney, Parity.Galois.OmegaValue, Parity.Galois.DerivValue,
  Parity.Galois.AddOmegaTerm and Parity.Galois.AddDerivTerm: require the exponent
  products zlog·j (j < jisu) to stay below 2^31; doForney asks max·(jisu - 1) < 2^31.
  C#'s 32-bit wrap-around of a larger `zlog * j` is not modelled.
- Parity.Galois.MulPoly, Parity.Galois.AddRow and Parity.Galois.AddProduct: require the
  output buffer `seki` to be a different array from both inputs. The C# accepts an
  aliased call, which would clear the input before reading it; that behaviour is not
  modelled. Its caller in the class, `mulPoly(a, b, len)`, passes a fresh array (Galois.cs:305-310).
- Exceptions from out-of-range indexing are preconditions, not modelled results.
- There is no concurrency, I/O or floating point in this code.
