/** The Reed–Solomon evaluations of the Galois class as sums over the tables:
    the syndrome's Horner loop, the two sums of Forney's formula and the
    log-form substitution, each tied to the value of a polynomial at a power
    of α. */
module ReedSolomon {
  import opened Bits
  import opened FieldWalk
  import opened Field
  import opened Polynomials

  /** mulExp(c, (l·j) mod max) is c times the j-th power of α^l. */
  lemma PowTerm(poly: nat, w: nat, c: nat, l: nat, j: nat)
    requires Primitive(poly, w) && c <= Max(w)
    ensures TMulExp(poly, w, c, (l * j) % Max(w)) == TMul(poly, w, c, FPow(poly, w, Alpha(poly, w, l), j))
  {
    var e := l * j;
    TMulExpStep(poly, w, c, e % Max(w));
    StepNMod(poly, w, c, e);
    TMulAlphaRight(poly, w, c, e);
    FPowAlpha(poly, w, l, j);
  }

  // ---- Syndromes (calcSyndrome) ----

  /** The syndrome loop over the symbols s: wk = s_idx + wk·α^i for each symbol in turn. */
  function Horner(poly: nat, w: nat, s: seq<nat>, i: nat): nat
  {
    if |s| == 0 then 0 else Xor(s[|s| - 1], TMulExp(poly, w, Horner(poly, w, s[..|s| - 1], i), i))
  }

  lemma {:induction false} HornerBound(poly: nat, w: nat, s: seq<nat>, i: nat)
    requires 1 <= w && InField(w, s)
    ensures Horner(poly, w, s, i) <= Max(w)
  {
    if |s| > 0 {
      var h := Horner(poly, w, s[..|s| - 1], i);
      HornerBound(poly, w, s[..|s| - 1], i);
      ExpEntryBound(poly, w, LogEntry(poly, w, h) + i);
      XorField(w, s[|s| - 1], TMulExp(poly, w, h, i));
    }
  }

  /** The syndrome loop evaluates the received word, first symbol highest, at α^i. */
  lemma {:induction false} HornerEval(poly: nat, w: nat, s: seq<nat>, i: nat)
    requires Primitive(poly, w) && InField(w, s)
    ensures Horner(poly, w, s, i) == Eval(poly, w, Reverse(s), Alpha(poly, w, i))
  {
    if |s| > 0 {
      var x := Alpha(poly, w, i);
      var t := s[..|s| - 1];
      var h := Horner(poly, w, t, i);
      HornerBound(poly, w, t, i);
      AlphaRange(poly, w, i);
      assert Reverse(s)[0] == s[|s| - 1] && Reverse(s)[1..] == Reverse(t);
      calc {
        Horner(poly, w, s, i);
        Xor(s[|s| - 1], TMulExp(poly, w, h, i));
        { HornerStep(poly, w, h, i); }
        Xor(s[|s| - 1], TMul(poly, w, x, h));
        { HornerEval(poly, w, t, i); }
        Eval(poly, w, Reverse(s), x);
      }
    }
  }

  /** Every syndrome of the received word s is its value at the matching power of α. */
  lemma SyndromesEval(poly: nat, w: nat, s: seq<nat>, n: nat)
    requires 1 <= w && InField(w, s)
    ensures Primitive(poly, w) ==>
      forall i :: 0 <= i < n ==> Horner(poly, w, s, i) == Eval(poly, w, Reverse(s), Alpha(poly, w, i))
  {
    if Primitive(poly, w) {
      forall i | 0 <= i < n
        ensures Horner(poly, w, s, i) == Eval(poly, w, Reverse(s), Alpha(poly, w, i))
      {
        HornerEval(poly, w, s, i);
      }
    }
  }

  /** One Horner step: mulExp(h, i) = α^i·h. */
  lemma HornerStep(poly: nat, w: nat, h: nat, i: nat)
    requires Primitive(poly, w) && h <= Max(w)
    ensures TMulExp(poly, w, h, i) == TMul(poly, w, Alpha(poly, w, i), h)
  {
    TMulExpStep(poly, w, h, i);
    TMulAlphaRight(poly, w, h, i);
    TMulUnit(poly, w, h, Alpha(poly, w, i));
  }

  // ---- Forney's formula (doForney) ----

  /** ov after the loop: omega[0] plus omega[j]·z^j for 1 <= j < n, z = α^zlog. */
  function OmegaSum(poly: nat, w: nat, omega: seq<nat>, zlog: nat, n: nat): nat
    requires 1 <= w && 1 <= |omega| && n <= |omega|
  {
    if n <= 1 then omega[0]
    else Xor(OmegaSum(poly, w, omega, zlog, n - 1), TMulExp(poly, w, omega[n - 1], (zlog * (n - 1)) % Max(w)))
  }

  /** How many entries of sigma the derivative loop reads for a given jisu. */
  function SigmaReads(n: nat): nat
  {
    if n <= 2 then 2 else if n % 2 == 1 then n + 1 else n
  }

  /** dv after the loop: sigma[1] plus sigma[j+1]·z^j for even 2 <= j < n. */
  function DerivSum(poly: nat, w: nat, sigma: seq<nat>, zlog: nat, n: nat): nat
    requires 1 <= w && SigmaReads(n) <= |sigma|
  {
    if n <= 1 then sigma[1]
    else if (n - 1) % 2 == 0 then
      Xor(DerivSum(poly, w, sigma, zlog, n - 1), TMulExp(poly, w, sigma[n], (zlog * (n - 1)) % Max(w)))
    else DerivSum(poly, w, sigma, zlog, n - 1)
  }

  /** ω(z) as the loop computes it: the first n coefficients of ω evaluated at z = α^zlog. */
  lemma {:induction false} OmegaEval(poly: nat, w: nat, omega: seq<nat>, zlog: nat, n: nat)
    requires Primitive(poly, w) && InField(w, omega) && 1 <= n <= |omega|
    ensures OmegaSum(poly, w, omega, zlog, n) == Eval(poly, w, omega[..n], Alpha(poly, w, zlog))
  {
    if n == 1 {
      assert omega[..1][1..] == [];
      XorZero(omega[0]);
    } else {
      OmegaEval(poly, w, omega, zlog, n - 1);
      OmegaStep(poly, w, omega, zlog, n);
    }
  }

  /** One more coefficient of ω: omega[n-1]·z^(n-1) added to the value of the first n - 1. */
  lemma OmegaStep(poly: nat, w: nat, omega: seq<nat>, zlog: nat, n: nat)
    requires Primitive(poly, w) && InField(w, omega) && 2 <= n <= |omega|
    requires OmegaSum(poly, w, omega, zlog, n - 1) == Eval(poly, w, omega[..n - 1], Alpha(poly, w, zlog))
    ensures OmegaSum(poly, w, omega, zlog, n) == Eval(poly, w, omega[..n], Alpha(poly, w, zlog))
  {
    var z := Alpha(poly, w, zlog);
    var s, c := omega[..n - 1], omega[n - 1];
    AlphaRange(poly, w, zlog);
    assert omega[..n] == s + [c];
    assert InField(w, s);
    calc {
      OmegaSum(poly, w, omega, zlog, n);
      Xor(OmegaSum(poly, w, omega, zlog, n - 1), TMulExp(poly, w, c, (zlog * (n - 1)) % Max(w)));
      { PowTerm(poly, w, c, zlog, n - 1); }
      Xor(Eval(poly, w, s, z), TMul(poly, w, c, FPow(poly, w, z, |s|)));
      { EvalSnoc(poly, w, s, c, z); }
      Eval(poly, w, s + [c], z);
    }
  }

  /** σ'(z) as the loop computes it: the formal derivative of σ evaluated at z = α^zlog,
      when σ has degree n. */
  lemma DerivEval(poly: nat, w: nat, sigma: seq<nat>, zlog: nat, n: nat)
    requires Primitive(poly, w) && InField(w, sigma) && 1 <= n && |sigma| == n + 1
    ensures SigmaReads(n) <= |sigma|
    ensures DerivSum(poly, w, sigma, zlog, n) == Eval(poly, w, Deriv(sigma), Alpha(poly, w, zlog))
  {
    DerivPrefix(poly, w, sigma, zlog, n);
    assert Deriv(sigma)[..n] == Deriv(sigma);
  }

  lemma {:induction false} DerivPrefix(poly: nat, w: nat, sigma: seq<nat>, zlog: nat, m: nat)
    requires Primitive(poly, w) && InField(w, sigma) && 1 <= m < |sigma|
    ensures SigmaReads(m) <= |sigma|
    ensures DerivSum(poly, w, sigma, zlog, m) == Eval(poly, w, Deriv(sigma)[..m], Alpha(poly, w, zlog))
  {
    if m == 1 {
      assert Deriv(sigma)[..1][1..] == [];
      NTimesParity(1, sigma[1]);
      XorZero(sigma[1]);
    } else {
      DerivPrefix(poly, w, sigma, zlog, m - 1);
      DerivStep(poly, w, sigma, zlog, m);
    }
  }

  /** One more coefficient of the derivative: an even power adds sigma[m]·z^(m-1),
      an odd one adds nothing. */
  lemma DerivStep(poly: nat, w: nat, sigma: seq<nat>, zlog: nat, m: nat)
    requires Primitive(poly, w) && InField(w, sigma) && 2 <= m < |sigma|
    requires DerivSum(poly, w, sigma, zlog, m - 1) == Eval(poly, w, Deriv(sigma)[..m - 1], Alpha(poly, w, zlog))
    ensures DerivSum(poly, w, sigma, zlog, m) == Eval(poly, w, Deriv(sigma)[..m], Alpha(poly, w, zlog))
  {
    var d := Deriv(sigma);
    var z := Alpha(poly, w, zlog);
    var f := FPow(poly, w, z, m - 1);
    AlphaRange(poly, w, zlog);
    DerivInField(w, sigma);
    assert d[..m] == d[..m - 1] + [d[m - 1]];
    assert |d[..m - 1]| == m - 1;
    EvalSnoc(poly, w, d[..m - 1], d[m - 1], z);
    DerivCoef(sigma, m - 1);
    if (m - 1) % 2 == 0 {
      assert d[m - 1] == sigma[m];
      PowTerm(poly, w, sigma[m], zlog, m - 1);
    } else {
      assert d[m - 1] == 0;
      assert TMul(poly, w, 0, f) == 0;
      XorZero(DerivSum(poly, w, sigma, zlog, m - 1));
    }
  }

  /** The derivative's coefficient of x^j: s_(j+1) for even j, zero for odd j. */
  lemma DerivCoef(s: seq<nat>, j: nat)
    requires j + 1 < |s|
    ensures Deriv(s)[j] == if j % 2 == 0 then s[j + 1] else 0
  {
    NTimesParity(j + 1, s[j + 1]);
  }

  /** The point doForney evaluates at, α^(max - log ps), is the inverse of ps. */
  lemma ForneyPoint(poly: nat, w: nat, ps: nat)
    requires Primitive(poly, w)
    ensures Alpha(poly, w, Max(w) - LogEntry(poly, w, ps)) == TInv(poly, w, ps)
  {
    ExpEntryAlpha(poly, w, Max(w) - LogEntry(poly, w, ps));
  }

  /** Forney's formula as doForney computes it: for an error locator σ of degree jisu
      and an evaluator ω, ov = ω(1/ps) and dv = σ'(1/ps). */
  lemma ForneyEval(poly: nat, w: nat, sigma: seq<nat>, omega: seq<nat>, ps: nat, jisu: nat)
    requires 1 <= w && InField(w, sigma) && InField(w, omega)
    requires 1 <= |omega| && jisu <= |omega| && SigmaReads(jisu) <= |sigma|
    ensures Primitive(poly, w) && 1 <= jisu && |sigma| == jisu + 1 ==>
      && OmegaSum(poly, w, omega, Max(w) - LogEntry(poly, w, ps), jisu)
         == Eval(poly, w, omega[..jisu], TInv(poly, w, ps))
      && DerivSum(poly, w, sigma, Max(w) - LogEntry(poly, w, ps), jisu)
         == Eval(poly, w, Deriv(sigma), TInv(poly, w, ps))
  {
    if Primitive(poly, w) && 1 <= jisu && |sigma| == jisu + 1 {
      var zlog := Max(w) - LogEntry(poly, w, ps);
      ForneyPoint(poly, w, ps);
      OmegaEval(poly, w, omega, zlog, jisu);
      DerivEval(poly, w, sigma, zlog, jisu);
      assert Alpha(poly, w, zlog) == TInv(poly, w, ps);
    }
  }

  /** A single error of value e at the position whose locator is ps = α^pos: with the
      locator σ(x) = 1 + ps·x and the evaluator ω(x) = e as value arrays and jisu = 1,
      the two sums are ω_0 = e and σ_1 = ps, and Forney's formula ps·(e / ps) gives back e. */
  lemma ForneySingleError(poly: nat, w: nat, pos: nat, e: nat)
    requires Primitive(poly, w) && e <= Max(w)
    ensures var ps := Alpha(poly, w, pos);
      var zlog := Max(w) - LogEntry(poly, w, ps);
      TMul(poly, w, ps, TDiv(poly, w, OmegaSum(poly, w, [e], zlog, 1), DerivSum(poly, w, [1, ps], zlog, 1))) == e
  {
    var ps := Alpha(poly, w, pos);
    AlphaRange(poly, w, pos);
    var d := TDiv(poly, w, e, ps);
    TDivMul(poly, w, e, ps);
    TMulUnit(poly, w, d, ps);
  }

  /** One even step j = 2t of the derivative loop: the two coefficients past j - 1
      add σ_(j+1)·z^j and nothing. */
  lemma DerivSumStep(poly: nat, w: nat, sigma: seq<nat>, zlog: nat, t: nat)
    requires 1 <= w && 1 <= t && 2 * t + 1 < |sigma|
    ensures SigmaReads(2 * t - 1) <= |sigma| && SigmaReads(2 * t + 1) <= |sigma|
    ensures DerivSum(poly, w, sigma, zlog, 2 * t + 1)
         == Xor(DerivSum(poly, w, sigma, zlog, 2 * t - 1), TMulExp(poly, w, sigma[2 * t + 1], (zlog * (2 * t)) % Max(w)))
  {
    var n := 2 * t + 1;
    assert n - 1 == 2 * t && (n - 1) % 2 == 0 && (n - 2) % 2 == 1;
    assert DerivSum(poly, w, sigma, zlog, n - 1) == DerivSum(poly, w, sigma, zlog, n - 2);
  }

  /** While the derivative loop runs, j = 2t < jisu and sigma[j + 1] is one of the entries it reads. */
  lemma DerivLoopBound(t: nat, jisu: nat, len: nat)
    requires 1 <= t && 2 * t < jisu && SigmaReads(jisu) <= len
    ensures 2 * t + 1 < len
  {
  }

  /** When the derivative loop stops at j = 2t >= jisu, it has summed all jisu terms. */
  lemma DerivSumExit(poly: nat, w: nat, sigma: seq<nat>, zlog: nat, t: nat, jisu: nat)
    requires 1 <= w && 1 <= t && jisu <= 2 * t && (2 * t <= jisu + 1 || t == 1)
    requires SigmaReads(jisu) <= |sigma|
    ensures SigmaReads(2 * t - 1) <= |sigma|
    ensures DerivSum(poly, w, sigma, zlog, 2 * t - 1) == DerivSum(poly, w, sigma, zlog, jisu)
  {
    if jisu == 2 * t && 2 <= jisu {
      assert (jisu - 1) % 2 == 1;
    }
  }

  // ---- Substitution in log form (gfsubstitute) ----

  /** The table index the substitution reads for an exponent: the low w bits of e plus
      the bits above them. */
  function Fold(w: nat, e: nat): nat
  {
    Lo(e, w) + Hi(e, w)
  }

  /** Folding keeps the exponent modulo max: e = max·(e >> w) + fold(e). */
  lemma FoldSplit(w: nat, e: nat)
    ensures e == Times(Max(w), Hi(e, w)) + Fold(w, e)
  {
    var t := Hi(e, w);
    HiLo(e, w);
    ShlMul(t, w);
    TimesMul(Max(w), t);
    MulPred(t, Pow2(w));
  }

  lemma {:induction false} ShlMul(t: nat, k: nat)
    ensures Shl(t, k) == t * Pow2(k)
  {
    if k > 0 {
      ShlMul(t, k - 1);
      assert t * Pow2(k) == 2 * (t * Pow2(k - 1));
    }
  }

  /** Adding whole cycles of max does not move along the walk. */
  lemma {:induction false} AlphaTimesMax(poly: nat, w: nat, t: nat, x: nat)
    requires Primitive(poly, w)
    ensures Alpha(poly, w, Times(Max(w), t) + x) == Alpha(poly, w, x)
  {
    if t > 0 {
      AlphaPlusMax(poly, w, Times(Max(w), t - 1) + x);
      AlphaTimesMax(poly, w, t - 1, x);
    }
  }

  /** The folded index names the same power of α. */
  lemma AlphaFold(poly: nat, w: nat, e: nat)
    requires Primitive(poly, w)
    ensures Alpha(poly, w, Fold(w, e)) == Alpha(poly, w, e)
  {
    FoldSplit(w, e);
    AlphaTimesMax(poly, w, Hi(e, w), Fold(w, e));
  }

  /** Term k of the substitution: expTbl[fold(p_k + value·k)], skipped for a zero coefficient. */
  function SubstTerm(poly: nat, w: nat, p: seq<int>, value: nat, k: nat): nat
    requires k < |p| && AllLog(w, p)
  {
    if p[k] == -1 then 0 else ExpEntry(poly, w, Fold(w, p[k] + value * k))
  }

  /** sum after the loop over the first n terms. */
  function SubstSum(poly: nat, w: nat, p: seq<int>, value: nat, n: nat): nat
    requires n <= |p| && AllLog(w, p)
  {
    if n == 0 then 0 else Xor(SubstSum(poly, w, p, value, n - 1), SubstTerm(poly, w, p, value, n - 1))
  }

  /** Term k is the coefficient p_k times the k-th power of α^value. */
  lemma SubstTermValue(poly: nat, w: nat, p: seq<int>, value: nat, k: nat)
    requires Primitive(poly, w) && AllLog(w, p) && k < |p|
    ensures SubstTerm(poly, w, p, value, k)
         == TMul(poly, w, ExpOf(poly, w, p[k]), FPow(poly, w, Alpha(poly, w, value), k))
  {
    if p[k] != -1 {
      MulNonneg(value, k);
      var c: nat := p[k];
      var vk: nat := value * k;
      var e := c + vk;
      calc {
        SubstTerm(poly, w, p, value, k);
        ExpEntry(poly, w, Fold(w, e));
        { ExpEntryAlpha(poly, w, Fold(w, e)); AlphaFold(poly, w, e); }
        Alpha(poly, w, e);
        { TMulAlpha(poly, w, c, vk); }
        TMul(poly, w, Alpha(poly, w, c), Alpha(poly, w, vk));
        { ExpEntryAlpha(poly, w, c); FPowAlpha(poly, w, value, k); }
        TMul(poly, w, ExpOf(poly, w, p[k]), FPow(poly, w, Alpha(poly, w, value), k));
      }
    }
  }

  /** The values of log-form symbols are w-bit values. */
  lemma ExpSeqInField(poly: nat, w: nat, p: seq<int>)
    requires Primitive(poly, w) && AllLog(w, p)
    ensures InField(w, ExpSeq(poly, w, p))
  {
    forall k | 0 <= k < |p|
      ensures ExpSeq(poly, w, p)[k] <= Max(w)
    {
      LogOfExpOf(poly, w, p[k]);
    }
  }

  /** The substitution evaluates the polynomial the symbols stand for at α^value. */
  lemma {:induction false} SubstEval(poly: nat, w: nat, p: seq<int>, value: nat, n: nat)
    requires Primitive(poly, w) && AllLog(w, p) && n <= |p|
    ensures SubstSum(poly, w, p, value, n) == Eval(poly, w, ExpSeq(poly, w, p[..n]), Alpha(poly, w, value))
  {
    if n > 0 {
      SubstEval(poly, w, p, value, n - 1);
      SubstStep(poly, w, p, value, n);
    }
  }

  lemma SubstStep(poly: nat, w: nat, p: seq<int>, value: nat, n: nat)
    requires Primitive(poly, w) && AllLog(w, p) && 1 <= n <= |p|
    requires SubstSum(poly, w, p, value, n - 1) == Eval(poly, w, ExpSeq(poly, w, p[..n - 1]), Alpha(poly, w, value))
    ensures SubstSum(poly, w, p, value, n) == Eval(poly, w, ExpSeq(poly, w, p[..n]), Alpha(poly, w, value))
  {
    var c := ExpOf(poly, w, p[n - 1]);
    var q := ExpSeq(poly, w, p[..n - 1]);
    assert ExpSeq(poly, w, p[..n]) == q + [c];
    assert AllLog(w, p[..n - 1]);
    ExpSeqInField(poly, w, p[..n - 1]);
    LogOfExpOf(poly, w, p[n - 1]);
    SubstTermValue(poly, w, p, value, n - 1);
    AlphaRange(poly, w, value);
    EvalSnoc(poly, w, q, c, Alpha(poly, w, value));
  }

  /** The substitution's sum, put in log form and read back, is the polynomial's value at α^value. */
  lemma SubstLog(poly: nat, w: nat, p: seq<int>, value: nat)
    requires 1 <= w && AllLog(w, p)
    ensures Primitive(poly, w) ==>
      ExpOf(poly, w, LogOf(poly, w, SubstSum(poly, w, p, value, |p|)))
        == Eval(poly, w, ExpSeq(poly, w, p), Alpha(poly, w, value))
  {
    if Primitive(poly, w) {
      assert p[..|p|] == p;
      SubstEval(poly, w, p, value, |p|);
      ExpSeqInField(poly, w, p);
      EvalBound(poly, w, ExpSeq(poly, w, p), Alpha(poly, w, value));
      ExpOfLogOf(poly, w, SubstSum(poly, w, p, value, |p|));
    }
  }
}
