/** Polynomials over GF(2^w) as coefficient sequences, lowest degree first, and
    what the Reed–Solomon helpers of the Galois class compute on them. */
module Polynomials {
  import opened Bits
  import opened FieldWalk
  import opened Field

  /** Every coefficient is a w-bit value. */
  predicate InField(w: nat, p: seq<nat>)
  {
    forall k :: 0 <= k < |p| ==> p[k] <= Max(w)
  }

  /** p(x) by Horner's rule from the constant term up: p0 + x·(p1 + x·(…)). */
  function Eval(poly: nat, w: nat, p: seq<nat>, x: nat): nat
  {
    if |p| == 0 then 0 else Xor(p[0], TMul(poly, w, x, Eval(poly, w, p[1..], x)))
  }

  /** The coefficients of p(x)·(x + c). */
  function MulLinear(poly: nat, w: nat, p: seq<nat>, c: nat): (r: seq<nat>)
    ensures |r| == |p| + 1
  {
    seq(|p| + 1, d requires 0 <= d <= |p| => LinearCoef(poly, w, p, c, d))
  }

  /** The coefficient of x^d in p(x)·(x + c): c·p_d + p_(d-1). */
  function LinearCoef(poly: nat, w: nat, p: seq<nat>, c: nat, d: nat): nat
    requires d <= |p|
  {
    Xor(if d < |p| then TMul(poly, w, p[d], c) else 0, if d > 0 then p[d - 1] else 0)
  }

  /** The generator polynomial Π_{k<n} (x + α^k), with α^k read from expTbl[k]. */
  function GenPoly(poly: nat, w: nat, n: nat): (r: seq<nat>)
    ensures |r| == n + 1
  {
    if n == 0 then [1] else MulLinear(poly, w, GenPoly(poly, w, n - 1), ExpEntry(poly, w, n - 1))
  }

  /** Xor of two w-bit values is a w-bit value. */
  lemma XorField(w: nat, a: nat, b: nat)
    requires a <= Max(w) && b <= Max(w)
    ensures Xor(a, b) <= Max(w)
  {
    XorBound(a, b, w);
  }

  /** A polynomial with w-bit coefficients takes w-bit values. */
  lemma {:induction false} EvalBound(poly: nat, w: nat, p: seq<nat>, x: nat)
    requires 1 <= w && InField(w, p)
    ensures Eval(poly, w, p, x) <= Max(w)
  {
    if |p| > 0 {
      EvalBound(poly, w, p[1..], x);
      TMulBound(poly, w, x, Eval(poly, w, p[1..], x));
      XorField(w, p[0], TMul(poly, w, x, Eval(poly, w, p[1..], x)));
    }
  }

  /** Multiplying by (x + c) keeps the coefficients w-bit values. */
  lemma MulLinearInField(poly: nat, w: nat, p: seq<nat>, c: nat)
    requires 1 <= w && InField(w, p)
    ensures InField(w, MulLinear(poly, w, p, c))
  {
    var r := MulLinear(poly, w, p, c);
    forall d | 0 <= d < |r|
      ensures r[d] <= Max(w)
    {
      var t := if d < |p| then TMul(poly, w, p[d], c) else 0;
      TMulBound(poly, w, if d < |p| then p[d] else 0, c);
      XorField(w, t, if d > 0 then p[d - 1] else 0);
    }
  }

  /** The generator polynomial is monic of degree n, with w-bit coefficients. */
  lemma {:induction false} GenPolyShape(poly: nat, w: nat, n: nat)
    requires 1 <= w
    ensures InField(w, GenPoly(poly, w, n))
    ensures GenPoly(poly, w, n)[n] == 1
  {
    if n > 0 {
      var p := GenPoly(poly, w, n - 1);
      GenPolyShape(poly, w, n - 1);
      MulLinearInField(poly, w, p, ExpEntry(poly, w, n - 1));
      MulLinearTop(poly, w, p, ExpEntry(poly, w, n - 1));
    }
  }

  /** Multiplying by (x + c) shifts the leading coefficient up one degree. */
  lemma MulLinearTop(poly: nat, w: nat, p: seq<nat>, c: nat)
    requires |p| > 0
    ensures MulLinear(poly, w, p, c)[|p|] == p[|p| - 1]
  {
    XorZero(p[|p| - 1]);
  }

  /** The coefficients of p·(x + c) above the constant term are those of
      p[1..]·(x + c) with p[0] added to the lowest. */
  lemma MulLinearTail(poly: nat, w: nat, p: seq<nat>, c: nat)
    requires |p| > 0
    ensures MulLinear(poly, w, p, c)[0] == TMul(poly, w, p[0], c)
    ensures MulLinear(poly, w, p, c)[1..]
         == [Xor(MulLinear(poly, w, p[1..], c)[0], p[0])] + MulLinear(poly, w, p[1..], c)[1..]
  {
    var r, t := MulLinear(poly, w, p, c), MulLinear(poly, w, p[1..], c);
    var u := [Xor(t[0], p[0])] + t[1..];
    XorZero(TMul(poly, w, p[0], c));
    if |p| > 1 {
      XorZero(TMul(poly, w, p[1], c));
    } else {
      XorZero(0);
    }
    forall d | 0 <= d < |u|
      ensures r[1..][d] == u[d]
    {
      if d > 0 {
        assert r[d + 1] == t[d];
      }
    }
  }

  /** Adding v to the constant term adds v to every value. */
  lemma EvalAddConst(poly: nat, w: nat, s: seq<nat>, v: nat, x: nat)
    requires |s| > 0
    ensures Eval(poly, w, [Xor(s[0], v)] + s[1..], x) == Xor(v, Eval(poly, w, s, x))
  {
    var s' := [Xor(s[0], v)] + s[1..];
    assert s'[1..] == s[1..];
    XorComm(s[0], v);
    XorAssoc(v, s[0], TMul(poly, w, x, Eval(poly, w, s[1..], x)));
  }

  /** The field identity behind one step of evaluating p·(x + c):
      p0·c + x·(p0 + E·(x + c)) = (p0 + x·E)·(x + c). */
  lemma LinearStep(poly: nat, w: nat, p0: nat, c: nat, x: nat, e: nat)
    requires Primitive(poly, w) && p0 <= Max(w) && c <= Max(w) && x <= Max(w) && e <= Max(w)
    ensures Xor(TMul(poly, w, p0, c), TMul(poly, w, x, Xor(p0, TMul(poly, w, e, Xor(x, c)))))
         == TMul(poly, w, Xor(p0, TMul(poly, w, x, e)), Xor(x, c))
  {
    var y := Xor(x, c);
    XorField(w, x, c);
    var ey, xe := TMul(poly, w, e, y), TMul(poly, w, x, e);
    TMulBound(poly, w, e, y);
    TMulBound(poly, w, x, e);
    var p0y, xey := TMul(poly, w, p0, y), TMul(poly, w, xe, y);
    TMulBound(poly, w, p0, c);
    TMulBound(poly, w, x, p0);
    calc {
      Xor(TMul(poly, w, p0, c), TMul(poly, w, x, Xor(p0, ey)));
      { TMulDistrib(poly, w, x, p0, ey); }
      Xor(TMul(poly, w, p0, c), Xor(TMul(poly, w, x, p0), TMul(poly, w, x, ey)));
      { TMulAssoc(poly, w, x, e, y); }
      Xor(TMul(poly, w, p0, c), Xor(TMul(poly, w, x, p0), xey));
      { XorAssoc(TMul(poly, w, p0, c), TMul(poly, w, x, p0), xey); }
      Xor(Xor(TMul(poly, w, p0, c), TMul(poly, w, x, p0)), xey);
      { TMulUnit(poly, w, x, p0); TMulDistrib(poly, w, p0, c, x); XorComm(c, x); }
      Xor(p0y, xey);
      { TMulUnit(poly, w, y, p0); TMulUnit(poly, w, y, xe); TMulDistrib(poly, w, y, p0, xe); }
      TMul(poly, w, y, Xor(p0, xe));
      { XorField(w, p0, xe); TMulUnit(poly, w, y, Xor(p0, xe)); }
      TMul(poly, w, Xor(p0, xe), y);
    }
  }

  /** Evaluating p·(x + c) at x gives p(x)·(x + c). */
  lemma {:induction false} EvalMulLinear(poly: nat, w: nat, p: seq<nat>, c: nat, x: nat)
    requires Primitive(poly, w) && InField(w, p) && c <= Max(w) && x <= Max(w)
    ensures Eval(poly, w, MulLinear(poly, w, p, c), x) == TMul(poly, w, Eval(poly, w, p, x), Xor(x, c))
  {
    var r := MulLinear(poly, w, p, c);
    if |p| == 0 {
      XorZero(0);
      TMulUnit(poly, w, x, 0);
      assert r[1..] == [];
    } else {
      var q := p[1..];
      var t := MulLinear(poly, w, q, c);
      var e := Eval(poly, w, q, x);
      EvalBound(poly, w, q, x);
      MulLinearTail(poly, w, p, c);
      calc {
        Eval(poly, w, r, x);
        Xor(r[0], TMul(poly, w, x, Eval(poly, w, r[1..], x)));
        { EvalAddConst(poly, w, t, p[0], x); }
        Xor(TMul(poly, w, p[0], c), TMul(poly, w, x, Xor(p[0], Eval(poly, w, t, x))));
        { EvalMulLinear(poly, w, q, c, x); }
        Xor(TMul(poly, w, p[0], c), TMul(poly, w, x, Xor(p[0], TMul(poly, w, e, Xor(x, c)))));
        { LinearStep(poly, w, p[0], c, x, e); }
        TMul(poly, w, Xor(p[0], TMul(poly, w, x, e)), Xor(x, c));
      }
    }
  }

  /** The generator polynomial vanishes at each of its roots α^k, k < n. */
  lemma {:induction false} GenPolyRoots(poly: nat, w: nat, n: nat, k: nat)
    requires Primitive(poly, w) && k < n
    ensures Eval(poly, w, GenPoly(poly, w, n), ExpEntry(poly, w, k)) == 0
  {
    var x := ExpEntry(poly, w, k);
    ExpEntryRange(poly, w, k);
    if k == n - 1 {
      XorSelf(x);
      assert Xor(x, ExpEntry(poly, w, n - 1)) == 0;
      GenPolyZeroFactor(poly, w, n, x);
    } else {
      GenPolyRoots(poly, w, n - 1, k);
      GenPolyZeroFactor(poly, w, n, x);
    }
  }

  /** When x is a root of the first n - 1 factors or of the last one, it is a
      root of the product. */
  lemma GenPolyZeroFactor(poly: nat, w: nat, n: nat, x: nat)
    requires Primitive(poly, w) && 1 <= n && x <= Max(w)
    requires Eval(poly, w, GenPoly(poly, w, n - 1), x) == 0 || Xor(x, ExpEntry(poly, w, n - 1)) == 0
    ensures Eval(poly, w, GenPoly(poly, w, n), x) == 0
  {
    GenPolyEvalStep(poly, w, n, x);
  }

  /** One factor of the generator polynomial evaluated at x. */
  lemma GenPolyEvalStep(poly: nat, w: nat, n: nat, x: nat)
    requires Primitive(poly, w) && 1 <= n && x <= Max(w)
    ensures Eval(poly, w, GenPoly(poly, w, n), x)
         == TMul(poly, w, Eval(poly, w, GenPoly(poly, w, n - 1), x), Xor(x, ExpEntry(poly, w, n - 1)))
  {
    ExpEntryRange(poly, w, n - 1);
    GenPolyShape(poly, w, n - 1);
    EvalMulLinear(poly, w, GenPoly(poly, w, n - 1), ExpEntry(poly, w, n - 1), x);
  }

  // ---- Convolution (mulPoly, gfconv) ----

  /** Every entry is a log-form symbol: an exponent below max, or -1 for zero. */
  predicate AllLog(w: nat, s: seq<int>)
  {
    forall k :: 0 <= k < |s| ==> IsLog(w, s[k])
  }

  /** The log form of each coefficient (`toLog` on an array). */
  function LogSeq(poly: nat, w: nat, s: seq<nat>): (r: seq<int>)
    ensures |r| == |s|
  {
    seq(|s|, k requires 0 <= k < |s| => LogOf(poly, w, s[k]))
  }

  /** Every entry is -1 or an index into expTbl. */
  predicate ExpIndexed(w: nat, s: seq<int>)
  {
    forall k :: 0 <= k < |s| ==> -1 <= s[k] < 2 * Max(w)
  }

  /** The value of each log-form symbol (`toExp` on an array). */
  function ExpSeq(poly: nat, w: nat, s: seq<int>): (r: seq<nat>)
    requires ExpIndexed(w, s)
    ensures |r| == |s|
  {
    seq(|s|, k requires 0 <= k < |s| => ExpOf(poly, w, s[k]))
  }

  /** Row i's contribution to the coefficient of x^k of a·b: a_i·b_(k-i). */
  function ConvTerm(poly: nat, w: nat, a: seq<nat>, b: seq<nat>, i: nat, k: nat): nat
    requires i < |a|
  {
    if i <= k && k - i < |b| then TMul(poly, w, a[i], b[k - i]) else 0
  }

  /** The coefficient of x^k of a·b, summed over the first n rows a_0 … a_(n-1). */
  function ConvCoef(poly: nat, w: nat, a: seq<nat>, b: seq<nat>, k: nat, n: nat): nat
    requires n <= |a|
  {
    if n == 0 then 0 else Xor(ConvCoef(poly, w, a, b, k, n - 1), ConvTerm(poly, w, a, b, n - 1, k))
  }

  /** The same contribution with a and b in log form: expTbl[a_i + b_(k-i)],
      skipped when either symbol is the zero sentinel. */
  function LogConvTerm(poly: nat, w: nat, a: seq<int>, b: seq<int>, i: nat, k: nat): nat
    requires i < |a| && AllLog(w, a) && AllLog(w, b)
  {
    if i <= k && k - i < |b| && a[i] != -1 && b[k - i] != -1 then ExpEntry(poly, w, a[i] + b[k - i]) else 0
  }

  function LogConvCoef(poly: nat, w: nat, a: seq<int>, b: seq<int>, k: nat, n: nat): nat
    requires n <= |a| && AllLog(w, a) && AllLog(w, b)
  {
    if n == 0 then 0 else Xor(LogConvCoef(poly, w, a, b, k, n - 1), LogConvTerm(poly, w, a, b, n - 1, k))
  }

  /** Coefficients of products of w-bit polynomials are w-bit values. */
  lemma {:induction false} ConvBound(poly: nat, w: nat, a: seq<nat>, b: seq<nat>, k: nat, n: nat)
    requires 1 <= w && n <= |a|
    ensures ConvCoef(poly, w, a, b, k, n) <= Max(w)
  {
    if n > 0 {
      ConvBound(poly, w, a, b, k, n - 1);
      var i := n - 1;
      TMulBound(poly, w, a[i], if i <= k && k - i < |b| then b[k - i] else 0);
      XorField(w, ConvCoef(poly, w, a, b, k, n - 1), ConvTerm(poly, w, a, b, i, k));
    }
  }

  /** The log form of a value polynomial is a log-form sequence. */
  lemma LogSeqIsLog(poly: nat, w: nat, s: seq<nat>)
    requires 1 <= w
    ensures AllLog(w, LogSeq(poly, w, s))
  {
  }

  /** Convolving in log form is convolving the values. */
  lemma {:induction false} LogConvMatches(poly: nat, w: nat, a: seq<nat>, b: seq<nat>, k: nat, n: nat)
    requires 1 <= w && n <= |a|
    ensures AllLog(w, LogSeq(poly, w, a)) && AllLog(w, LogSeq(poly, w, b))
    ensures LogConvCoef(poly, w, LogSeq(poly, w, a), LogSeq(poly, w, b), k, n) == ConvCoef(poly, w, a, b, k, n)
  {
    LogSeqIsLog(poly, w, a);
    LogSeqIsLog(poly, w, b);
    if n > 0 {
      LogConvMatches(poly, w, a, b, k, n - 1);
      LogConvTermMatches(poly, w, a, b, n - 1, k);
    }
  }

  /** One product in log form is the product of the values. */
  lemma LogConvTermMatches(poly: nat, w: nat, a: seq<nat>, b: seq<nat>, i: nat, k: nat)
    requires 1 <= w && i < |a|
    ensures AllLog(w, LogSeq(poly, w, a)) && AllLog(w, LogSeq(poly, w, b))
    ensures LogConvTerm(poly, w, LogSeq(poly, w, a), LogSeq(poly, w, b), i, k) == ConvTerm(poly, w, a, b, i, k)
  {
    LogSeqIsLog(poly, w, a);
    LogSeqIsLog(poly, w, b);
  }

  /** The log-form product read back as values is the value product:
      toExp(gfconv(toLog(a), toLog(b))) = mulPoly(a, b). */
  lemma GfConvMulPoly(poly: nat, w: nat, a: seq<nat>, b: seq<nat>, k: nat)
    requires Primitive(poly, w)
    ensures AllLog(w, LogSeq(poly, w, a)) && AllLog(w, LogSeq(poly, w, b))
    ensures ExpOf(poly, w, LogOf(poly, w, LogConvCoef(poly, w, LogSeq(poly, w, a), LogSeq(poly, w, b), k, |a|)))
         == ConvCoef(poly, w, a, b, k, |a|)
  {
    LogConvMatches(poly, w, a, b, k, |a|);
    ConvBound(poly, w, a, b, k, |a|);
    ExpOfLogOf(poly, w, ConvCoef(poly, w, a, b, k, |a|));
  }

  /** Rows 0 … n-1 of the product p·(x + c), with (x + c) as the coefficients [c, 1]:
      row k gives c·p_k to x^k and row k-1 gives p_(k-1) to x^k. */
  lemma {:induction false} ConvLinearPartial(poly: nat, w: nat, p: seq<nat>, c: nat, k: nat, n: nat)
    requires Primitive(poly, w) && InField(w, p) && n <= |p|
    ensures ConvCoef(poly, w, p, [c, 1], k, n)
         == Xor(if k < n then TMul(poly, w, p[k], c) else 0, if 0 < k <= n then p[k - 1] else 0)
  {
    if n > 0 {
      var i := n - 1;
      ConvLinearPartial(poly, w, p, c, k, n - 1);
      if k == i {
        XorZero(if 0 < k then p[k - 1] else 0);
        XorComm(TMul(poly, w, p[k], c), if 0 < k then p[k - 1] else 0);
      } else if k == i + 1 {
        TMulUnit(poly, w, p[i], 1);
        XorZero(0);
      } else {
        XorZero(ConvCoef(poly, w, p, [c, 1], k, n - 1));
      }
    }
  }

  /** mulPoly(p, [c, 1]) is the multiplication by (x + c) the generator polynomial is built from. */
  lemma ConvLinear(poly: nat, w: nat, p: seq<nat>, c: nat, k: nat)
    requires Primitive(poly, w) && InField(w, p) && k <= |p|
    ensures ConvCoef(poly, w, p, [c, 1], k, |p|) == MulLinear(poly, w, p, c)[k]
  {
    ConvLinearPartial(poly, w, p, c, k, |p|);
  }

  // ---- Powers and the value of a polynomial term by term ----

  /** Powers of a w-bit value are w-bit values. */
  lemma {:induction false} FPowBound(poly: nat, w: nat, x: nat, p: nat)
    requires 1 <= w
    ensures FPow(poly, w, x, p) <= Max(w)
  {
    if p > 0 {
      TMulBound(poly, w, x, FPow(poly, w, x, p - 1));
    }
  }

  /** Appending a coefficient c of degree |s| adds c·x^|s| to the value. */
  lemma {:induction false} EvalSnoc(poly: nat, w: nat, s: seq<nat>, c: nat, x: nat)
    requires Primitive(poly, w) && InField(w, s) && c <= Max(w) && x <= Max(w)
    ensures Eval(poly, w, s + [c], x) == Xor(Eval(poly, w, s, x), TMul(poly, w, c, FPow(poly, w, x, |s|)))
  {
    if |s| == 0 {
      assert (s + [c])[1..] == [];
      TMulUnit(poly, w, c, 1);
      XorZero(c);
    } else {
      var t := s[1..];
      var e, f := Eval(poly, w, t, x), FPow(poly, w, x, |t|);
      assert (s + [c])[1..] == t + [c];
      EvalBound(poly, w, t, x);
      FPowBound(poly, w, x, |t|);
      TMulBound(poly, w, c, f);
      TMulBound(poly, w, x, e);
      calc {
        Eval(poly, w, s + [c], x);
        Xor(s[0], TMul(poly, w, x, Eval(poly, w, t + [c], x)));
        { EvalSnoc(poly, w, t, c, x); }
        Xor(s[0], TMul(poly, w, x, Xor(e, TMul(poly, w, c, f))));
        { TMulDistrib(poly, w, x, e, TMul(poly, w, c, f)); }
        Xor(s[0], Xor(TMul(poly, w, x, e), TMul(poly, w, x, TMul(poly, w, c, f))));
        { XorAssoc(s[0], TMul(poly, w, x, e), TMul(poly, w, x, TMul(poly, w, c, f))); }
        Xor(Eval(poly, w, s, x), TMul(poly, w, x, TMul(poly, w, c, f)));
        { SwapFactor(poly, w, x, c, f); }
        Xor(Eval(poly, w, s, x), TMul(poly, w, c, FPow(poly, w, x, |s|)));
      }
    }
  }

  /** x·(c·f) = c·(x·f). */
  lemma SwapFactor(poly: nat, w: nat, x: nat, c: nat, f: nat)
    requires Primitive(poly, w) && x <= Max(w) && c <= Max(w) && f <= Max(w)
    ensures TMul(poly, w, x, TMul(poly, w, c, f)) == TMul(poly, w, c, TMul(poly, w, x, f))
  {
    TMulAssoc(poly, w, x, c, f);
    TMulAssoc(poly, w, c, x, f);
    TMulUnit(poly, w, x, c);
  }

  // ---- The formal derivative (gfdiff) ----

  /** v added to itself n times, n·v in characteristic 2. */
  function NTimes(n: nat, v: nat): nat
  {
    if n == 0 then 0 else Xor(v, NTimes(n - 1, v))
  }

  /** In characteristic 2, n·v is v for odd n and 0 for even n. */
  lemma {:induction false} NTimesParity(n: nat, v: nat)
    ensures NTimes(n, v) == if n % 2 == 1 then v else 0
  {
    if n > 0 {
      NTimesParity(n - 1, v);
      if n % 2 == 1 {
        XorZero(v);
      } else {
        XorSelf(v);
      }
    }
  }

  /** The formal derivative: the coefficient of x^i is (i+1)·s_(i+1). */
  function Deriv(s: seq<nat>): (r: seq<nat>)
    requires |s| >= 1
    ensures |r| == |s| - 1
  {
    seq(|s| - 1, i requires 0 <= i < |s| - 1 => NTimes(i + 1, s[i + 1]))
  }

  /** gfdiff on a log-form polynomial: a[i+1] at even i, the zero sentinel at odd i. */
  function DiffLog(a: seq<int>): (r: seq<int>)
    requires |a| >= 1
    ensures |r| == |a| - 1
  {
    seq(|a| - 1, i requires 0 <= i < |a| - 1 => if i % 2 == 0 then a[i + 1] else -1)
  }

  /** gfdiff computes the formal derivative of the polynomial the symbols stand for. */
  lemma DiffIsDerivative(poly: nat, w: nat, a: seq<int>)
    requires |a| >= 1 && AllLog(w, a)
    ensures AllLog(w, DiffLog(a))
    ensures ExpSeq(poly, w, DiffLog(a)) == Deriv(ExpSeq(poly, w, a))
  {
    var d, e := DiffLog(a), ExpSeq(poly, w, a);
    assert AllLog(w, d) by {
      forall i | 0 <= i < |d|
        ensures IsLog(w, d[i])
      {
        if i % 2 == 0 {
          assert IsLog(w, a[i + 1]);
        }
      }
    }
    forall i | 0 <= i < |d|
      ensures ExpSeq(poly, w, d)[i] == Deriv(e)[i]
    {
      NTimesParity(i + 1, e[i + 1]);
    }
  }

  /** The derivative of a polynomial with w-bit coefficients has w-bit coefficients. */
  lemma DerivInField(w: nat, s: seq<nat>)
    requires |s| >= 1 && InField(w, s)
    ensures InField(w, Deriv(s))
  {
    forall i | 0 <= i < |s| - 1
      ensures Deriv(s)[i] <= Max(w)
    {
      NTimesParity(i + 1, s[i + 1]);
    }
  }

  // ---- The generator polynomial as makeEncodeGx holds it ----

  /** The coefficient of x^d, zero above the degree. */
  function Coef(p: seq<nat>, d: nat): nat
  {
    if d < |p| then p[d] else 0
  }

  /** Multiplying by (x + c), one coefficient at a time: the new coefficient of
      x^d is c times the old one plus the old coefficient of x^(d-1). */
  lemma MulLinearCoef(poly: nat, w: nat, p: seq<nat>, c: nat, d: nat)
    ensures Coef(MulLinear(poly, w, p, c), d)
         == Xor(TMul(poly, w, Coef(p, d), c), if d > 0 then Coef(p, d - 1) else 0)
  {
    if d > |p| {
      XorZero(0);
    }
  }

  /** The coefficients in reverse order, highest degree first. */
  function Reverse(s: seq<nat>): (r: seq<nat>)
    ensures |r| == |s|
  {
    if |s| == 0 then [] else [s[|s| - 1]] + Reverse(s[..|s| - 1])
  }

  lemma {:induction false} ReverseIndex(s: seq<nat>, k: nat)
    requires k < |s|
    ensures Reverse(s)[k] == s[|s| - 1 - k]
  {
    if k > 0 {
      ReverseIndex(s[..|s| - 1], k - 1);
    }
  }

  /** makeEncodeGx's array: the generator's coefficients below the leading one,
      highest degree first, so that index j holds the coefficient of x^(npar-1-j). */
  function EncodeGx(poly: nat, w: nat, npar: nat): (r: seq<nat>)
    ensures |r| == npar
  {
    seq(npar, j requires 0 <= j < npar => Coef(GenPoly(poly, w, npar), npar - 1 - j))
  }

  /** The stored coefficients, reversed and completed with the implicit leading 1,
      are the generator polynomial. */
  lemma EncodeGxComplete(poly: nat, w: nat, npar: nat)
    requires 1 <= w
    ensures Reverse(EncodeGx(poly, w, npar)) + [1] == GenPoly(poly, w, npar)
  {
    var e, g := EncodeGx(poly, w, npar), GenPoly(poly, w, npar);
    GenPolyShape(poly, w, npar);
    forall k | 0 <= k < npar
      ensures Reverse(e)[k] == g[k]
    {
      ReverseIndex(e, k);
      var j := npar - 1 - k;
      assert npar - 1 - j == k;
      assert e[j] == Coef(g, k);
    }
  }

  /** With its implicit leading 1 the stored generator vanishes at α^k for every k < npar. */
  lemma EncodeGxRoots(poly: nat, w: nat, npar: nat, k: nat)
    requires Primitive(poly, w) && k < npar
    ensures Eval(poly, w, Reverse(EncodeGx(poly, w, npar)) + [1], ExpEntry(poly, w, k)) == 0
  {
    EncodeGxComplete(poly, w, npar);
    GenPolyRoots(poly, w, npar, k);
  }

  /** The stored coefficients are w-bit values. */
  lemma EncodeGxInField(poly: nat, w: nat, npar: nat)
    requires 1 <= w
    ensures InField(w, EncodeGx(poly, w, npar))
  {
    var e, g := EncodeGx(poly, w, npar), GenPoly(poly, w, npar);
    GenPolyShape(poly, w, npar);
    forall j | 0 <= j < npar
      ensures e[j] <= Max(w)
    {
      assert e[j] == Coef(g, npar - 1 - j);
    }
  }

  /** Sums of table entries are w-bit values. */
  lemma {:induction false} LogConvBound(poly: nat, w: nat, a: seq<int>, b: seq<int>, k: nat, n: nat)
    requires 1 <= w && n <= |a| && AllLog(w, a) && AllLog(w, b)
    ensures LogConvCoef(poly, w, a, b, k, n) <= Max(w)
  {
    if n > 0 {
      var i := n - 1;
      LogConvBound(poly, w, a, b, k, n - 1);
      ExpEntryBound(poly, w, if i <= k && k - i < |b| && a[i] != -1 && b[k - i] != -1 then a[i] + b[k - i] else 0);
      XorField(w, LogConvCoef(poly, w, a, b, k, n - 1), LogConvTerm(poly, w, a, b, i, k));
    }
  }
}
