/** The Galois class of CUETools.Parity: GF(2^w) arithmetic through a doubled
    exponential table and a logarithm table, and the Reed–Solomon helpers built
    on it. Values are w-bit integers; the log form of a value is its exponent,
    with -1 standing for the zero element. */
module Parity {
  import opened Bits
  import opened FieldWalk
  import opened Field
  import opened Polynomials
  import opened ReedSolomon

  /** A C# `ushort`. */
  type UShort = x: nat | x < 0x10000

  /** A C# `byte`. */
  type Byte = x: nat | x < 0x100

  /** An operation that either succeeds or throws. */
  datatype Result<T> = Success(value: T) | Failure(error: string)

  /** The reduction polynomials of the two instances the library creates,
      GF(2^8) with x^8 + x^4 + x^3 + x^2 + 1 (its x^8 term left implicit) and
      GF(2^16) with x^16 + x^12 + x^3 + x + 1. */
  const Polynomial8: nat := 0x1d
  const Polynomial16: nat := 0x1100B

  /** Both instances are odd polynomials, so their tables hold no zero and log 0
      reads as 0: every expTbl entry is a nonzero symbol of the field. */
  lemma StandardFields()
    ensures Max(8) == 0xFF && Max(16) == 0xFFFF
    ensures forall i: nat :: 1 <= ExpEntry(Polynomial8, 8, i) <= 0xFF
    ensures forall i: nat :: 1 <= ExpEntry(Polynomial16, 16, i) <= 0xFFFF
    ensures LogEntry(Polynomial8, 8, 0) == 0 && LogEntry(Polynomial16, 16, 0) == 0
  {
    Pow2At16();
    forall i: nat
      ensures 1 <= ExpEntry(Polynomial8, 8, i) <= 0xFF
      ensures 1 <= ExpEntry(Polynomial16, 16, i) <= 0xFFFF
    {
      ExpEntryRange(Polynomial8, 8, i);
      ExpEntryRange(Polynomial16, 16, i);
    }
    LogZero(Polynomial8, 8);
    LogZero(Polynomial16, 16);
  }

  class Galois {
    /** The symbol width in bits. */
    const w: nat
    /** 2^w - 1, the number of nonzero field elements. */
    const max: nat
    /** The exponent of the first root of the generator polynomial. */
    const symStart: nat
    /** The reduction polynomial the tables were built from; the class does not keep it. */
    ghost const polynomial: nat
    /** expTbl[i] = α^(i mod max), stored twice over so that sums of two logs need no reduction. */
    const expTbl: array<UShort>
    /** logTbl[v] = the exponent the walk last met v at. */
    const logTbl: array<UShort>

    /** The tables hold what the constructor builds for `polynomial`. */
    ghost predicate Valid()
      reads expTbl, logTbl
    {
      && 1 <= w <= 16
      && max == Max(w)
      && symStart == 0
      && expTbl.Length == 2 * max
      && logTbl.Length == max + 1
      && (forall i :: 0 <= i < expTbl.Length ==> expTbl[i] == ExpEntry(polynomial, w, i))
      && (forall v :: 0 <= v < logTbl.Length ==> logTbl[v] == LogEntry(polynomial, w, v))
    }

    /** Builds both tables by walking d = α^i: the walk's values go to expTbl[i]
        and expTbl[max + i], and each value's step number to logTbl[d]. */
    constructor (poly: nat, w0: nat)
      requires 1 <= w0 <= 16
      ensures Valid() && polynomial == poly && w == w0
    {
      var m := Pow2(w0) - 1;
      var e, l := WalkTables(poly, w0, m);
      w := w0;
      max := m;
      symStart := 0;
      polynomial := poly;
      expTbl := e;
      logTbl := l;
    }

    /** One step of the constructor's walk (CUETools.Parity/Galois.cs:33-35): d is doubled
        and, when that carries into bit w, the polynomial is added back in and the bits
        above w - 1 dropped. It multiplies d by α. */
    static function NextD(poly: nat, w0: nat, d: nat): (r: nat)
      requires 1 <= w0 && d < Pow2(w0)
      ensures r == Step(poly, w0, d) && r < Pow2(w0)
    {
      StepCode(poly, w0, d);
      StepBound(poly, w0, d);
      var s := 2 * d;
      if Hi(s, w0) % 2 != 0 then Lo(Xor(s, poly), w0) else s
    }

    /** The constructor's loop over i < max. */
    static method WalkTables(poly: nat, w0: nat, m: nat) returns (e: array<UShort>, l: array<UShort>)
      requires 1 <= w0 <= 16 && m == Max(w0)
      ensures fresh(e) && fresh(l)
      ensures e.Length == 2 * m && l.Length == m + 1
      ensures forall i :: 0 <= i < e.Length ==> e[i] == ExpEntry(poly, w0, i)
      ensures forall v :: 0 <= v < l.Length ==> l[v] == LogEntry(poly, w0, v)
    {
      Pow2Sixteen(w0);
      e := new UShort[2 * m](_ => 0);
      l := new UShort[m + 1](_ => 0);
      var d: nat := 1;
      var i := 0;
      while i < m
        invariant 0 <= i <= m
        invariant d == Alpha(poly, w0, i) && d <= m
        invariant forall j :: 0 <= j < i ==> e[j] == Alpha(poly, w0, j) && e[m + j] == Alpha(poly, w0, j)
        invariant forall v :: 0 <= v <= m ==> l[v] == LastLog(poly, w0, v, i)
      {
        d := WalkStep(poly, w0, m, e, l, i, d);
        i := i + 1;
      }
    }

    /** One step of the constructor's walk: records d = α^i in both halves of expTbl
        and i in logTbl[d], then moves d on to α^(i+1). */
    static method WalkStep(poly: nat, w0: nat, m: nat, e: array<UShort>, l: array<UShort>, i: nat, d: nat)
      returns (next: nat)
      requires 1 <= w0 <= 16 && m == Max(w0) && e != l && e.Length == 2 * m && l.Length == m + 1
      requires i < m && d == Alpha(poly, w0, i) && d <= m
      requires forall j :: 0 <= j < i ==> e[j] == Alpha(poly, w0, j) && e[m + j] == Alpha(poly, w0, j)
      requires forall v :: 0 <= v <= m ==> l[v] == LastLog(poly, w0, v, i)
      modifies e, l
      ensures next == Alpha(poly, w0, i + 1) && next <= m
      ensures forall j :: 0 <= j < i + 1 ==> e[j] == Alpha(poly, w0, j) && e[m + j] == Alpha(poly, w0, j)
      ensures forall v :: 0 <= v <= m ==> l[v] == LastLog(poly, w0, v, i + 1)
    {
      Pow2Sixteen(w0);
      e[i] := d;
      e[m + i] := d;
      l[d] := i;
      next := NextD(poly, w0, d);
    }

    // ---- Table lookups (CUETools.Parity/Galois.cs:69-162) ----

    /** toExp(a): α^a. */
    function ToExp(a: int): (r: nat)
      requires Valid() && 0 <= a < expTbl.Length
      reads expTbl, logTbl
      ensures r == ExpEntry(polynomial, w, a)
      ensures polynomial % 2 == 1 ==> 1 <= r <= max
      ensures Primitive(polynomial, w) ==> r == Alpha(polynomial, w, a)
      ensures Primitive(polynomial, w) && a < max ==> LogEntry(polynomial, w, r) == a
    {
      assert polynomial % 2 == 1 ==> 1 <= expTbl[a] <= max by {
        if polynomial % 2 == 1 {
          ExpEntryRange(polynomial, w, a);
        }
      }
      assert Primitive(polynomial, w) ==> expTbl[a] == Alpha(polynomial, w, a) by {
        if Primitive(polynomial, w) {
          ExpEntryAlpha(polynomial, w, a);
        }
      }
      assert Primitive(polynomial, w) && a < max ==> LogEntry(polynomial, w, expTbl[a]) == a by {
        if Primitive(polynomial, w) && a < max {
          LogExp(polynomial, w, a);
        }
      }
      expTbl[a]
    }

    /** toLog(a): the exponent of a nonzero value. */
    function ToLog(a: int): (r: nat)
      requires Valid() && 0 <= a < logTbl.Length
      reads expTbl, logTbl
      ensures r == LogEntry(polynomial, w, a) && r < max
      ensures Primitive(polynomial, w) && a != 0 ==> Alpha(polynomial, w, r) == a
    {
      assert Primitive(polynomial, w) && a != 0 ==> Alpha(polynomial, w, logTbl[a]) == a by {
        if Primitive(polynomial, w) && a != 0 {
          AlphaOfLog(polynomial, w, a);
        }
      }
      logTbl[a]
    }

    /** toPos(length, a): the position, counted from the first symbol, of the
        error whose locator is a; the first of `length` symbols has degree length - 1. */
    function ToPos(length: int, a: int): (r: int)
      requires Valid() && 0 <= a < logTbl.Length
      reads expTbl, logTbl
      ensures 0 <= length - 1 - r < max
      ensures Primitive(polynomial, w) && a != 0 ==> Alpha(polynomial, w, length - 1 - r) == a
    {
      length - 1 - ToLog(a)
    }

    /** mul(a, b): the product of two field elements. */
    function Mul(a: int, b: int): (r: nat)
      requires Valid() && 0 <= a <= max && 0 <= b <= max
      reads expTbl, logTbl
      ensures r == TMul(polynomial, w, a, b)
      ensures polynomial % 2 == 1 ==> r <= max && (r == 0 <==> a == 0 || b == 0)
      ensures Primitive(polynomial, w) ==> r == ShiftMul(polynomial, w, a, b)
    {
      assert polynomial % 2 == 1 ==> TMul(polynomial, w, a, b) <= max && (TMul(polynomial, w, a, b) == 0 <==> a == 0 || b == 0) by {
        if polynomial % 2 == 1 {
          TMulRange(polynomial, w, a, b);
        }
      }
      assert Primitive(polynomial, w) ==> TMul(polynomial, w, a, b) == ShiftMul(polynomial, w, a, b) by {
        if Primitive(polynomial, w) {
          TMulShift(polynomial, w, a, b);
        }
      }
      if a == 0 || b == 0 then 0 else expTbl[logTbl[a] as int + logTbl[b]]
    }

    /** mulExp(a, b): a·α^b. The lookup needs log a + b to index expTbl. */
    function MulExp(a: int, b: int): (r: nat)
      requires Valid() && 0 <= a <= max
      requires a == 0 || 0 <= logTbl[a] + b < expTbl.Length
      reads expTbl, logTbl
      ensures r == if a == 0 then 0 else ExpEntry(polynomial, w, LogEntry(polynomial, w, a) + b)
      ensures 0 <= b ==> r == TMulExp(polynomial, w, a, b)
      ensures Primitive(polynomial, w) && 0 <= b ==> r == StepN(polynomial, w, a, b) && r <= max
    {
      assert Primitive(polynomial, w) && 0 <= b ==> TMulExp(polynomial, w, a, b) == StepN(polynomial, w, a, b) <= max by {
        if Primitive(polynomial, w) && 0 <= b {
          TMulExpStep(polynomial, w, a, b);
          StepNBound(polynomial, w, a, b);
        }
      }
      if a == 0 then 0 else expTbl[logTbl[a] + b]
    }

    /** div(a, b): the quotient a / b. A zero divisor is not checked: logTbl[0]
        is 0, so div(a, 0) is a. */
    function Div(a: int, b: int): (r: nat)
      requires Valid() && 0 <= a <= max && 0 <= b <= max
      reads expTbl, logTbl
      ensures r == TDiv(polynomial, w, a, b) && r <= max
      ensures Primitive(polynomial, w) ==> (b != 0 ==> TMul(polynomial, w, r, b) == a) && (b == 0 ==> r == a)
    {
      assert Primitive(polynomial, w) ==>
        && (b != 0 ==> TMul(polynomial, w, TDiv(polynomial, w, a, b), b) == a)
        && (b == 0 ==> TDiv(polynomial, w, a, b) == a) by {
        if Primitive(polynomial, w) {
          TDivMul(polynomial, w, a, b);
        }
      }
      ExpEntryBound(polynomial, w, LogEntry(polynomial, w, a) - LogEntry(polynomial, w, b) + max);
      if a == 0 then 0 else expTbl[logTbl[a] as int - logTbl[b] + max]
    }

    /** divExp(a, b): a / α^b. The lookup needs log a - b + max to index expTbl. */
    function DivExp(a: int, b: int): (r: nat)
      requires Valid() && 0 <= a <= max
      requires a == 0 || 0 <= logTbl[a] - b + max < expTbl.Length
      reads expTbl, logTbl
      ensures r == if a == 0 then 0 else ExpEntry(polynomial, w, LogEntry(polynomial, w, a) - b + max)
      ensures 0 <= b <= max ==> r == TDivExp(polynomial, w, a, b)
      ensures Primitive(polynomial, w) && 0 <= b <= max ==> r <= max && TMulExp(polynomial, w, r, b) == a
    {
      assert Primitive(polynomial, w) && 0 <= b <= max ==>
        && TDivExp(polynomial, w, a, b) <= max
        && TMulExp(polynomial, w, TDivExp(polynomial, w, a, b), b) == a by {
        if Primitive(polynomial, w) && 0 <= b <= max {
          TDivExpInverse(polynomial, w, a, b);
        }
      }
      if a == 0 then 0 else expTbl[logTbl[a] - b + max]
    }

    /** inv(a): the multiplicative inverse of a nonzero a; inv(0) is 1. */
    function Inv(a: int): (r: nat)
      requires Valid() && 0 <= a <= max
      reads expTbl, logTbl
      ensures r == TInv(polynomial, w, a)
      ensures Primitive(polynomial, w) ==> (a != 0 ==> TMul(polynomial, w, a, r) == 1) && (a == 0 ==> r == 1)
    {
      assert Primitive(polynomial, w) ==>
        && (a != 0 ==> TMul(polynomial, w, a, TInv(polynomial, w, a)) == 1)
        && (a == 0 ==> TInv(polynomial, w, a) == 1) by {
        if Primitive(polynomial, w) {
          TInvMul(polynomial, w, a);
        }
      }
      expTbl[max - logTbl[a]]
    }

    // ---- Log-form scalars (CUETools.Parity/Galois.cs:188-236) ----

    /** gfadd(a, b): the sum of two log-form symbols, in log form. */
    function GfAdd(a: int, b: int): (r: int)
      requires Valid() && -1 <= a < expTbl.Length && -1 <= b < expTbl.Length
      reads expTbl, logTbl
      ensures IsLog(w, r)
      ensures r == LogOf(polynomial, w, Xor(ExpOf(polynomial, w, a), ExpOf(polynomial, w, b)))
      ensures Primitive(polynomial, w) ==> ExpOf(polynomial, w, r) == Xor(ExpOf(polynomial, w, a), ExpOf(polynomial, w, b))
      ensures Primitive(polynomial, w) && IsLog(w, a) && b == -1 ==> r == a
      ensures a == b ==> r == -1
    {
      var aExp := if a == -1 then 0 else ToExp(a);
      var bExp := if b == -1 then 0 else ToExp(b);
      ExpEntryBound(polynomial, w, if a == -1 then 0 else a);
      ExpEntryBound(polynomial, w, if b == -1 then 0 else b);
      XorField(w, aExp, bExp);
      var resExp := Xor(aExp, bExp);
      assert Primitive(polynomial, w) ==> ExpOf(polynomial, w, LogOf(polynomial, w, resExp)) == resExp by {
        if Primitive(polynomial, w) {
          ExpOfLogOf(polynomial, w, resExp);
        }
      }
      assert Primitive(polynomial, w) && IsLog(w, a) && b == -1 ==> LogOf(polynomial, w, resExp) == a by {
        if Primitive(polynomial, w) && IsLog(w, a) && b == -1 {
          XorZero(aExp);
          LogOfExpOf(polynomial, w, a);
        }
      }
      assert a == b ==> resExp == 0 by {
        XorSelf(aExp);
      }
      if resExp == 0 then -1 else ToLog(resExp)
    }

    /** gfmul(a, b): the product of two log-form symbols, by adding exponents in 32-bit
        `int` arithmetic. A sum of 2^31 or more wraps to a negative number, and the
        result is then not a log. */
    function GfMul(a: int, b: int): (r: int)
      requires Valid()
      requires -0x8000_0000 <= a < 0x8000_0000 && -0x8000_0000 <= b < 0x8000_0000
      reads expTbl, logTbl
      ensures a < 0 || b < 0 ==> r == -1
      ensures Primitive(polynomial, w) && IsLog(w, a) && IsLog(w, b) ==>
        IsLog(w, r) && ExpOf(polynomial, w, r) == TMul(polynomial, w, ExpOf(polynomial, w, a), ExpOf(polynomial, w, b))
      ensures 0 <= a && 0 <= b && 0x8000_0000 <= a + b ==> -(max as int) < r <= 0
    {
      Pow2Sixteen(w);
      assert Primitive(polynomial, w) && 0 <= a < max && 0 <= b < max ==>
        IsLog(w, (a + b) % max)
        && ExpOf(polynomial, w, (a + b) % max) == TMul(polynomial, w, ExpOf(polynomial, w, a), ExpOf(polynomial, w, b)) by {
        if Primitive(polynomial, w) && 0 <= a < max && 0 <= b < max {
          LogMul(polynomial, w, a, b);
        }
      }
      if a < 0 || b < 0 then -1 else Rem(Wrap32(a + b), max)
    }

    /** gfdiv(a, b): the quotient of two log-form symbols, by subtracting exponents in
        32-bit `int` arithmetic. Only the dividend is checked for the zero sentinel. A
        difference max + a - b of 2^31 or more (a negative divisor) wraps to a negative
        number. */
    function GfDiv(a: int, b: int): (r: int)
      requires Valid()
      requires -0x8000_0000 <= a < 0x8000_0000 && -0x8000_0000 <= b < 0x8000_0000
      reads expTbl, logTbl
      ensures a < 0 ==> r == -1
      ensures Primitive(polynomial, w) && IsLog(w, a) && 0 <= b < max ==>
        IsLog(w, r) && TMul(polynomial, w, ExpOf(polynomial, w, r), ExpOf(polynomial, w, b)) == ExpOf(polynomial, w, a)
      ensures 0 <= a && 0x8000_0000 <= max + a - b < 0x1_0000_0000 ==> -(max as int) < r <= 0
    {
      Pow2Sixteen(w);
      assert Primitive(polynomial, w) && 0 <= a < max && 0 <= b < max ==>
        IsLog(w, (max + a - b) % max)
        && TMul(polynomial, w, ExpOf(polynomial, w, (max + a - b) % max), ExpOf(polynomial, w, b)) == ExpOf(polynomial, w, a) by {
        if Primitive(polynomial, w) && 0 <= a < max && 0 <= b < max {
          LogDiv(polynomial, w, a, b);
        }
      }
      if a < 0 then -1 else Rem(Wrap32(max + a - b), max)
    }

    /** gfpow(value, p): a log-form symbol raised to the p-th power, by multiplying
        the exponent in 32-bit `int` arithmetic. There is no sentinel check: the zero
        symbol -1 gives -(p mod max). A product of 2^31 or more wraps to a negative
        number, and the result is then not a power of value. */
    function GfPow(value: int, p: int): (r: int)
      requires Valid()
      requires -0x8000_0000 <= value < 0x8000_0000 && -0x8000_0000 <= p < 0x8000_0000
      reads expTbl, logTbl
      ensures value == -1 && 0 <= p ==> r == -(p % max)
      ensures Primitive(polynomial, w) && 0 <= value < max && 0 <= p && value * p < 0x8000_0000 ==>
        IsLog(w, r) && ExpOf(polynomial, w, r) == FPow(polynomial, w, ExpOf(polynomial, w, value), p)
      ensures 0 <= value && 0 <= p && 0x8000_0000 <= value * p < 0x1_0000_0000 ==> -(max as int) < r <= 0
    {
      GfPowRem(polynomial, w, value, p);
      Wrap32Product(value, p);
      Rem(Wrap32(value * p), max)
    }

    // ---- Array conversions (CUETools.Parity/Galois.cs:164-204) ----

    /** toLog(int[] a): the log form of each value, -1 for zero. */
    method ToLogArray(a: array<nat>) returns (res: array<int>)
      requires Valid() && forall k :: 0 <= k < a.Length ==> a[k] <= max
      ensures fresh(res) && res[..] == LogSeq(polynomial, w, a[..])
      ensures Primitive(polynomial, w) ==> ExpIndexed(w, res[..]) && ExpSeq(polynomial, w, res[..]) == a[..]
    {
      res := new int[a.Length](_ => 0);
      for i := 0 to a.Length
        invariant forall k :: 0 <= k < i ==> res[k] == LogOf(polynomial, w, a[k])
      {
        res[i] := if a[i] == 0 then -1 else ToLog(a[i]);
      }
      assert res[..] == LogSeq(polynomial, w, a[..]);
      LogSeqRoundTrip(a[..]);
    }

    /** toLog(ushort[] a): the same conversion from 16-bit symbols. */
    method ToLogUShorts(a: array<UShort>) returns (res: array<int>)
      requires Valid() && forall k :: 0 <= k < a.Length ==> a[k] <= max
      ensures fresh(res) && res[..] == LogSeq(polynomial, w, a[..])
      ensures Primitive(polynomial, w) ==> ExpIndexed(w, res[..]) && ExpSeq(polynomial, w, res[..]) == a[..]
    {
      res := new int[a.Length](_ => 0);
      for i := 0 to a.Length
        invariant forall k :: 0 <= k < i ==> res[k] == LogOf(polynomial, w, a[k])
      {
        res[i] := if a[i] == 0 then -1 else ToLog(a[i]);
      }
      assert res[..] == LogSeq(polynomial, w, a[..]);
      LogSeqRoundTrip(a[..]);
    }

    /** Converting values to log form and back gives the values. */
    lemma LogSeqRoundTrip(s: seq<nat>)
      requires Valid() && forall k :: 0 <= k < |s| ==> s[k] <= max
      ensures Primitive(polynomial, w) ==> ExpIndexed(w, LogSeq(polynomial, w, s)) && ExpSeq(polynomial, w, LogSeq(polynomial, w, s)) == s
    {
      if Primitive(polynomial, w) {
        forall k | 0 <= k < |s|
          ensures ExpOf(polynomial, w, LogOf(polynomial, w, s[k])) == s[k]
        {
          ExpOfLogOf(polynomial, w, s[k]);
        }
      }
    }

    /** toExp(int[] a): the value of each log-form symbol, 0 for -1. */
    method ToExpArray(a: array<int>) returns (res: array<nat>)
      requires Valid() && ExpIndexed(w, a[..])
      ensures fresh(res) && res[..] == ExpSeq(polynomial, w, a[..])
      ensures InField(w, res[..])
      ensures Primitive(polynomial, w) && AllLog(w, a[..]) ==> LogSeq(polynomial, w, res[..]) == a[..]
    {
      res := new nat[a.Length](_ => 0);
      for i := 0 to a.Length
        invariant forall k :: 0 <= k < i ==> res[k] == ExpOf(polynomial, w, a[k]) <= max
      {
        assert -1 <= a[i] < expTbl.Length;
        res[i] := if a[i] == -1 then 0 else ToExp(a[i]);
        ExpEntryBound(polynomial, w, if a[i] == -1 then 0 else a[i]);
      }
      assert res[..] == ExpSeq(polynomial, w, a[..]);
      if Primitive(polynomial, w) && AllLog(w, a[..]) {
        forall k | 0 <= k < a.Length
          ensures LogOf(polynomial, w, res[k]) == a[k]
        {
          assert IsLog(w, a[k]);
          LogOfExpOf(polynomial, w, a[k]);
        }
      }
    }

    /** gfadd(int[] a, b): b added to every symbol of a, in log form. */
    method GfAddArray(a: array<int>, b: int) returns (res: array<int>)
      requires Valid() && ExpIndexed(w, a[..]) && -1 <= b < expTbl.Length
      ensures fresh(res) && res.Length == a.Length
      ensures forall k :: 0 <= k < a.Length ==> res[k] == GfAdd(a[k], b)
    {
      var sums := new nat[a.Length](_ => 0);
      var aExp := ToExpArray(a);
      var bExp := if b == -1 then 0 else ToExp(b);
      ExpEntryBound(polynomial, w, if b == -1 then 0 else b);
      assert bExp == ExpOf(polynomial, w, b) <= max;
      for i := 0 to a.Length
        modifies sums
        invariant forall k :: 0 <= k < i ==> sums[k] == Xor(aExp[k], bExp)
      {
        sums[i] := Xor(aExp[i], bExp);
      }
      forall k | 0 <= k < a.Length
        ensures sums[k] <= max
      {
        assert aExp[..][k] <= max;
        XorField(w, aExp[k], bExp);
      }
      res := ToLogArray(sums);
      forall k | 0 <= k < a.Length
        ensures res[k] == GfAdd(a[k], b)
      {
        assert res[..][k] == LogOf(polynomial, w, sums[k]);
        assert aExp[..][k] == ExpOf(polynomial, w, a[k]);
      }
    }

    /** gfdiff(a): the formal derivative in log form: a[i+1] at even i, -1 at odd i. */
    method GfDiff(a: array<int>) returns (res: array<int>)
      requires a.Length >= 1
      ensures fresh(res) && res[..] == DiffLog(a[..])
    {
      res := new int[a.Length - 1](_ => 0);
      for i := 0 to res.Length
        invariant forall k :: 0 <= k < i ==> res[k] == if k % 2 == 0 then a[k + 1] else -1
      {
        res[i] := if i % 2 == 0 then a[i + 1] else -1;
      }
      assert res[..] == DiffLog(a[..]);
    }

    /** gfsubstitute(polynomial, value, terms): the log-form polynomial's first
        `terms` coefficients evaluated at the log-form point `value`, each term's
        exponent folded back below 2·max by Fold. The zero
        point -1 skips the loop, so the result is then -1 whatever the constant term. */
    method GfSubstitute(p: array<int>, value: int, terms: nat) returns (r: int)
      requires Valid()
      requires value == -1 || (0 <= value < 0x8000_0000 && terms <= p.Length && AllLog(w, p[..terms]))
      requires value == -1 || forall k :: 0 <= k < terms ==>
        p[k] == -1 || (p[k] + value * k < 0x8000_0000 && Fold(w, p[k] + value * k) < expTbl.Length)
      ensures value == -1 ==> r == -1
      ensures value != -1 ==> r == LogOf(polynomial, w, SubstSum(polynomial, w, p[..terms], value, terms))
      ensures value != -1 && Primitive(polynomial, w) ==>
        ExpOf(polynomial, w, r) == Eval(polynomial, w, ExpSeq(polynomial, w, p[..terms]), Alpha(polynomial, w, value))
    {
      var sum: nat := 0;
      if value != -1 {
        var q := p[..terms];
        for k := 0 to terms
          invariant sum == SubstSum(polynomial, w, q, value, k) <= max
        {
          sum := AddSubstTerm(p, value, terms, k, sum);
        }
        SubstLog(polynomial, w, q, value);
      }
      r := if sum == 0 then -1 else ToLog(sum);
    }

    /** One pass of gfsubstitute's loop: a nonzero coefficient α^p[k] times the k-th
        power of the point, its exponent p[k] + value·k (below 2^31, so the 32-bit sum
        is exact) folded by Fold and looked up in expTbl, is added into sum. */
    method AddSubstTerm(p: array<int>, value: nat, terms: nat, k: nat, sum: nat) returns (r: nat)
      requires Valid() && k < terms <= p.Length && AllLog(w, p[..terms])
      requires p[k] == -1 || (p[k] + value * k < 0x8000_0000 && Fold(w, p[k] + value * k) < expTbl.Length)
      requires sum == SubstSum(polynomial, w, p[..terms], value, k) && sum <= max
      ensures r == SubstSum(polynomial, w, p[..terms], value, k + 1) && r <= max
    {
      assert p[..terms][k] == p[k];
      if p[k] != -1 {
        MulNonneg(value, k);
        var pow: nat := p[k] + value * k;
        ExpEntryBound(polynomial, w, Fold(w, pow));
        XorField(w, sum, expTbl[Lo(pow, w) + Hi(pow, w)]);
        r := Xor(sum, expTbl[Lo(pow, w) + Hi(pow, w)]);
      } else {
        XorZero(sum);
        r := sum;
      }
    }

    // ---- Polynomial products ----

    /** gfconv(a, b): the whole product of two log-form polynomials, a.Length + b.Length - 1
        coefficients (a negative length throws, so at least one operand is nonempty). */
    method GfConvFull(a: array<int>, b: array<int>) returns (res: array<int>)
      requires Valid() && AllLog(w, a[..]) && AllLog(w, b[..])
      requires a.Length + b.Length >= 1
      ensures fresh(res) && res.Length == a.Length + b.Length - 1
      ensures forall k :: 0 <= k < res.Length ==> res[k] == LogOf(polynomial, w, LogConvCoef(polynomial, w, a[..], b[..], k, a.Length))
    {
      res := GfConv(a, b, a.Length + b.Length - 1);
    }

    /** gfconv(a, b, len): the first len coefficients of the product of two log-form
        polynomials, in log form. Products are summed as values in a fresh array,
        skipping the zero symbol -1, then each sum is turned back into log form. */
    method GfConv(a: array<int>, b: array<int>, len: nat) returns (res: array<int>)
      requires Valid() && AllLog(w, a[..]) && AllLog(w, b[..])
      ensures fresh(res) && res.Length == len
      ensures forall k :: 0 <= k < len ==> res[k] == LogOf(polynomial, w, LogConvCoef(polynomial, w, a[..], b[..], k, a.Length))
    {
      res := new int[len](_ => 0);
      for ia := 0 to a.Length
        invariant forall k :: 0 <= k < len ==> res[k] == LogConvCoef(polynomial, w, a[..], b[..], k, ia)
      {
        AddLogRow(res, a, b, ia);
      }
      for i := 0 to len
        invariant forall k :: 0 <= k < i ==> res[k] == LogOf(polynomial, w, LogConvCoef(polynomial, w, a[..], b[..], k, a.Length))
        invariant forall k :: i <= k < len ==> res[k] == LogConvCoef(polynomial, w, a[..], b[..], k, a.Length)
      {
        LogConvBound(polynomial, w, a[..], b[..], i, a.Length);
        res[i] := if res[i] == 0 then -1 else logTbl[res[i]];
      }
    }

    /** One pass of gfconv's outer loop: the products of a[ia] with each nonzero b[ib]
        whose index ia + ib lies inside seki are added in; nothing when a[ia] is -1. */
    method AddLogRow(seki: array<int>, a: array<int>, b: array<int>, ia: nat)
      requires Valid() && seki != a && seki != b && ia < a.Length
      requires AllLog(w, a[..]) && AllLog(w, b[..])
      requires forall k :: 0 <= k < seki.Length ==> seki[k] == LogConvCoef(polynomial, w, a[..], b[..], k, ia)
      modifies seki
      ensures forall k :: 0 <= k < seki.Length ==> seki[k] == LogConvCoef(polynomial, w, a[..], b[..], k, ia + 1)
    {
      var loga := a[ia];
      if loga != -1 {
        var ib2 := if b.Length < seki.Length - ia then b.Length else seki.Length - ia;
        var ib := 0;
        while ib < ib2
          invariant 0 <= ib <= if ib2 < 0 then 0 else ib2
          invariant forall k :: 0 <= k < seki.Length ==> seki[k] == LogConvPartial(a[..], b[..], ia, ib, k)
        {
          AddLogProduct(seki, a, b, ia, ib, loga);
          ib := ib + 1;
        }
        LogRowDone(a[..], b[..], ia, ib, seki.Length);
      } else {
        LogRowDone(a[..], b[..], ia, 0, seki.Length);
        assert forall k :: 0 <= k < seki.Length ==> LogConvPartial(a[..], b[..], ia, 0, k) == seki[k];
      }
    }

    /** One pass of gfconv's inner loop: the product of the log-form coefficients a[ia]
        and b[ib], α to the sum of their exponents, is added into coefficient ia + ib
        of the value-form accumulator; nothing is added when b[ib] is the zero symbol -1. */
    method AddLogProduct(seki: array<int>, a: array<int>, b: array<int>, ia: nat, ib: nat, loga: int)
      requires Valid() && seki != a && seki != b && ia < a.Length && ib < b.Length && ia + ib < seki.Length
      requires AllLog(w, a[..]) && AllLog(w, b[..]) && loga == a[ia] != -1
      requires forall k :: 0 <= k < seki.Length ==> seki[k] == LogConvPartial(a[..], b[..], ia, ib, k)
      modifies seki
      ensures forall k :: 0 <= k < seki.Length ==> seki[k] == LogConvPartial(a[..], b[..], ia, ib + 1, k)
    {
      var logb := b[ib];
      if logb != -1 {
        seki[ia + ib] := Xor(seki[ia + ib], expTbl[loga + logb]);
      } else {
        XorZero(LogConvCoef(polynomial, w, a[..], b[..], ia + ib, ia));
      }
    }

    /** seki[k] while log-form row ia is being added: the first ib products of the row are in. */
    ghost function LogConvPartial(a: seq<int>, b: seq<int>, ia: nat, ib: nat, k: nat): nat
      requires ia < |a| && AllLog(w, a) && AllLog(w, b)
    {
      if ia <= k < ia + ib then Xor(LogConvCoef(polynomial, w, a, b, k, ia), LogConvTerm(polynomial, w, a, b, ia, k))
      else LogConvCoef(polynomial, w, a, b, k, ia)
    }

    /** Once every product of log-form row ia that lands below len is in, the row is complete. */
    lemma LogRowDone(a: seq<int>, b: seq<int>, ia: nat, ib: nat, len: nat)
      requires ia < |a| && AllLog(w, a) && AllLog(w, b)
      requires a[ia] == -1 || ib == |b| || ia + ib >= len
      ensures forall k :: 0 <= k < len ==> LogConvPartial(a, b, ia, ib, k) == LogConvCoef(polynomial, w, a, b, k, ia + 1)
    {
      forall k | 0 <= k < len
        ensures LogConvPartial(a, b, ia, ib, k) == LogConvCoef(polynomial, w, a, b, k, ia + 1)
      {
        XorZero(LogConvCoef(polynomial, w, a, b, k, ia));
      }
    }

    /** mulPoly(a, b): the whole product of two value polynomials, a.Length + b.Length - 1
        coefficients (a negative length throws, so at least one operand is nonempty). */
    method MulPolyFull(a: array<nat>, b: array<nat>) returns (res: array<nat>)
      requires Valid() && InField(w, a[..]) && InField(w, b[..])
      requires a.Length + b.Length >= 1
      ensures fresh(res) && res.Length == a.Length + b.Length - 1
      ensures forall k :: 0 <= k < res.Length ==> res[k] == ConvCoef(polynomial, w, a[..], b[..], k, a.Length)
    {
      res := MulPolyLen(a, b, a.Length + b.Length - 1);
    }

    /** mulPoly(a, b, len): the first len coefficients of the product, in a new array. */
    method MulPolyLen(a: array<nat>, b: array<nat>, len: nat) returns (res: array<nat>)
      requires Valid() && InField(w, a[..]) && InField(w, b[..])
      ensures fresh(res) && res.Length == len
      ensures forall k :: 0 <= k < len ==> res[k] == ConvCoef(polynomial, w, a[..], b[..], k, a.Length)
    {
      res := new nat[len](_ => 0);
      MulPoly(res, a, b);
    }


    /** mulPoly(seki, a, b): clears seki, then adds every product a[ia]·b[ib] into
        seki[ia + ib], dropping those beyond seki's end. */
    method MulPoly(seki: array<nat>, a: array<nat>, b: array<nat>)
      requires Valid() && seki != a && seki != b
      requires InField(w, a[..]) && InField(w, b[..])
      modifies seki
      ensures forall k :: 0 <= k < seki.Length ==> seki[k] == ConvCoef(polynomial, w, a[..], b[..], k, a.Length)
    {
      forall k | 0 <= k < seki.Length {
        seki[k] := 0;
      }
      for ia := 0 to a.Length
        invariant forall k :: 0 <= k < seki.Length ==> seki[k] == ConvCoef(polynomial, w, a[..], b[..], k, ia)
      {
        AddRow(seki, a, b, ia);
      }
    }

    /** One pass of mulPoly's outer loop: the products a[ia]·b[ib] that land inside
        seki, added in by table lookups and skipped when either factor is zero. */
    method AddRow(seki: array<nat>, a: array<nat>, b: array<nat>, ia: nat)
      requires Valid() && seki != a && seki != b && ia < a.Length
      requires InField(w, a[..]) && InField(w, b[..])
      requires forall k :: 0 <= k < seki.Length ==> seki[k] == ConvCoef(polynomial, w, a[..], b[..], k, ia)
      modifies seki
      ensures forall k :: 0 <= k < seki.Length ==> seki[k] == ConvCoef(polynomial, w, a[..], b[..], k, ia + 1)
    {
      if a[ia] != 0 {
        var loga := logTbl[a[ia]];
        var ib2 := if b.Length < seki.Length - ia then b.Length else seki.Length - ia;
        var ib := 0;
        while ib < ib2
          invariant 0 <= ib <= if ib2 < 0 then 0 else ib2
          invariant forall k :: 0 <= k < seki.Length ==> seki[k] == ConvPartial(a[..], b[..], ia, ib, k)
        {
          AddProduct(seki, a, b, ia, ib, loga);
          ib := ib + 1;
        }
        ConvRowDone(a[..], b[..], ia, ib, seki.Length);
      } else {
        ConvRowDone(a[..], b[..], ia, 0, seki.Length);
        assert forall k :: 0 <= k < seki.Length ==> ConvPartial(a[..], b[..], ia, 0, k) == seki[k];
      }
    }

    /** One pass of mulPoly's inner loop: the product of the value-form coefficients
        a[ia] and b[ib], found through their logs, is added into coefficient ia + ib of
        the product; nothing is added when b[ib] is zero. */
    method AddProduct(seki: array<nat>, a: array<nat>, b: array<nat>, ia: nat, ib: nat, loga: nat)
      requires Valid() && seki != a && seki != b && ia < a.Length && ib < b.Length && ia + ib < seki.Length
      requires InField(w, a[..]) && InField(w, b[..]) && a[ia] != 0 && loga == LogEntry(polynomial, w, a[ia])
      requires forall k :: 0 <= k < seki.Length ==> seki[k] == ConvPartial(a[..], b[..], ia, ib, k)
      modifies seki
      ensures forall k :: 0 <= k < seki.Length ==> seki[k] == ConvPartial(a[..], b[..], ia, ib + 1, k)
    {
      if b[ib] != 0 {
        seki[ia + ib] := Xor(seki[ia + ib], expTbl[loga + logTbl[b[ib]] as int]);
      } else {
        XorZero(ConvCoef(polynomial, w, a[..], b[..], ia + ib, ia));
      }
    }

    /** seki[k] while row ia is being added: the first ib products of the row are in. */
    ghost function ConvPartial(a: seq<nat>, b: seq<nat>, ia: nat, ib: nat, k: nat): nat
      requires ia < |a|
    {
      if ia <= k < ia + ib then Xor(ConvCoef(polynomial, w, a, b, k, ia), ConvTerm(polynomial, w, a, b, ia, k))
      else ConvCoef(polynomial, w, a, b, k, ia)
    }

    /** Once every product of row ia that lands below len is in, the row is complete. */
    lemma ConvRowDone(a: seq<nat>, b: seq<nat>, ia: nat, ib: nat, len: nat)
      requires ia < |a|
      requires a[ia] == 0 || ib == |b| || ia + ib >= len
      ensures forall k :: 0 <= k < len ==> ConvPartial(a, b, ia, ib, k) == ConvCoef(polynomial, w, a, b, k, ia + 1)
    {
      forall k | 0 <= k < len
        ensures ConvPartial(a, b, ia, ib, k) == ConvCoef(polynomial, w, a, b, k, ia + 1)
      {
        XorZero(ConvCoef(polynomial, w, a, b, k, ia));
      }
    }

    // ---- The generator polynomial ----

    /** makeEncodeGx(npar): G(x) = Π_{k<npar} (x + α^k) built by multiplying in one
        factor at a time; g[j] holds the coefficient of x^(npar-1-j), the leading 1
        of x^npar is not stored. */
    method MakeEncodeGx(npar: nat) returns (g: array<nat>)
      requires Valid() && 1 <= npar <= expTbl.Length
      ensures fresh(g) && g[..] == EncodeGx(polynomial, w, npar)
    {
      g := new nat[npar](_ => 0);
      g[npar - 1] := 1;
      GxStart(g[..]);
      var kou := symStart;
      for i := 0 to npar
        invariant kou == i
        invariant forall j :: 0 <= j < npar ==> g[j] == Coef(GenPoly(polynomial, w, i), npar - 1 - j)
      {
        GxRound(g, kou);
        kou := kou + 1;
      }
      EncodeGxIndex(g[..], npar);
    }

    /** A zero array with a final 1 stores the coefficients of the empty product 1. */
    lemma GxStart(g: seq<nat>)
      requires 1 <= |g| && g[|g| - 1] == 1 && forall j :: 0 <= j < |g| - 1 ==> g[j] == 0
      ensures forall j :: 0 <= j < |g| ==> g[j] == Coef(GenPoly(polynomial, w, 0), |g| - 1 - j)
    {
    }

    /** The stored coefficients, highest degree first, are makeEncodeGx's array. */
    lemma EncodeGxIndex(g: seq<nat>, npar: nat)
      requires |g| == npar
      requires forall j :: 0 <= j < npar ==> g[j] == Coef(GenPoly(polynomial, w, npar), npar - 1 - j)
      ensures g == EncodeGx(polynomial, w, npar)
    {
      var e := EncodeGx(polynomial, w, npar);
      forall j | 0 <= j < npar
        ensures g[j] == e[j]
      {
      }
    }

    /** One pass of makeEncodeGx's outer loop: multiplies the stored coefficients of
        Π_{k<i} (x + α^k) by (x + α^i), with α^i read by toExp. */
    method GxRound(g: array<nat>, i: nat)
      requires Valid() && i < g.Length && i < expTbl.Length
      requires forall j :: 0 <= j < g.Length ==> g[j] == Coef(GenPoly(polynomial, w, i), g.Length - 1 - j)
      modifies g
      ensures forall j :: 0 <= j < g.Length ==> g[j] == Coef(GenPoly(polynomial, w, i + 1), g.Length - 1 - j)
    {
      var ex := ToExp(i);
      GenPolyShape(polynomial, w, i);
      ExpEntryBound(polynomial, w, i);
      MulLinearPass(g, GenPoly(polynomial, w, i), ex);
      assert GenPoly(polynomial, w, i + 1) == MulLinear(polynomial, w, GenPoly(polynomial, w, i), ex);
    }

    /** One pass of makeEncodeGx's inner loop: multiplies the stored coefficients of p
        by (x + ex), each new coefficient from the old one and its lower neighbour. */
    method MulLinearPass(g: array<nat>, ghost p: seq<nat>, ex: nat)
      requires Valid() && 1 <= g.Length && |p| <= g.Length && InField(w, p) && ex <= max
      requires forall j :: 0 <= j < g.Length ==> g[j] == Coef(p, g.Length - 1 - j)
      modifies g
      ensures forall j :: 0 <= j < g.Length ==> g[j] == Coef(MulLinear(polynomial, w, p, ex), g.Length - 1 - j)
    {
      var npar := g.Length;
      ghost var q := MulLinear(polynomial, w, p, ex);
      for j := 0 to npar - 1
        invariant forall k :: 0 <= k < j ==> g[k] == Coef(q, npar - 1 - k)
        invariant forall k :: j <= k < npar ==> g[k] == Coef(p, npar - 1 - k)
      {
        MulLinearStep(g, p, ex, j);
      }
      MulLinearCoef(polynomial, w, p, ex, 0);
      XorZero(TMul(polynomial, w, g[npar - 1], ex));
      g[npar - 1] := Mul(g[npar - 1], ex);
    }

    /** One pass of makeEncodeGx's inner loop: entry j becomes its coefficient of
        p·(x + ex), ex times the old entry j plus the entry above it, which still holds
        its coefficient of p. */
    method MulLinearStep(g: array<nat>, ghost p: seq<nat>, ex: nat, j: nat)
      requires Valid() && j + 1 < g.Length && |p| <= g.Length && InField(w, p) && ex <= max
      requires g[j] == Coef(p, g.Length - 1 - j) && g[j + 1] == Coef(p, g.Length - 2 - j)
      modifies g
      ensures g[j] == Coef(MulLinear(polynomial, w, p, ex), g.Length - 1 - j)
      ensures forall k :: 0 <= k < g.Length && k != j ==> g[k] == old(g[k])
    {
      MulLinearCoef(polynomial, w, p, ex, g.Length - 1 - j);
      g[j] := Xor(Mul(g[j], ex), g[j + 1]);
    }

    /** makeEncodeGxLog(npar): the generator's stored coefficients in log form, converted
        in place; a zero coefficient has no logarithm and throws. */
    method MakeEncodeGxLog(npar: nat) returns (r: Result<array<nat>>)
      requires Valid() && 1 <= npar <= expTbl.Length
      ensures r.Failure? <==> 0 in EncodeGx(polynomial, w, npar)
      ensures r.Success? ==> fresh(r.value) && r.value.Length == npar
      ensures r.Success? ==> forall i :: 0 <= i < npar ==> r.value[i] == LogEntry(polynomial, w, EncodeGx(polynomial, w, npar)[i])
      ensures r.Success? && Primitive(polynomial, w) ==>
        forall i :: 0 <= i < npar ==> Alpha(polynomial, w, r.value[i]) == EncodeGx(polynomial, w, npar)[i]
    {
      var g := MakeEncodeGx(npar);
      ghost var e := g[..];
      EncodeGxInField(polynomial, w, npar);
      for i := 0 to npar
        invariant forall k :: 0 <= k < i ==> e[k] != 0 && g[k] == LogEntry(polynomial, w, e[k])
        invariant forall k :: 0 <= k < i ==> Primitive(polynomial, w) ==> Alpha(polynomial, w, g[k]) == e[k]
        invariant forall k :: i <= k < npar ==> g[k] == e[k]
      {
        if g[i] == 0 {
          return Failure("0 in encodeGx");
        }
        g[i] := ToLog(g[i]);
      }
      return Success(g);
    }

    // ---- Byte-indexed product tables (GF(2^16) only) ----

    /** The product a table entry holds for byte ib in half h: ib itself for h = 0,
        ib·256 for h = 1, times the coefficient c. */
    ghost function HalfMul(ib: nat, h: nat, c: nat): nat
    {
      TMul(polynomial, w, if h == 0 then ib else ib * 256, c)
    }

    /** The same with the second factor α^e. */
    ghost function HalfMulExp(ib: nat, h: nat, e: nat): nat
    {
      TMulExp(polynomial, w, if h == 0 then ib else ib * 256, e)
    }

    /** makeEncodeTable(npar): parityTable[ib, h, i] is the low (h = 0) or high (h = 1)
        byte ib of a 16-bit symbol times the i-th stored generator coefficient.
        The byte shifted left by 8 only indexes logTbl when w is 16. */
    method MakeEncodeTable(npar: nat) returns (r: Result<array3<UShort>>)
      requires Valid() && w == 16 && 1 <= npar <= expTbl.Length
      ensures r.Failure? <==> 0 in EncodeGx(polynomial, w, npar)
      ensures r.Success? ==> fresh(r.value)
      ensures r.Success? ==> r.value.Length0 == 256 && r.value.Length1 == 2 && r.value.Length2 == npar
      ensures r.Success? ==> forall ib, h, i :: 0 <= ib < 256 && 0 <= h < 2 && 0 <= i < npar ==>
        r.value[ib, h, i] == HalfMul(ib, h, EncodeGx(polynomial, w, npar)[i])
    {
      var res := MakeEncodeGxLog(npar);
      if res.Failure? {
        return Failure(res.error);
      }
      var loggx := res.value;
      ghost var e := EncodeGx(polynomial, w, npar);
      var t := new UShort[256, 2, npar]((_, _, _) => 0);
      assert forall i :: 0 <= i < |e| ==> e[i] in e;
      for i := 0 to npar
        modifies t
        invariant forall x, h, k :: 0 <= x < 256 && 0 <= h < 2 && 0 <= k < npar ==> t[x, h, k] == 0
      {
        t[0, 0, i] := 0;
        t[0, 1, i] := 0;
      }
      for ib := 1 to 256
        modifies t
        invariant forall x, h, k :: 0 <= x < ib && 0 <= h < 2 && 0 <= k < npar ==> t[x, h, k] == HalfMul(x, h, e[k])
      {
        FillEncodeRow(t, ib, loggx, e);
      }
      return Success(t);
    }

    /** Row ib of makeEncodeTable: for each i, the products of G's coefficient i (given by
        its log) with ib and with ib·256, through the tables. */
    method FillEncodeRow(t: array3<UShort>, ib: nat, loggx: array<nat>, ghost e: seq<nat>)
      requires Valid() && w == 16 && 1 <= ib < 256 && t.Length0 == 256 && t.Length1 == 2
      requires t.Length2 == loggx.Length == |e|
      requires forall i :: 0 <= i < |e| ==> e[i] != 0 && loggx[i] == LogEntry(polynomial, w, e[i])
      modifies t
      ensures forall x, h, k :: 0 <= x < 256 && x != ib && 0 <= h < 2 && 0 <= k < |e| ==> t[x, h, k] == old(t[x, h, k])
      ensures forall h, k :: 0 <= h < 2 && 0 <= k < |e| ==> t[ib, h, k] == HalfMul(ib, h, e[k])
    {
      Pow2At16();
      var logib0 := logTbl[ib];
      var logib1 := logTbl[ib * 256];
      for i := 0 to loggx.Length
        invariant forall x, h, k :: 0 <= x < 256 && x != ib && 0 <= h < 2 && 0 <= k < |e| ==> t[x, h, k] == old(t[x, h, k])
        invariant forall h, k :: 0 <= h < 2 && 0 <= k < i ==> t[ib, h, k] == HalfMul(ib, h, e[k])
      {
        FillEncodeCell(t, ib, i, logib0, logib1, loggx[i], e[i]);
      }
    }

    /** Column i of row ib of makeEncodeTable, both halves. */
    method FillEncodeCell(t: array3<UShort>, ib: nat, i: nat, logib0: UShort, logib1: UShort, lg: nat, ghost c: nat)
      requires Valid() && w == 16 && 1 <= ib < 256 && t.Length0 == 256 && t.Length1 == 2 && i < t.Length2
      requires c != 0 && lg == LogEntry(polynomial, w, c)
      requires logib0 == logTbl[ib] && ib * 256 < logTbl.Length && logib1 == logTbl[ib * 256]
      modifies t
      ensures forall x, h, k :: 0 <= x < 256 && 0 <= h < 2 && 0 <= k < t.Length2 && (x != ib || k != i) ==> t[x, h, k] == old(t[x, h, k])
      ensures forall h :: 0 <= h < 2 ==> t[ib, h, i] == HalfMul(ib, h, c)
    {
      EncodeEntry(ib, 0, c);
      EncodeEntry(ib, 1, c);
      t[ib, 0, i] := expTbl[logib0 as int + lg];
      t[ib, 1, i] := expTbl[logib1 as int + lg];
    }

    /** The entry makeEncodeTable reads for byte ib in half h and a nonzero
        coefficient c, exp[log(ib or ib·256) + log c], is in range and is HalfMul. */
    lemma EncodeEntry(ib: nat, h: nat, c: nat)
      requires Valid() && w == 16 && 1 <= ib < 256 && h < 2 && c != 0
      ensures var v := if h == 0 then ib else ib * 256;
        v < logTbl.Length && logTbl[v] as int + LogEntry(polynomial, w, c) < expTbl.Length
        && expTbl[logTbl[v] as int + LogEntry(polynomial, w, c)] == HalfMul(ib, h, c)
    {
      Pow2At16();
    }

    /** The entry makeDecodeTable reads for byte ib in half h and exponent k,
        exp[log(ib or ib·256) + k], is in range and is HalfMulExp. */
    lemma DecodeEntry(ib: nat, h: nat, k: nat)
      requires Valid() && w == 16 && 1 <= ib < 256 && h < 2 && k <= max
      ensures var v := if h == 0 then ib else ib * 256;
        v < logTbl.Length && logTbl[v] as int + k < expTbl.Length
        && expTbl[logTbl[v] as int + k] == HalfMulExp(ib, h, k)
    {
      Pow2At16();
    }

    /** makeDecodeTable(npar): parityTable[ib, h, i] is the low (h = 0) or high (h = 1)
        byte ib of a 16-bit symbol times α^i. */
    method MakeDecodeTable(npar: nat) returns (t: array3<UShort>)
      requires Valid() && w == 16 && npar <= max + 1
      ensures fresh(t) && t.Length0 == 256 && t.Length1 == 2 && t.Length2 == npar
      ensures forall ib, h, i :: 0 <= ib < 256 && 0 <= h < 2 && 0 <= i < npar ==>
        t[ib, h, i] == HalfMulExp(ib, h, i)
    {
      t := new UShort[256, 2, npar]((_, _, _) => 0);
      for i := 0 to npar
        invariant forall x, h, k :: 0 <= x < 256 && 0 <= h < 2 && 0 <= k < npar ==> t[x, h, k] == 0
      {
        t[0, 0, i] := 0;
        t[0, 1, i] := 0;
      }
      for ib := 1 to 256
        invariant forall x, h, k :: 0 <= x < ib && 0 <= h < 2 && 0 <= k < npar ==> t[x, h, k] == HalfMulExp(x, h, k)
      {
        FillDecodeRow(t, ib);
      }
    }

    /** Row ib of makeDecodeTable: for each i, ib and ib·256 multiplied by α^i through the tables. */
    method FillDecodeRow(t: array3<UShort>, ib: nat)
      requires Valid() && w == 16 && 1 <= ib < 256 && t.Length0 == 256 && t.Length1 == 2
      requires t.Length2 <= max + 1
      modifies t
      ensures forall x, h, k :: 0 <= x < 256 && x != ib && 0 <= h < 2 && 0 <= k < t.Length2 ==> t[x, h, k] == old(t[x, h, k])
      ensures forall h, k :: 0 <= h < 2 && 0 <= k < t.Length2 ==> t[ib, h, k] == HalfMulExp(ib, h, k)
    {
      Pow2At16();
      var logib0 := logTbl[ib];
      var logib1 := logTbl[ib * 256];
      for i := 0 to t.Length2
        invariant forall x, h, k :: 0 <= x < 256 && x != ib && 0 <= h < 2 && 0 <= k < t.Length2 ==> t[x, h, k] == old(t[x, h, k])
        invariant forall h, k :: 0 <= h < 2 && 0 <= k < i ==> t[ib, h, k] == HalfMulExp(ib, h, k)
      {
        FillDecodeCell(t, ib, i, logib0, logib1);
      }
    }

    /** Column i of row ib of makeDecodeTable, both halves. */
    method FillDecodeCell(t: array3<UShort>, ib: nat, i: nat, logib0: UShort, logib1: UShort)
      requires Valid() && w == 16 && 1 <= ib < 256 && t.Length0 == 256 && t.Length1 == 2 && i < t.Length2 <= max + 1
      requires logib0 == logTbl[ib] && ib * 256 < logTbl.Length && logib1 == logTbl[ib * 256]
      modifies t
      ensures forall x, h, k :: 0 <= x < 256 && 0 <= h < 2 && 0 <= k < t.Length2 && (x != ib || k != i) ==> t[x, h, k] == old(t[x, h, k])
      ensures forall h :: 0 <= h < 2 ==> t[ib, h, i] == HalfMulExp(ib, h, i)
    {
      DecodeEntry(ib, 0, i);
      DecodeEntry(ib, 1, i);
      t[ib, 0, i] := expTbl[logib0 as int + i];
      t[ib, 1, i] := expTbl[logib1 as int + i];
    }

    // ---- Decoding ----

    /** calcSyndrome(data, length, syn): syn[i] is the received word's syndrome for
        (x - α^i), found by Horner's rule over the first `length` bytes; the result
        says whether every syndrome is zero. */
    method CalcSyndrome(data: array<Byte>, length: nat, syn: array<int>) returns (ok: bool)
      requires Valid() && length <= data.Length && syn.Length <= max + 1
      requires InField(w, data[..length])
      modifies syn
      ensures forall i :: 0 <= i < syn.Length ==> syn[i] == Horner(polynomial, w, data[..length], i)
      ensures ok <==> forall i :: 0 <= i < syn.Length ==> syn[i] == 0
      ensures Primitive(polynomial, w) ==> forall i :: 0 <= i < syn.Length ==>
        syn[i] == Eval(polynomial, w, Reverse(data[..length]), Alpha(polynomial, w, i))
    {
      ghost var s := data[..length];
      var hasErr: nat := 0;
      for i := 0 to syn.Length
        invariant data[..length] == s
        invariant forall k :: 0 <= k < i ==> syn[k] == Horner(polynomial, w, s, k)
        invariant hasErr == 0 <==> forall k :: 0 <= k < i ==> syn[k] == 0
      {
        hasErr := SyndromeInto(data, length, syn, i, hasErr);
      }
      ok := hasErr == 0;
      SyndromesEval(polynomial, w, s, syn.Length);
    }

    /** One pass of calcSyndrome's outer loop: syn[i] gets the i-th syndrome and
        hasErr |= syn[i]. */
    method SyndromeInto(data: array<Byte>, length: nat, syn: array<int>, i: nat, hasErr: nat) returns (r: nat)
      requires Valid() && length <= data.Length && i < syn.Length <= max + 1
      requires InField(w, data[..length])
      requires forall k :: 0 <= k < i ==> syn[k] == Horner(polynomial, w, data[..length], k)
      requires hasErr == 0 <==> forall k :: 0 <= k < i ==> syn[k] == 0
      modifies syn
      ensures forall k :: 0 <= k < i + 1 ==> syn[k] == Horner(polynomial, w, data[..length], k)
      ensures r == 0 <==> forall k :: 0 <= k < i + 1 ==> syn[k] == 0
      ensures forall k :: 0 <= k < syn.Length && k != i ==> syn[k] == old(syn[k])
    {
      ghost var before := syn[..];
      var wk := SyndromeAt(data, length, i);
      syn[i] := wk;
      assert syn[..] == before[i := wk];
      OrZero(hasErr, wk);
      r := Or(hasErr, wk);
      assert (forall k :: 0 <= k < i + 1 ==> syn[k] == 0)
        <==> (forall k :: 0 <= k < i ==> before[k] == 0) && wk == 0 by {
        assert forall k :: 0 <= k < i ==> syn[k] == before[k];
      }
    }

    /** The inner loop of calcSyndrome (CUETools.Parity/Galois.cs:472-476): Horner's rule at
        α^i, each symbol in turn added to the running value multiplied by α^i. */
    method SyndromeAt(data: array<Byte>, length: nat, i: nat) returns (wk: nat)
      requires Valid() && length <= data.Length && i <= max
      requires InField(w, data[..length])
      ensures wk == Horner(polynomial, w, data[..length], i)
    {
      wk := 0;
      for idx := 0 to length
        invariant wk == Horner(polynomial, w, data[..idx], i)
      {
        assert data[..idx + 1][..idx] == data[..idx];
        assert InField(w, data[..idx]) by {
          assert forall k :: 0 <= k < idx ==> data[..idx][k] == data[..length][k];
        }
        HornerBound(polynomial, w, data[..idx], i);
        wk := Xor(data[idx], if wk == 0 then 0 else expTbl[logTbl[wk] as int + i]);
      }
      assert data[..length] == data[..length];
    }

    /** doForney(jisu, ps, sigma, omega): the error value at the position whose locator
        is ps, ps·ω(z)/σ'(z) at z = α^(max - log ps), with ω summed over its first
        jisu coefficients and σ' over the odd coefficients of σ. */
    method DoForney(jisu: nat, ps: nat, sigma: seq<nat>, omega: seq<nat>) returns (r: nat)
      requires Valid() && ps <= max
      requires 1 <= |omega| && jisu <= |omega| && SigmaReads(jisu) <= |sigma|
      requires InField(w, sigma) && InField(w, omega)
      requires max * (jisu - 1) < 0x8000_0000
      ensures r == TMul(polynomial, w, ps, TDiv(polynomial, w,
        OmegaSum(polynomial, w, omega, max - LogEntry(polynomial, w, ps), jisu),
        DerivSum(polynomial, w, sigma, max - LogEntry(polynomial, w, ps), jisu)))
    {
      var zlog := max - ToLog(ps);
      MulBelow(zlog, max, jisu - 1, 0x8000_0000);
      var ov := OmegaValue(jisu, zlog, omega);
      var dv := DerivValue(jisu, zlog, sigma);
      r := Mul(ps, Div(ov, dv));
    }

    /** doForney's first loop (CUETools.Parity/Galois.cs:517-520): starting from omega[0],
        each coefficient omega[j], 1 <= j < jisu, times z^j for z = α^zlog is added in. */
    method OmegaValue(jisu: nat, zlog: nat, omega: seq<nat>) returns (ov: nat)
      requires Valid() && 1 <= |omega| && jisu <= |omega| && InField(w, omega)
      requires zlog * (jisu - 1) < 0x8000_0000
      ensures ov == OmegaSum(polynomial, w, omega, zlog, jisu) && ov <= max
    {
      ov := omega[0];
      var j := 1;
      while j < jisu
        invariant 1 <= j <= if jisu < 1 then 1 else jisu
        invariant ov == OmegaSum(polynomial, w, omega, zlog, j) && ov <= max
      {
        MulBelow(j, jisu - 1, zlog, 0x8000_0000);
        ov := AddOmegaTerm(omega, zlog, j, ov);
        j := j + 1;
      }
    }

    /** One pass of doForney's first loop: the term omega[j]·α^(zlog·j), its exponent
        reduced modulo max (the product below 2^31, so exact in 32 bits), is added to ov. */
    method AddOmegaTerm(omega: seq<nat>, zlog: nat, j: nat, ov: nat) returns (r: nat)
      requires Valid() && InField(w, omega) && 1 <= j < |omega|
      requires zlog * j < 0x8000_0000
      requires ov == OmegaSum(polynomial, w, omega, zlog, j) && ov <= max
      ensures r == OmegaSum(polynomial, w, omega, zlog, j + 1) && r <= max
    {
      RemProduct(zlog, j, max);
      var e := Rem(zlog * j, max);
      var m := MulExp(omega[j], e);
      ExpEntryBound(polynomial, w, LogEntry(polynomial, w, omega[j]) + e);
      XorField(w, ov, m);
      r := Xor(ov, m);
    }

    /** doForney's second loop (CUETools.Parity/Galois.cs:522-527): starting from sigma[1],
        each odd coefficient sigma[j + 1] times z^j, for even 2 <= j < jisu and z = α^zlog,
        is added in, so that dv is σ'(z). */
    method DerivValue(jisu: nat, zlog: nat, sigma: seq<nat>) returns (dv: nat)
      requires Valid() && SigmaReads(jisu) <= |sigma| && InField(w, sigma)
      requires zlog * (jisu - 1) < 0x8000_0000
      ensures dv == DerivSum(polynomial, w, sigma, zlog, jisu) && dv <= max
    {
      dv := sigma[1];
      var j := 2;
      ghost var t := 1;
      while j < jisu
        invariant 2 <= j && (j <= jisu + 1 || j == 2)
        invariant j == 2 * t
        invariant SigmaReads(j - 1) <= |sigma|
        invariant dv == DerivSum(polynomial, w, sigma, zlog, j - 1) && dv <= max
      {
        DerivLoopBound(t, jisu, |sigma|);
        MulBelow(j, jisu - 1, zlog, 0x8000_0000);
        dv := AddDerivTerm(sigma, zlog, j, t, dv);
        j, t := j + 2, t + 1;
      }
      DerivSumExit(polynomial, w, sigma, zlog, t, jisu);
    }

    /** One pass of doForney's second loop, j = 2t: the term sigma[j + 1]·α^(zlog·j), its
        exponent reduced modulo max (the product below 2^31, so exact in 32 bits), is added to dv. */
    method AddDerivTerm(sigma: seq<nat>, zlog: nat, j: nat, ghost t: nat, dv: nat) returns (r: nat)
      requires Valid() && InField(w, sigma) && 1 <= t && j == 2 * t && j + 1 < |sigma|
      requires zlog * j < 0x8000_0000
      requires SigmaReads(j - 1) <= |sigma| && dv == DerivSum(polynomial, w, sigma, zlog, j - 1) && dv <= max
      ensures SigmaReads(j + 1) <= |sigma| && r == DerivSum(polynomial, w, sigma, zlog, j + 1) && r <= max
    {
      RemProduct(zlog, j, max);
      var e := Rem(zlog * j, max);
      DerivSumStep(polynomial, w, sigma, zlog, t);
      var m := MulExp(sigma[j + 1], e);
      ExpEntryBound(polynomial, w, LogEntry(polynomial, w, sigma[j + 1]) + e);
      XorField(w, dv, m);
      r := Xor(dv, m);
    }
  }
}
