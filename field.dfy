/** The contents of the Galois tables as functions of the polynomial and the
    symbol width, and what the table lookups compute.

    The constructor (CUETools.Parity/Galois.cs:18-37) leaves expTbl[i] = α^i for
    i < max and again expTbl[max + i] = α^i, and logTbl[v] = the last step at which
    the walk met v (0 when it never did). Every scalar operation of the class is a
    lookup in these two tables; the functions below state those lookups on the
    table contents, and the lemmas state what they mean in GF(2^w) once the
    polynomial is primitive. */
module Field {
  import opened Bits
  import opened FieldWalk

  /** max = 2^w - 1, the number of nonzero field elements. */
  function Max(w: nat): nat
  {
    Pow2(w) - 1
  }

  /** expTbl[i] as the constructor fills it. */
  function ExpEntry(poly: nat, w: nat, i: nat): nat
  {
    Alpha(poly, w, if i < Max(w) then i else i - Max(w))
  }

  /** logTbl[v] as the constructor fills it. */
  function LogEntry(poly: nat, w: nat, v: nat): (r: nat)
    ensures r <= Max(w)
    ensures Max(w) > 0 ==> r < Max(w)
  {
    LastLog(poly, w, v, Max(w))
  }

  /** mul(a, b): zero if either operand is zero, else exp[log a + log b]. */
  function TMul(poly: nat, w: nat, a: nat, b: nat): nat
  {
    if a == 0 || b == 0 then 0 else ExpEntry(poly, w, LogEntry(poly, w, a) + LogEntry(poly, w, b))
  }

  /** mulExp(a, e): a times α^e, zero if a is zero. */
  function TMulExp(poly: nat, w: nat, a: nat, e: nat): nat
  {
    if a == 0 then 0 else ExpEntry(poly, w, LogEntry(poly, w, a) + e)
  }

  /** div(a, b): zero if a is zero, else exp[log a - log b + max]. */
  function TDiv(poly: nat, w: nat, a: nat, b: nat): nat
  {
    if a == 0 then 0 else ExpEntry(poly, w, LogEntry(poly, w, a) - LogEntry(poly, w, b) + Max(w))
  }

  /** divExp(a, e): a divided by α^e, zero if a is zero. */
  function TDivExp(poly: nat, w: nat, a: nat, e: nat): nat
    requires e <= Max(w)
  {
    if a == 0 then 0 else ExpEntry(poly, w, LogEntry(poly, w, a) - e + Max(w))
  }

  /** inv(a): exp[max - log a]. */
  function TInv(poly: nat, w: nat, a: nat): nat
  {
    ExpEntry(poly, w, Max(w) - LogEntry(poly, w, a))
  }

  /** A log-form symbol: an exponent, or -1 for the zero element. */
  predicate IsLog(w: nat, e: int)
  {
    -1 <= e < Max(w)
  }

  /** The value of a log-form symbol: 0 for the sentinel -1, otherwise α^e. */
  function ExpOf(poly: nat, w: nat, e: int): nat
    requires -1 <= e < 2 * Max(w)
  {
    if e == -1 then 0 else ExpEntry(poly, w, e)
  }

  /** The log form of a value: the sentinel -1 for 0, otherwise its logarithm. */
  function LogOf(poly: nat, w: nat, v: nat): (r: int)
    ensures IsLog(w, r) || (w == 0 && r == 0)
  {
    if v == 0 then -1 else LogEntry(poly, w, v)
  }

  // ---- The tables under a primitive polynomial ----

  /** Going round the cycle once more changes nothing: α^(i+max) = α^i. */
  lemma AlphaPlusMax(poly: nat, w: nat, i: nat)
    requires Primitive(poly, w)
    ensures Alpha(poly, w, i + Max(w)) == Alpha(poly, w, i)
  {
    AlphaPeriod(poly, w);
    StepNAdd(poly, w, 1, Max(w), i);
  }

  /** Every expTbl entry, in either half, is the power of α its index names. */
  lemma ExpEntryAlpha(poly: nat, w: nat, i: nat)
    requires Primitive(poly, w)
    ensures ExpEntry(poly, w, i) == Alpha(poly, w, i)
  {
    if i >= Max(w) {
      AlphaPlusMax(poly, w, i - Max(w));
    }
  }

  /** Every expTbl entry is a w-bit value, whatever the polynomial. */
  lemma ExpEntryBound(poly: nat, w: nat, i: nat)
    requires 1 <= w
    ensures ExpEntry(poly, w, i) <= Max(w)
  {
    StepNBound(poly, w, 1, if i < Max(w) then i else i - Max(w));
  }

  /** A table product is a w-bit value, whatever the polynomial. */
  lemma TMulBound(poly: nat, w: nat, a: nat, b: nat)
    requires 1 <= w
    ensures TMul(poly, w, a, b) <= Max(w)
  {
    ExpEntryBound(poly, w, LogEntry(poly, w, a) + LogEntry(poly, w, b));
  }

  /** For an odd polynomial every expTbl entry is a nonzero w-bit value, and the
      second half of the table repeats the first. */
  lemma ExpEntryRange(poly: nat, w: nat, i: nat)
    requires poly % 2 == 1 && 1 <= w
    ensures 1 <= ExpEntry(poly, w, i) <= Max(w)
    ensures i < Max(w) ==> ExpEntry(poly, w, i + Max(w)) == ExpEntry(poly, w, i)
  {
    AlphaRange(poly, w, if i < Max(w) then i else i - Max(w));
  }

  /** logTbl inverts expTbl on the exponents 0 .. max-1. */
  lemma LogExp(poly: nat, w: nat, i: nat)
    requires Primitive(poly, w) && i < Max(w)
    ensures LogEntry(poly, w, ExpEntry(poly, w, i)) == i
  {
    LogOfAlpha(poly, w, i);
  }

  /** expTbl inverts logTbl on the nonzero values. */
  lemma ExpLog(poly: nat, w: nat, v: nat)
    requires Primitive(poly, w) && 1 <= v <= Max(w)
    ensures ExpEntry(poly, w, LogEntry(poly, w, v)) == v
  {
    AlphaOfLog(poly, w, v);
  }

  /** The log of any power of α is its exponent reduced modulo max. */
  lemma LogAlpha(poly: nat, w: nat, i: nat)
    requires Primitive(poly, w)
    ensures LogEntry(poly, w, Alpha(poly, w, i)) == i % Max(w)
  {
    AlphaMod(poly, w, i);
    LogOfAlpha(poly, w, i % Max(w));
  }

  /** logTbl[0] keeps its initial 0: the walk never meets zero. */
  lemma LogZero(poly: nat, w: nat)
    requires poly % 2 == 1 && 1 <= w
    ensures LogEntry(poly, w, 0) == 0
  {
    LogOfZero(poly, w);
  }

  /** max multiplications by α bring every w-bit value back to itself. */
  lemma StepNPeriod(poly: nat, w: nat, v: nat)
    requires Primitive(poly, w) && v <= Max(w)
    ensures StepN(poly, w, v, Max(w)) == v
  {
    if v == 0 {
      StepNZero(poly, w, Max(w));
    } else {
      var lv := LogEntry(poly, w, v);
      AlphaOfLog(poly, w, v);
      StepNAdd(poly, w, 1, lv, Max(w));
      AlphaPlusMax(poly, w, lv);
    }
  }

  /** Multiplying by α a number of times only depends on that number modulo max. */
  lemma {:induction false} StepNMod(poly: nat, w: nat, v: nat, e: nat)
    requires Primitive(poly, w) && v <= Max(w)
    ensures StepN(poly, w, v, e) == StepN(poly, w, v, e % Max(w))
  {
    if e >= Max(w) {
      StepNMod(poly, w, v, e - Max(w));
      StepNPlusMax(poly, w, v, e - Max(w));
      ModSub(e, Max(w));
    } else {
      DivModUnique(e, Max(w), 0, e);
    }
  }

  lemma StepNPlusMax(poly: nat, w: nat, v: nat, y: nat)
    requires Primitive(poly, w) && v <= Max(w)
    ensures StepN(poly, w, v, Max(w) + y) == StepN(poly, w, v, y)
  {
    StepNAdd(poly, w, v, Max(w), y);
    StepNPeriod(poly, w, v);
  }

  // ---- What the lookups compute ----

  /** mul(a, b) multiplies b by α log(a) times. */
  lemma TMulStep(poly: nat, w: nat, a: nat, b: nat)
    requires Primitive(poly, w) && a <= Max(w) && b <= Max(w)
    ensures a != 0 ==> TMul(poly, w, a, b) == StepN(poly, w, b, LogEntry(poly, w, a))
  {
    if a != 0 && b == 0 {
      StepNZero(poly, w, LogEntry(poly, w, a));
    } else if a != 0 {
      var la, lb := LogEntry(poly, w, a), LogEntry(poly, w, b);
      calc {
        TMul(poly, w, a, b);
        ExpEntry(poly, w, la + lb);
        { ExpEntryAlpha(poly, w, la + lb); }
        Alpha(poly, w, lb + la);
        { StepNAdd(poly, w, 1, lb, la); }
        StepN(poly, w, Alpha(poly, w, lb), la);
        { AlphaOfLog(poly, w, b); }
        StepN(poly, w, b, la);
      }
    }
  }

  /** The table product agrees with shift-and-reduce multiplication. */
  lemma TMulShift(poly: nat, w: nat, a: nat, b: nat)
    requires Primitive(poly, w) && a <= Max(w) && b <= Max(w)
    ensures TMul(poly, w, a, b) == ShiftMul(poly, w, a, b)
  {
    if a == 0 {
      ShiftMulZero(poly, w, b);
    } else {
      TMulStep(poly, w, a, b);
      AlphaOfLog(poly, w, a);
      ShiftMulAlpha(poly, w, LogEntry(poly, w, a), b);
    }
  }

  /** For an odd polynomial a product of w-bit values is a w-bit value, and it is
      zero exactly when a factor is. */
  lemma TMulRange(poly: nat, w: nat, a: nat, b: nat)
    requires poly % 2 == 1 && 1 <= w
    ensures TMul(poly, w, a, b) <= Max(w)
    ensures TMul(poly, w, a, b) == 0 <==> a == 0 || b == 0
  {
    if a != 0 && b != 0 {
      ExpEntryRange(poly, w, LogEntry(poly, w, a) + LogEntry(poly, w, b));
    }
  }

  /** Powers of α multiply by adding exponents. */
  lemma TMulAlpha(poly: nat, w: nat, i: nat, j: nat)
    requires Primitive(poly, w)
    ensures TMul(poly, w, Alpha(poly, w, i), Alpha(poly, w, j)) == Alpha(poly, w, i + j)
  {
    AlphaRange(poly, w, i);
    AlphaRange(poly, w, j);
    TMulStep(poly, w, Alpha(poly, w, i), Alpha(poly, w, j));
    LogAlpha(poly, w, i);
    StepNMod(poly, w, Alpha(poly, w, j), i);
    StepNAdd(poly, w, 1, j, i);
  }

  /** Multiplication is commutative, and zero and one behave as they should. */
  lemma TMulUnit(poly: nat, w: nat, a: nat, b: nat)
    requires Primitive(poly, w) && a <= Max(w)
    ensures TMul(poly, w, a, b) == TMul(poly, w, b, a)
    ensures TMul(poly, w, a, 0) == 0 && TMul(poly, w, 0, a) == 0
    ensures TMul(poly, w, a, 1) == a && TMul(poly, w, 1, a) == a
  {
    if a != 0 {
      TMulStep(poly, w, 1, a);
      LogZeroAlpha(poly, w);
    }
  }

  /** log(1) = 0. */
  lemma LogZeroAlpha(poly: nat, w: nat)
    requires Primitive(poly, w)
    ensures LogEntry(poly, w, 1) == 0
  {
    LogOfAlpha(poly, w, 0);
  }

  /** Multiplication is associative. */
  lemma TMulAssoc(poly: nat, w: nat, a: nat, b: nat, c: nat)
    requires Primitive(poly, w) && a <= Max(w) && b <= Max(w) && c <= Max(w)
    ensures TMul(poly, w, TMul(poly, w, a, b), c) == TMul(poly, w, a, TMul(poly, w, b, c))
  {
    if a != 0 && b != 0 && c != 0 {
      var la, lb, lc := LogEntry(poly, w, a), LogEntry(poly, w, b), LogEntry(poly, w, c);
      var ab, bc := TMul(poly, w, a, b), TMul(poly, w, b, c);
      TMulRange(poly, w, a, b);
      TMulRange(poly, w, b, c);
      calc {
        TMul(poly, w, ab, c);
        TMul(poly, w, c, ab);
        { TMulStep(poly, w, c, ab); }
        StepN(poly, w, ab, lc);
        { TMulStep(poly, w, a, b); }
        StepN(poly, w, StepN(poly, w, b, la), lc);
        { StepNAdd(poly, w, b, la, lc); StepNAdd(poly, w, b, lc, la); }
        StepN(poly, w, StepN(poly, w, b, lc), la);
        { TMulStep(poly, w, c, b); }
        StepN(poly, w, TMul(poly, w, c, b), la);
        StepN(poly, w, bc, la);
        { TMulStep(poly, w, a, bc); }
        TMul(poly, w, a, bc);
      }
    } else {
      TMulRange(poly, w, a, b);
      TMulRange(poly, w, b, c);
    }
  }

  /** Multiplication distributes over addition (Xor). */
  lemma TMulDistrib(poly: nat, w: nat, a: nat, b: nat, c: nat)
    requires Primitive(poly, w) && a <= Max(w) && b <= Max(w) && c <= Max(w)
    ensures TMul(poly, w, a, Xor(b, c)) == Xor(TMul(poly, w, a, b), TMul(poly, w, a, c))
  {
    XorBound(b, c, w);
    if a == 0 {
      XorZero(0);
    } else {
      TMulStep(poly, w, a, b);
      TMulStep(poly, w, a, c);
      TMulStep(poly, w, a, Xor(b, c));
      StepNLinear(poly, w, b, c, LogEntry(poly, w, a));
    }
  }

  /** A nonzero factor can be cancelled. */
  lemma TMulCancel(poly: nat, w: nat, a: nat, b: nat, c: nat)
    requires Primitive(poly, w) && a <= Max(w) && b <= Max(w) && 1 <= c <= Max(w)
    requires TMul(poly, w, c, a) == TMul(poly, w, c, b)
    ensures a == b
  {
    TMulStep(poly, w, c, a);
    TMulStep(poly, w, c, b);
    StepNInjective(poly, w, a, b, LogEntry(poly, w, c));
  }

  /** inv(a) is the multiplicative inverse of a nonzero a; inv(0) is 1. */
  lemma TInvMul(poly: nat, w: nat, a: nat)
    requires Primitive(poly, w) && a <= Max(w)
    ensures a != 0 ==> TMul(poly, w, a, TInv(poly, w, a)) == 1
    ensures a == 0 ==> TInv(poly, w, a) == 1
  {
    var la := LogEntry(poly, w, a);
    if a == 0 {
      LogZero(poly, w);
    } else {
      var z := TInv(poly, w, a);
      ExpEntryRange(poly, w, Max(w) - la);
      TMulStep(poly, w, a, z);
      ExpEntryAlpha(poly, w, Max(w) - la);
      StepNAdd(poly, w, 1, Max(w) - la, la);
      AlphaPeriod(poly, w);
    }
  }

  /** div(a, b) is the quotient of a by a nonzero b: multiplying it back by b gives a.
      Dividing by zero returns a unchanged. */
  lemma TDivMul(poly: nat, w: nat, a: nat, b: nat)
    requires Primitive(poly, w) && a <= Max(w) && b <= Max(w)
    ensures TDiv(poly, w, a, b) <= Max(w)
    ensures b != 0 ==> TMul(poly, w, TDiv(poly, w, a, b), b) == a
    ensures b == 0 ==> TDiv(poly, w, a, b) == a
  {
    if a == 0 {
      TMulUnit(poly, w, b, 0);
    } else {
      var la, lb := LogEntry(poly, w, a), LogEntry(poly, w, b);
      var k := la - lb + Max(w);
      ExpEntryRange(poly, w, k);
      assert TDiv(poly, w, a, b) == Alpha(poly, w, k) by {
        ExpEntryAlpha(poly, w, k);
      }
      if b == 0 {
        LogZero(poly, w);
        TDivByZero(poly, w, a);
      } else {
        var d := TDiv(poly, w, a, b);
        calc {
          TMul(poly, w, d, b);
          { TMulUnit(poly, w, d, b); }
          TMul(poly, w, b, d);
          { TMulStep(poly, w, b, d); }
          StepN(poly, w, Alpha(poly, w, k), lb);
          { StepNAdd(poly, w, 1, k, lb); }
          Alpha(poly, w, la + Max(w));
          { AlphaPlusMax(poly, w, la); }
          Alpha(poly, w, la);
          { AlphaOfLog(poly, w, a); }
          a;
        }
      }
    }
  }

  lemma TDivByZero(poly: nat, w: nat, a: nat)
    requires Primitive(poly, w) && 1 <= a <= Max(w)
    ensures TDiv(poly, w, a, 0) == a
  {
    var la := LogEntry(poly, w, a);
    calc {
      TDiv(poly, w, a, 0);
      { LogZero(poly, w); }
      ExpEntry(poly, w, la + Max(w));
      { ExpEntryAlpha(poly, w, la + Max(w)); AlphaPlusMax(poly, w, la); }
      Alpha(poly, w, la);
      { AlphaOfLog(poly, w, a); }
      a;
    }
  }

  /** Dividing a product by one of its nonzero factors gives the other. */
  lemma TDivOfMul(poly: nat, w: nat, a: nat, b: nat)
    requires Primitive(poly, w) && a <= Max(w) && 1 <= b <= Max(w)
    ensures TDiv(poly, w, TMul(poly, w, a, b), b) == a
  {
    var p := TMul(poly, w, a, b);
    TMulRange(poly, w, a, b);
    var d := TDiv(poly, w, p, b);
    TDivMul(poly, w, p, b);
    TMulUnit(poly, w, d, b);
    TMulUnit(poly, w, a, b);
    TMulCancel(poly, w, d, a, b);
  }

  /** mulExp(a, e) multiplies a by α e times. */
  lemma TMulExpStep(poly: nat, w: nat, a: nat, e: nat)
    requires Primitive(poly, w) && a <= Max(w)
    ensures TMulExp(poly, w, a, e) == StepN(poly, w, a, e)
  {
    if a == 0 {
      StepNZero(poly, w, e);
    } else {
      TMulExpNonzero(poly, w, a, e);
    }
  }

  lemma TMulExpNonzero(poly: nat, w: nat, a: nat, e: nat)
    requires Primitive(poly, w) && 1 <= a <= Max(w)
    ensures TMulExp(poly, w, a, e) == StepN(poly, w, a, e)
  {
    var la := LogEntry(poly, w, a);
    TMulExpAlpha(poly, w, a, e);
    StepNAdd(poly, w, 1, la, e);
    StepNFromLog(poly, w, a, e);
  }

  /** mulExp of a nonzero value looks up α^(log a + e). */
  lemma TMulExpAlpha(poly: nat, w: nat, a: nat, e: nat)
    requires Primitive(poly, w) && 1 <= a <= Max(w)
    ensures TMulExp(poly, w, a, e) == Alpha(poly, w, LogEntry(poly, w, a) + e)
  {
    ExpEntryAlpha(poly, w, LogEntry(poly, w, a) + e);
  }

  /** Walking from α^(log a) is walking from a. */
  lemma StepNFromLog(poly: nat, w: nat, a: nat, e: nat)
    requires Primitive(poly, w) && 1 <= a <= Max(w)
    ensures StepN(poly, w, Alpha(poly, w, LogEntry(poly, w, a)), e) == StepN(poly, w, a, e)
  {
    AlphaOfLog(poly, w, a);
  }

  /** Multiplying by α^e is e steps of the walk, whatever the size of e. */
  lemma TMulAlphaRight(poly: nat, w: nat, a: nat, e: nat)
    requires Primitive(poly, w) && a <= Max(w)
    ensures TMul(poly, w, a, Alpha(poly, w, e)) == StepN(poly, w, a, e)
  {
    var x := Alpha(poly, w, e);
    AlphaRange(poly, w, e);
    LogAlpha(poly, w, e);
    TMulStep(poly, w, x, a);
    StepNMod(poly, w, a, e);
    TMulUnit(poly, w, a, x);
  }

  /** divExp undoes mulExp: dividing by α^e and multiplying back by α^e gives a. */
  lemma TDivExpInverse(poly: nat, w: nat, a: nat, e: nat)
    requires Primitive(poly, w) && a <= Max(w) && e <= Max(w)
    ensures TDivExp(poly, w, a, e) <= Max(w)
    ensures TMulExp(poly, w, TDivExp(poly, w, a, e), e) == a
  {
    if a != 0 {
      var la := LogEntry(poly, w, a);
      var k := la - e + Max(w);
      var d := TDivExp(poly, w, a, e);
      ExpEntryRange(poly, w, k);
      calc {
        TMulExp(poly, w, d, e);
        { TMulExpStep(poly, w, d, e); }
        StepN(poly, w, d, e);
        { ExpEntryAlpha(poly, w, k); }
        StepN(poly, w, Alpha(poly, w, k), e);
        { StepNAdd(poly, w, 1, k, e); }
        Alpha(poly, w, la + Max(w));
        { AlphaPlusMax(poly, w, la); }
        Alpha(poly, w, la);
        { AlphaOfLog(poly, w, a); }
        a;
      }
    }
  }

  /** Converting a value to log form and back gives the value (0 goes through -1). */
  lemma ExpOfLogOf(poly: nat, w: nat, v: nat)
    requires Primitive(poly, w) && v <= Max(w)
    ensures ExpOf(poly, w, LogOf(poly, w, v)) == v
  {
    if v != 0 {
      ExpLog(poly, w, v);
    }
  }

  /** Converting a log-form symbol to a value and back gives the symbol. */
  lemma LogOfExpOf(poly: nat, w: nat, e: int)
    requires Primitive(poly, w) && IsLog(w, e)
    ensures ExpOf(poly, w, e) <= Max(w)
    ensures LogOf(poly, w, ExpOf(poly, w, e)) == e
  {
    if e != -1 {
      ExpEntryRange(poly, w, e);
      LogExp(poly, w, e);
    }
  }

  /** x raised to the p-th power by repeated multiplication. */
  function FPow(poly: nat, w: nat, x: nat, p: nat): nat
  {
    if p == 0 then 1 else TMul(poly, w, x, FPow(poly, w, x, p - 1))
  }

  /** The p-th power of α^i is α^(i·p). */
  lemma FPowAlpha(poly: nat, w: nat, i: nat, p: nat)
    requires Primitive(poly, w)
    ensures FPow(poly, w, Alpha(poly, w, i), p) == Alpha(poly, w, i * p)
  {
    FPowTimes(poly, w, i, p);
    TimesMul(i, p);
  }

  /** i added to itself p times. */
  function Times(i: nat, p: nat): nat
  {
    if p == 0 then 0 else Times(i, p - 1) + i
  }

  lemma {:induction false} TimesMul(i: nat, p: nat)
    ensures Times(i, p) == i * p
  {
    if p > 0 {
      TimesMul(i, p - 1);
      assert i * p == i * (p - 1) + i;
    }
  }

  lemma {:induction false} FPowTimes(poly: nat, w: nat, i: nat, p: nat)
    requires Primitive(poly, w)
    ensures FPow(poly, w, Alpha(poly, w, i), p) == Alpha(poly, w, Times(i, p))
  {
    if p > 0 {
      FPowTimes(poly, w, i, p - 1);
      TMulAlpha(poly, w, i, Times(i, p - 1));
    }
  }

  // ---- Arithmetic on log-form symbols (gfmul, gfdiv, gfpow) ----

  /** Adding exponents modulo max multiplies the values. */
  lemma LogMul(poly: nat, w: nat, a: nat, b: nat)
    requires Primitive(poly, w) && a < Max(w) && b < Max(w)
    ensures IsLog(w, (a + b) % Max(w))
    ensures ExpOf(poly, w, (a + b) % Max(w)) == TMul(poly, w, ExpOf(poly, w, a), ExpOf(poly, w, b))
  {
    AlphaMod(poly, w, a + b);
    TMulAlpha(poly, w, a, b);
  }

  /** Subtracting exponents modulo max divides the values: the quotient times the
      divisor is the dividend. */
  lemma LogDiv(poly: nat, w: nat, a: nat, b: nat)
    requires Primitive(poly, w) && a < Max(w) && b < Max(w)
    ensures IsLog(w, (Max(w) + a - b) % Max(w))
    ensures TMul(poly, w, ExpOf(poly, w, (Max(w) + a - b) % Max(w)), ExpOf(poly, w, b)) == ExpOf(poly, w, a)
  {
    var d := Max(w) + a - b;
    AlphaMod(poly, w, d);
    TMulAlpha(poly, w, d, b);
    AlphaPlusMax(poly, w, a);
  }

  /** Multiplying an exponent by p modulo max raises the value to the p-th power. */
  lemma LogPow(poly: nat, w: nat, v: nat, p: nat)
    requires Primitive(poly, w) && v < Max(w)
    ensures IsLog(w, (v * p) % Max(w))
    ensures ExpOf(poly, w, (v * p) % Max(w)) == FPow(poly, w, ExpOf(poly, w, v), p)
  {
    AlphaMod(poly, w, v * p);
    FPowAlpha(poly, w, v, p);
  }

  /** gfpow's exponent arithmetic, C#'s remainder of value·p by max: for the zero
      symbol it is -(p mod max), for an exponent it names the p-th power. */
  lemma GfPowRem(poly: nat, w: nat, value: int, p: int)
    requires 1 <= w
    ensures value == -1 && 0 <= p ==> Rem(value * p, Max(w)) == -(p % Max(w))
    ensures Primitive(poly, w) && 0 <= value < Max(w) && 0 <= p ==>
      && IsLog(w, Rem(value * p, Max(w)))
      && ExpOf(poly, w, Rem(value * p, Max(w))) == FPow(poly, w, ExpOf(poly, w, value), p)
  {
    if 0 <= p {
      RemProduct(value, p, Max(w));
      if Primitive(poly, w) && 0 <= value < Max(w) {
        LogPow(poly, w, value, p);
      }
    }
  }

  /** mulExp(a, e) is the product of a and α^e. */
  lemma TMulExpMul(poly: nat, w: nat, a: nat, e: nat)
    requires Primitive(poly, w) && a <= Max(w)
    ensures TMulExp(poly, w, a, e) == TMul(poly, w, a, Alpha(poly, w, e))
  {
    TMulExpStep(poly, w, a, e);
    TMulAlphaRight(poly, w, a, e);
  }
}
