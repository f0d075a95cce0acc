/** The multiplicative cycle of GF(2^w) that the Galois constructor walks
    (CUETools.Parity/Galois.cs:26-36): starting from 1, each step multiplies by
    the primitive element α, that is, shifts left one bit and, when bit w comes
    up, xors the reduction polynomial and keeps the low w bits.

    This module states what the walk is, the reference multiplication built from
    the same step (shift-and-reduce), and the field facts that follow once the
    walk visits max = 2^w - 1 distinct values (a primitive polynomial). */
module FieldWalk {
  import opened Bits

  /** Multiplication by α of a w-bit value d: shift left, and when the top bit
      (bit w-1) falls out, add the reduction polynomial's low w bits. StepCode
      shows this is what the constructor's bit operations compute. */
  function Step(poly: nat, w: nat, d: nat): nat
  {
    if 1 <= w && d >= Pow2(w - 1) then Xor(2 * (d - Pow2(w - 1)), Lo(poly, w)) else 2 * d
  }

  /** d multiplied k times by α. */
  function StepN(poly: nat, w: nat, d: nat, k: nat): nat
  {
    if k == 0 then d else Step(poly, w, StepN(poly, w, d, k - 1))
  }

  /** α^i: the value the walk holds after i steps. */
  function Alpha(poly: nat, w: nat, i: nat): nat
  {
    StepN(poly, w, 1, i)
  }

  /** The entry the walk leaves in logTbl[v] after its first n steps: the last
      i < n at which it met v, or 0 (the initial content) when it never met v. */
  function LastLog(poly: nat, w: nat, v: nat, n: nat): (r: nat)
    ensures n > 0 ==> r < n
    ensures n == 0 ==> r == 0
  {
    if n == 0 then 0
    else if Alpha(poly, w, n - 1) == v then n - 1
    else LastLog(poly, w, v, n - 1)
  }

  /** LastLog names the last meeting with v, and stays 0 when there was none. */
  lemma {:induction false} LastLogSpec(poly: nat, w: nat, v: nat, n: nat)
    ensures forall i :: LastLog(poly, w, v, n) < i < n ==> Alpha(poly, w, i) != v
    ensures (exists i :: 0 <= i < n && Alpha(poly, w, i) == v) ==> Alpha(poly, w, LastLog(poly, w, v, n)) == v
    ensures (forall i :: 0 <= i < n ==> Alpha(poly, w, i) != v) ==> LastLog(poly, w, v, n) == 0
  {
    if n > 0 && Alpha(poly, w, n - 1) != v {
      LastLogSpec(poly, w, v, n - 1);
    }
  }

  /** The hypothesis under which the tables describe GF(2^w): the polynomial has
      a constant term and the walk meets max distinct values before it returns.
      The code never checks this. */
  ghost predicate Primitive(poly: nat, w: nat)
  {
    1 <= w && poly % 2 == 1 && |Visited(poly, w, Pow2(w) - 1)| == Pow2(w) - 1
  }

  /** Reference multiplication in GF(2^w), independent of the tables: for every
      set bit j of b, add a·α^j, where a·α^j is formed by j shift-and-reduce steps. */
  function ShiftMul(poly: nat, w: nat, a: nat, b: nat): nat
    decreases b
  {
    if b == 0 then 0
    else Xor(if b % 2 == 1 then a else 0, ShiftMul(poly, w, Step(poly, w, a), b / 2))
  }

  /** The constructor's step on bits, doubling d and, when that carries into bit w,
      adding the polynomial and keeping the low w bits, is Step. */
  lemma StepCode(poly: nat, w: nat, d: nat)
    requires 1 <= w && d < Pow2(w)
    ensures Step(poly, w, d) == var s := 2 * d; if Hi(s, w) % 2 != 0 then Lo(Xor(s, poly), w) else s
  {
    var P := Pow2(w);
    var s := 2 * d;
    if d >= Pow2(w - 1) {
      HiLoUnique(s, w, 1, s - P);
      XorLo(s, poly, w);
    } else {
      HiLoUnique(s, w, 0, s);
    }
  }

  /** A w-bit value stays a w-bit value. */
  lemma StepBound(poly: nat, w: nat, d: nat)
    requires 1 <= w && d < Pow2(w)
    ensures Step(poly, w, d) < Pow2(w)
  {
    if d >= Pow2(w - 1) {
      HiLo(poly, w);
      XorBound(2 * (d - Pow2(w - 1)), Lo(poly, w), w);
    }
  }

  /** Step in the form used for linearity: the low w-1 bits doubled, xor the
      polynomial's low w bits when the top bit t was set. */
  lemma StepSplit(poly: nat, w: nat, d: nat, t: nat, l: nat)
    requires 1 <= w && d < Pow2(w) && t <= 1 && l < Pow2(w - 1) && d == Shl(t, w - 1) + l
    ensures Step(poly, w, d) == Xor(2 * l, if t == 1 then Lo(poly, w) else 0)
  {
    XorZero(2 * l);
  }

  lemma StepZero(poly: nat, w: nat)
    ensures Step(poly, w, 0) == 0
  {
  }

  /** The top bit (bit w-1) of a w-bit value and the bits below it. */
  lemma TopBit(w: nat, a: nat) returns (t: nat, l: nat)
    requires 1 <= w && a < Pow2(w)
    ensures t <= 1 && l < Pow2(w - 1) && a == Shl(t, w - 1) + l
    ensures t == 1 <==> a >= Pow2(w - 1)
  {
    if a >= Pow2(w - 1) {
      t, l := 1, a - Pow2(w - 1);
    } else {
      t, l := 0, a;
    }
  }

  /** Selecting the reduction polynomial by a bit commutes with Xor. */
  lemma XorSelect(ta: nat, tb: nat, pr: nat)
    requires ta <= 1 && tb <= 1
    ensures Xor(if ta == 1 then pr else 0, if tb == 1 then pr else 0)
         == if Xor(ta, tb) == 1 then pr else 0
  {
    XorBit(ta, tb);
    XorZero(pr);
    XorZero(0);
    XorSelf(pr);
  }

  /** Splitting two w-bit values at bit w-1 commutes with Xor. */
  lemma SplitXorTop(w: nat, ta: nat, la: nat, tb: nat, lb: nat)
    requires 1 <= w && ta <= 1 && tb <= 1 && la < Pow2(w - 1) && lb < Pow2(w - 1)
    ensures Xor(ta, tb) <= 1 && Xor(la, lb) < Pow2(w - 1)
    ensures Xor(Shl(ta, w - 1) + la, Shl(tb, w - 1) + lb) == Shl(Xor(ta, tb), w - 1) + Xor(la, lb)
  {
    XorSplit(ta, la, tb, lb, w - 1);
    XorBound(ta, tb, 1);
    XorBound(la, lb, w - 1);
  }

  /** Doubling the low bits and adding the selected polynomial commutes with Xor. */
  lemma SplitXorReduce(pr: nat, ta: nat, la: nat, tb: nat, lb: nat)
    requires ta <= 1 && tb <= 1
    ensures Xor(2 * Xor(la, lb), if Xor(ta, tb) == 1 then pr else 0)
         == Xor(Xor(2 * la, if ta == 1 then pr else 0), Xor(2 * lb, if tb == 1 then pr else 0))
  {
    var sa, sb := if ta == 1 then pr else 0, if tb == 1 then pr else 0;
    XorDouble(la, lb);
    XorSelect(ta, tb, pr);
    XorSwap(2 * la, sa, 2 * lb, sb);
  }

  /** Multiplication by α distributes over field addition (Xor). */
  lemma StepLinear(poly: nat, w: nat, a: nat, b: nat)
    requires 1 <= w && a < Pow2(w) && b < Pow2(w)
    ensures Step(poly, w, Xor(a, b)) == Xor(Step(poly, w, a), Step(poly, w, b))
  {
    var ta, la := TopBit(w, a);
    var tb, lb := TopBit(w, b);
    var pr := Lo(poly, w);
    var sa, sb, sc := (if ta == 1 then pr else 0), (if tb == 1 then pr else 0), (if Xor(ta, tb) == 1 then pr else 0);
    SplitXorTop(w, ta, la, tb, lb);
    XorBound(a, b, w);
    calc {
      Step(poly, w, Xor(a, b));
      { StepSplit(poly, w, Xor(a, b), Xor(ta, tb), Xor(la, lb)); }
      Xor(2 * Xor(la, lb), sc);
      { SplitXorReduce(pr, ta, la, tb, lb); }
      Xor(Xor(2 * la, sa), Xor(2 * lb, sb));
      { StepSplit(poly, w, a, ta, la); StepSplit(poly, w, b, tb, lb); }
      Xor(Step(poly, w, a), Step(poly, w, b));
    }
  }

  /** With an odd polynomial, Step never maps a nonzero w-bit value to zero. */
  lemma StepNonzero(poly: nat, w: nat, d: nat)
    requires poly % 2 == 1 && 1 <= w && 1 <= d < Pow2(w)
    ensures Step(poly, w, d) != 0
  {
    var Q := Pow2(w - 1);
    if d >= Q {
      XorHalves(2 * (d - Q), Lo(poly, w));
    }
  }

  /** With an odd polynomial, Step is one-to-one on w-bit values. */
  lemma StepInjective(poly: nat, w: nat, a: nat, b: nat)
    requires poly % 2 == 1 && 1 <= w && a < Pow2(w) && b < Pow2(w)
    requires Step(poly, w, a) == Step(poly, w, b)
    ensures a == b
  {
    StepLinear(poly, w, a, b);
    XorSelf(Step(poly, w, a));
    XorBound(a, b, w);
    XorZeroIff(a, b);
    if Xor(a, b) != 0 {
      StepNonzero(poly, w, Xor(a, b));
    }
  }

  lemma {:induction false} StepNAdd(poly: nat, w: nat, d: nat, i: nat, k: nat)
    ensures StepN(poly, w, StepN(poly, w, d, i), k) == StepN(poly, w, d, i + k)
  {
    if k > 0 {
      StepNAdd(poly, w, d, i, k - 1);
    }
  }

  lemma {:induction false} StepNBound(poly: nat, w: nat, d: nat, k: nat)
    requires 1 <= w && d < Pow2(w)
    ensures StepN(poly, w, d, k) < Pow2(w)
  {
    if k > 0 {
      StepNBound(poly, w, d, k - 1);
      StepBound(poly, w, StepN(poly, w, d, k - 1));
    }
  }

  lemma {:induction false} StepNZero(poly: nat, w: nat, k: nat)
    ensures StepN(poly, w, 0, k) == 0
  {
    if k > 0 {
      StepNZero(poly, w, k - 1);
      StepZero(poly, w);
    }
  }

  lemma {:induction false} StepNNonzero(poly: nat, w: nat, d: nat, k: nat)
    requires poly % 2 == 1 && 1 <= w && 1 <= d < Pow2(w)
    ensures StepN(poly, w, d, k) != 0
  {
    if k > 0 {
      StepNNonzero(poly, w, d, k - 1);
      StepNBound(poly, w, d, k - 1);
      StepNonzero(poly, w, StepN(poly, w, d, k - 1));
    }
  }

  /** Multiplication by α^k distributes over field addition. */
  lemma {:induction false} StepNLinear(poly: nat, w: nat, a: nat, b: nat, k: nat)
    requires 1 <= w && a < Pow2(w) && b < Pow2(w)
    ensures StepN(poly, w, Xor(a, b), k) == Xor(StepN(poly, w, a, k), StepN(poly, w, b, k))
  {
    if k > 0 {
      var a1, b1 := StepN(poly, w, a, k - 1), StepN(poly, w, b, k - 1);
      StepNBound(poly, w, a, k - 1);
      StepNBound(poly, w, b, k - 1);
      calc {
        StepN(poly, w, Xor(a, b), k);
        Step(poly, w, StepN(poly, w, Xor(a, b), k - 1));
        { StepNLinear(poly, w, a, b, k - 1); }
        Step(poly, w, Xor(a1, b1));
        { StepLinear(poly, w, a1, b1); }
        Xor(Step(poly, w, a1), Step(poly, w, b1));
      }
    }
  }

  lemma {:induction false} StepNInjective(poly: nat, w: nat, a: nat, b: nat, k: nat)
    requires poly % 2 == 1 && 1 <= w && a < Pow2(w) && b < Pow2(w)
    requires StepN(poly, w, a, k) == StepN(poly, w, b, k)
    ensures a == b
  {
    if k > 0 {
      StepNBound(poly, w, a, k - 1);
      StepNBound(poly, w, b, k - 1);
      StepInjective(poly, w, StepN(poly, w, a, k - 1), StepN(poly, w, b, k - 1));
      StepNInjective(poly, w, a, b, k - 1);
    }
  }

  /** Every power of α is a nonzero w-bit value. */
  lemma AlphaRange(poly: nat, w: nat, i: nat)
    requires poly % 2 == 1 && 1 <= w
    ensures 1 <= Alpha(poly, w, i) < Pow2(w)
  {
    StepNBound(poly, w, 1, i);
    StepNNonzero(poly, w, 1, i);
  }

  /** The values the walk takes in its first n steps. */
  ghost function Visited(poly: nat, w: nat, n: nat): set<nat>
  {
    if n == 0 then {} else Visited(poly, w, n - 1) + {Alpha(poly, w, n - 1)}
  }

  /** Every visited value has a step at which the walk met it. */
  lemma {:induction false} VisitedIndex(poly: nat, w: nat, n: nat, x: nat) returns (i: nat)
    requires x in Visited(poly, w, n)
    ensures i < n && Alpha(poly, w, i) == x
  {
    if x == Alpha(poly, w, n - 1) {
      i := n - 1;
    } else {
      i := VisitedIndex(poly, w, n - 1, x);
    }
  }

  /** Every step taken so far is among the visited values. */
  lemma {:induction false} VisitedHas(poly: nat, w: nat, n: nat, i: nat)
    requires i < n
    ensures Alpha(poly, w, i) in Visited(poly, w, n)
  {
    if i < n - 1 {
      VisitedHas(poly, w, n - 1, i);
    }
  }

  /** n steps visit at most n values. */
  lemma {:induction false} VisitedSize(poly: nat, w: nat, n: nat)
    ensures |Visited(poly, w, n)| <= n
  {
    if n > 0 {
      VisitedSize(poly, w, n - 1);
      AddOneSize(Visited(poly, w, n - 1), Alpha(poly, w, n - 1));
    }
  }

  lemma AddOneSize(A: set<nat>, v: nat)
    ensures |A + {v}| <= |A| + 1
    ensures v !in A ==> |A + {v}| == |A| + 1
    ensures v in A ==> A + {v} == A
  {
  }

  /** When n steps visit n values, no value repeats among them. */
  lemma {:induction false} DistinctSteps(poly: nat, w: nat, n: nat, i: nat, j: nat)
    requires |Visited(poly, w, n)| == n && i < j < n
    ensures Alpha(poly, w, i) != Alpha(poly, w, j)
  {
    var A := Visited(poly, w, n - 1);
    VisitedSize(poly, w, n - 1);
    AddOneSize(A, Alpha(poly, w, n - 1));
    if j < n - 1 {
      DistinctSteps(poly, w, n - 1, i, j);
    } else {
      VisitedHas(poly, w, n - 1, i);
    }
  }

  /** Under a primitive polynomial the first max powers of α are distinct. */
  lemma WalkDistinct(poly: nat, w: nat, i: nat, j: nat)
    requires Primitive(poly, w) && i < j < Pow2(w) - 1
    ensures Alpha(poly, w, i) != Alpha(poly, w, j)
  {
    DistinctSteps(poly, w, Pow2(w) - 1, i, j);
  }

  /** The integers lo, ..., hi - 1. */
  ghost function Span(lo: nat, hi: nat): (r: set<nat>)
    ensures forall x :: x in r <==> lo <= x < hi
    ensures |r| == if lo <= hi then hi - lo else 0
    decreases hi
  {
    if hi <= lo then {} else Span(lo, hi - 1) + {hi - 1}
  }

  lemma SubsetSameSize(A: set<nat>, B: set<nat>)
    requires A <= B && |A| == |B|
    ensures A == B
  {
    assert A * B == A;
    assert A + B == B;
    assert A - B == {};
    assert |B - A| == 0;
  }

  /** Under a primitive polynomial the walk meets every nonzero w-bit value
      within its first max steps (pigeonhole). */
  lemma AlphaOnto(poly: nat, w: nat, v: nat) returns (i: nat)
    requires Primitive(poly, w) && 1 <= v < Pow2(w)
    ensures i < Pow2(w) - 1 && Alpha(poly, w, i) == v
  {
    var M := Pow2(w) - 1;
    var S, V := Visited(poly, w, M), Span(1, Pow2(w));
    forall x | x in S
      ensures x in V
    {
      var k := VisitedIndex(poly, w, M, x);
      AlphaRange(poly, w, k);
    }
    SubsetSameSize(S, V);
    i := VisitedIndex(poly, w, M, v);
  }

  /** Under a primitive polynomial the walk does not return to 1 early. */
  lemma AlphaNotOne(poly: nat, w: nat, k: nat)
    requires Primitive(poly, w) && 0 < k < Pow2(w) - 1
    ensures Alpha(poly, w, k) != 1
  {
    WalkDistinct(poly, w, 0, k);
  }

  /** Two equal powers of α, i >= j, are i - j steps apart: α^(i-j) = 1. */
  lemma AlphaShiftBack(poly: nat, w: nat, i: nat, j: nat)
    requires poly % 2 == 1 && 1 <= w && j <= i && Alpha(poly, w, i) == Alpha(poly, w, j)
    ensures Alpha(poly, w, i - j) == 1
  {
    StepNAdd(poly, w, 1, i - j, j);
    AlphaRange(poly, w, i - j);
    StepNInjective(poly, w, Alpha(poly, w, i - j), 1, j);
  }

  /** After max steps the walk is back at 1. */
  lemma AlphaPeriod(poly: nat, w: nat)
    requires Primitive(poly, w)
    ensures Alpha(poly, w, Pow2(w) - 1) == 1
  {
    var M := Pow2(w) - 1;
    AlphaRange(poly, w, M);
    var j := AlphaOnto(poly, w, Alpha(poly, w, M));
    if j > 0 {
      AlphaNotOne(poly, w, M - j);
    }
    AlphaShiftBack(poly, w, M, j);
  }

  /** Exponents of α only matter modulo max. */
  lemma {:induction false} AlphaMod(poly: nat, w: nat, i: nat)
    requires Primitive(poly, w)
    ensures Alpha(poly, w, i) == Alpha(poly, w, i % (Pow2(w) - 1))
  {
    var M := Pow2(w) - 1;
    if i >= M {
      AlphaMod(poly, w, i - M);
      AlphaPeriod(poly, w);
      StepNAdd(poly, w, 1, M, i - M);
      ModSub(i, M);
    } else {
      DivModUnique(i, M, 0, i);
    }
  }

  /** The log the walk records for α^i, i < max, is i. */
  lemma LogOfAlpha(poly: nat, w: nat, i: nat)
    requires Primitive(poly, w) && i < Pow2(w) - 1
    ensures LastLog(poly, w, Alpha(poly, w, i), Pow2(w) - 1) == i
  {
    var M := Pow2(w) - 1;
    var r := LastLog(poly, w, Alpha(poly, w, i), M);
    LastLogSpec(poly, w, Alpha(poly, w, i), M);
    assert 0 <= i < M && Alpha(poly, w, i) == Alpha(poly, w, i);
    if r > i {
      WalkDistinct(poly, w, i, r);
      assert false;
    }
  }

  /** The log the walk records for a nonzero v names a power of α equal to v. */
  lemma AlphaOfLog(poly: nat, w: nat, v: nat)
    requires Primitive(poly, w) && 1 <= v < Pow2(w)
    ensures Alpha(poly, w, LastLog(poly, w, v, Pow2(w) - 1)) == v
  {
    var i := AlphaOnto(poly, w, v);
    LastLogSpec(poly, w, v, Pow2(w) - 1);
    assert 0 <= i < Pow2(w) - 1 && Alpha(poly, w, i) == v;
  }

  /** Zero never occurs in the walk, so its log stays at the initial 0. */
  lemma LogOfZero(poly: nat, w: nat)
    requires poly % 2 == 1 && 1 <= w
    ensures LastLog(poly, w, 0, Pow2(w) - 1) == 0
  {
    LastLogSpec(poly, w, 0, Pow2(w) - 1);
    forall i | 0 <= i < Pow2(w) - 1
      ensures Alpha(poly, w, i) != 0
    {
      AlphaRange(poly, w, i);
    }
  }

  lemma {:induction false} ShiftMulZero(poly: nat, w: nat, b: nat)
    ensures ShiftMul(poly, w, 0, b) == 0
    decreases b
  {
    if b > 0 {
      StepZero(poly, w);
      ShiftMulZero(poly, w, b / 2);
      XorZero(0);
    }
  }

  /** Shift-and-reduce multiplication by α^j is j steps of the walk. */
  lemma {:induction false} ShiftMulAlpha(poly: nat, w: nat, j: nat, b: nat)
    requires 1 <= w && b < Pow2(w)
    ensures ShiftMul(poly, w, Alpha(poly, w, j), b) == StepN(poly, w, b, j)
    decreases b
  {
    if b == 0 {
      StepNZero(poly, w, j);
    } else {
      var h, bit := b / 2, b % 2;
      ShiftMulAlpha(poly, w, j + 1, h);
      StepNAdd(poly, w, h, 1, j);
      assert Xor(bit, 2 * h) == b by {
        XorUnfold(bit, 2 * h);
        XorZero(h);
      }
      StepNLinear(poly, w, bit, 2 * h, j);
      StepNZero(poly, w, j);
    }
  }

  /** Shift-and-reduce multiplication adds exponents modulo max. */
  lemma ShiftMulExp(poly: nat, w: nat, i: nat, j: nat)
    requires Primitive(poly, w)
    ensures ShiftMul(poly, w, Alpha(poly, w, i), Alpha(poly, w, j))
         == Alpha(poly, w, (i + j) % (Pow2(w) - 1))
  {
    AlphaRange(poly, w, j);
    ShiftMulAlpha(poly, w, i, Alpha(poly, w, j));
    StepNAdd(poly, w, 1, j, i);
    AlphaMod(poly, w, j + i);
  }
}
