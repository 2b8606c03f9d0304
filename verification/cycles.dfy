/** Cycle alignment (`util/src/cycle_helpers.rs`): the extended Euclidean
    algorithm, the combination of two phased rotations into one (a form of
    the Chinese remainder theorem), and the first time at which a series of
    cycles all line up.

    A rotation with period `p` and phase `ph` is at its reference point at the
    times `t` for which `p` divides `t + ph`. The source is generic over Rust
    signed integers; `/` and `%` truncate toward zero as in Rust, and overflow
    is not modelled. */
module Cycles {
  import opened Wrappers
  import opened RustInt

  function Times(d: int, k: int): int { d * k }

  /** `d` divides `x`. */
  ghost predicate Divides(d: int, x: int) {
    exists k :: x == Times(d, k)
  }

  /** The rotation with period `period` and phase `phase` is at its reference
      point at time `t`. */
  ghost predicate AtReference(t: int, period: int, phase: int) {
    Divides(period, t + phase)
  }

  /** A non-zero multiple of `d` is at least as large as `d`. */
  lemma MultipleAtLeast(d: int, j: int)
    requires j != 0
    ensures Abs(d * j) >= Abs(d)
  {
    var ad, aj := Abs(d), Abs(j);
    assert Abs(d * j) == ad * aj;
    assert ad * aj == ad + ad * (aj - 1);
    assert ad * (aj - 1) >= 0;
  }

  /** Dividing an exact multiple: the quotient is the factor and the
      remainder is 0. */
  lemma ExactDivision(x: int, d: int, k: int)
    requires d != 0 && x == d * k
    ensures TDiv(x, d) == k && TMod(x, d) == 0
  {
    var q := TDiv(x, d);
    assert TMod(x, d) == d * (k - q);
    if k - q != 0 {
      MultipleAtLeast(d, k - q);
    }
  }

  /** Truncating `%` finds exactly the multiples. */
  lemma RemainderZeroIffDivides(x: int, d: int)
    requires d != 0
    ensures TMod(x, d) == 0 <==> Divides(d, x)
  {
    if TMod(x, d) == 0 {
      assert x == Times(d, TDiv(x, d));
    }
    if Divides(d, x) {
      var k :| x == Times(d, k);
      ExactDivision(x, d, k);
    }
  }

  // ---------------------------------------------------------------------------
  // Extended Euclid

  /** The loop of `extended_gcd`, one iteration per call, with `(oldR, r)`,
      `(oldS, s)` and `(oldT, t)` the pairs the source keeps. */
  function EuclidLoop(oldR: int, r: int, oldS: int, s: int, oldT: int, t: int): (int, int, int)
    decreases Abs(r)
  {
    if r == 0 then (oldR, oldS, oldT)
    else
      var quotient := TDiv(oldR, r);
      EuclidLoop(r, TMod(oldR, r), s, oldS - quotient * s, t, oldT - quotient * t)
  }

  /** Each iteration keeps both remainders equal to their coefficient
      combinations of `a` and `b`. */
  lemma {:induction false} EuclidLoopBezout(a: int, b: int, oldR: int, r: int, oldS: int, s: int, oldT: int, t: int)
    requires oldS * a + oldT * b == oldR && s * a + t * b == r
    ensures EuclidLoop(oldR, r, oldS, s, oldT, t).1 * a + EuclidLoop(oldR, r, oldS, s, oldT, t).2 * b
      == EuclidLoop(oldR, r, oldS, s, oldT, t).0
    decreases Abs(r)
  {
    if r != 0 {
      var q, m := TDiv(oldR, r), TMod(oldR, r);
      assert Abs(m) < Abs(r);
      assert EuclidLoop(oldR, r, oldS, s, oldT, t) == EuclidLoop(r, m, s, oldS - q * s, t, oldT - q * t);
      BezoutStep(a, b, oldR, r, oldS, s, oldT, t, q, m);
      EuclidLoopBezout(a, b, r, m, s, oldS - q * s, t, oldT - q * t);
    }
  }

  /** The new remainder `oldR - q·r` is the same combination of the
      coefficients. */
  lemma BezoutStep(a: int, b: int, oldR: int, r: int, oldS: int, s: int, oldT: int, t: int, q: int, m: int)
    requires oldS * a + oldT * b == oldR && s * a + t * b == r && m == oldR - q * r
    ensures (oldS - q * s) * a + (oldT - q * t) * b == m
  {
    calc {
      (oldS - q * s) * a + (oldT - q * t) * b;
      oldS * a + oldT * b - q * (s * a + t * b);
      oldR - q * r;
    }
  }

  /** A common divisor of `x` and `y` divides `p·x + q·y`. */
  lemma DividesCombination(d: int, x: int, y: int, p: int, q: int)
    requires Divides(d, x) && Divides(d, y)
    ensures Divides(d, p * x + q * y)
  {
    var i :| x == Times(d, i);
    var j :| y == Times(d, j);
    assert p * x + q * y == Times(d, p * i + q * j);
  }

  /** The result divides both remainders the loop starts from. */
  lemma {:induction false} EuclidLoopDivides(oldR: int, r: int, oldS: int, s: int, oldT: int, t: int)
    ensures var g := EuclidLoop(oldR, r, oldS, s, oldT, t).0; Divides(g, oldR) && Divides(g, r)
    decreases Abs(r)
  {
    var g := EuclidLoop(oldR, r, oldS, s, oldT, t).0;
    if r == 0 {
      assert oldR == Times(g, 1) && r == Times(g, 0);
    } else {
      var q := TDiv(oldR, r);
      EuclidLoopDivides(r, TMod(oldR, r), s, oldS - q * s, t, oldT - q * t);
      DividesCombination(g, r, TMod(oldR, r), q, 1);
    }
  }

  /** From non-negative remainders that are not both 0, the loop ends on a
      positive one. */
  lemma {:induction false} EuclidLoopPositive(oldR: int, r: int, oldS: int, s: int, oldT: int, t: int)
    requires oldR >= 0 && r >= 0 && (oldR != 0 || r != 0)
    ensures EuclidLoop(oldR, r, oldS, s, oldT, t).0 > 0
    decreases Abs(r)
  {
    if r != 0 {
      var q, m := TDiv(oldR, r), TMod(oldR, r);
      assert 0 <= m < r;
      assert EuclidLoop(oldR, r, oldS, s, oldT, t) == EuclidLoop(r, m, s, oldS - q * s, t, oldT - q * t);
      EuclidLoopPositive(r, m, s, oldS - q * s, t, oldT - q * t);
    }
  }

  /** `extended_gcd(a, b)`: a divisor `g` of both `a` and `b` with
      coefficients `s·a + t·b == g`, so every common divisor of `a` and `b`
      divides `g` as well; `g` is positive when `a` and `b` are non-negative
      and not both 0. */
  function ExtendedGcd(a: int, b: int): (r: (int, int, int))
    ensures r.1 * a + r.2 * b == r.0
    ensures Divides(r.0, a) && Divides(r.0, b)
    ensures a >= 0 && b >= 0 && (a != 0 || b != 0) ==> r.0 > 0
  {
    EuclidFacts(a, b);
    EuclidLoop(a, b, 1, 0, 0, 1)
  }

  lemma EuclidFacts(a: int, b: int)
    ensures var (g, s, t) := EuclidLoop(a, b, 1, 0, 0, 1);
      && s * a + t * b == g
      && Divides(g, a) && Divides(g, b)
      && (a >= 0 && b >= 0 && (a != 0 || b != 0) ==> g > 0)
  {
    EuclidLoopBezout(a, b, a, b, 1, 0, 0, 1);
    EuclidLoopDivides(a, b, 1, 0, 0, 1);
    if a >= 0 && b >= 0 && (a != 0 || b != 0) {
      EuclidLoopPositive(a, b, 1, 0, 0, 1);
    }
  }

  /** Every common divisor of `a` and `b` divides the gcd. */
  lemma GcdIsGreatest(a: int, b: int, d: int)
    requires Divides(d, a) && Divides(d, b)
    ensures Divides(d, ExtendedGcd(a, b).0)
  {
    var (g, s, t) := ExtendedGcd(a, b);
    DividesCombination(d, a, b, s, t);
  }

  // ---------------------------------------------------------------------------
  // Combining two rotations

  datatype CycleError =
    | NeverSynchronize   // the `Err` of `combine_phased_rotations`
    | DivideByZero       // a `/` or `%` by zero, which panics
    | Diverges           // a loop that never ends

  /** `combine_phased_rotations`. */
  function Combine(aPeriod: int, aPhase: int, bPeriod: int, bPhase: int): (r: Result<(int, int), CycleError>)
    ensures aPeriod != 0 && bPeriod != 0 ==> r != Err(DivideByZero)
    ensures aPeriod > 0 && bPeriod > 0 && r.Ok? ==> r.value.0 > 0
    ensures r.Ok? ==> Abs(r.value.1) < Abs(r.value.0)
  {
    var (g, s, _) := ExtendedGcd(aPeriod, bPeriod);
    if g == 0 then Err(DivideByZero)
    else
      var difference := aPhase - bPhase;
      var multiple := TDiv(difference, g);
      if TMod(difference, g) != 0 then Err(NeverSynchronize)
      else
        var period := TDiv(aPeriod, g) * bPeriod;
        NonZeroPeriod(aPeriod, bPeriod, g);
        if period == 0 then Err(DivideByZero)
        else Ok((period, TMod(aPhase - s * multiple * aPeriod, period)))
  }

  lemma NonZeroPeriod(aPeriod: int, bPeriod: int, g: int)
    requires g == ExtendedGcd(aPeriod, bPeriod).0 && g != 0
    ensures aPeriod != 0 && bPeriod != 0 ==> TDiv(aPeriod, g) * bPeriod != 0
    ensures aPeriod > 0 && bPeriod > 0 ==> TDiv(aPeriod, g) * bPeriod > 0
  {
    var k :| aPeriod == Times(g, k);
    ExactDivision(aPeriod, g, k);
    if aPeriod > 0 && bPeriod > 0 {
      assert g > 0;
      assert k > 0;
    }
  }

  /** When the rotations never line up, no time has both at their reference
      points. */
  lemma CombineNever(aPeriod: int, aPhase: int, bPeriod: int, bPhase: int, t: int)
    requires Combine(aPeriod, aPhase, bPeriod, bPhase) == Err(NeverSynchronize)
    ensures !(AtReference(t, aPeriod, aPhase) && AtReference(t, bPeriod, bPhase))
  {
    var (g, s, _) := ExtendedGcd(aPeriod, bPeriod);
    if AtReference(t, aPeriod, aPhase) && AtReference(t, bPeriod, bPhase) {
      var k1 :| t + aPhase == Times(aPeriod, k1);
      var k2 :| t + bPhase == Times(bPeriod, k2);
      DividesCombination(g, aPeriod, bPeriod, k1, -k2);
      assert aPhase - bPhase == aPeriod * k1 + (-k2) * bPeriod;
      RemainderZeroIffDivides(aPhase - bPhase, g);
    }
  }

  /** The quantities `Combine` works with, named: the gcd `g` with its
      coefficients, the phase difference `g·m`, both periods as multiples of
      `g`, and the combined phase as `aPhase - s·m·aPeriod` less whole
      combined periods. */
  lemma CombineParts(aPeriod: int, aPhase: int, bPeriod: int, bPhase: int)
    returns (g: int, s: int, u: int, m: int, a': int, b': int, j: int)
    requires Combine(aPeriod, aPhase, bPeriod, bPhase).Ok?
    ensures g != 0 && s * aPeriod + u * bPeriod == g
    ensures aPhase - bPhase == g * m && aPeriod == g * a' && bPeriod == g * b'
    ensures Combine(aPeriod, aPhase, bPeriod, bPhase).value
      == (a' * bPeriod, aPhase - s * m * aPeriod - (a' * bPeriod) * j)
  {
    var r := ExtendedGcd(aPeriod, bPeriod);
    g, s, u := r.0, r.1, r.2;
    m := TDiv(aPhase - bPhase, g);
    a' :| aPeriod == Times(g, a');
    b' :| bPeriod == Times(g, b');
    ExactDivision(aPeriod, g, a');
    var x := aPhase - s * m * aPeriod;
    j := TDiv(x, a' * bPeriod);
  }

  /** Arithmetic of the first direction: a time at the combined reference
      point is at both reference points. */
  lemma CombineForward(aPeriod: int, aPhase: int, bPeriod: int, bPhase: int,
                       g: int, s: int, u: int, m: int, a': int, b': int, j: int, k: int, t: int)
    requires s * aPeriod + u * bPeriod == g
    requires aPhase - bPhase == g * m && aPeriod == g * a' && bPeriod == g * b'
    requires t + (aPhase - s * m * aPeriod - (a' * bPeriod) * j) == (a' * bPeriod) * k
    ensures t + aPhase == aPeriod * (b' * (k + j) + s * m)
    ensures t + bPhase == bPeriod * (a' * (k + j) - m * u)
  {
    var p := a' * bPeriod;
    assert p == aPeriod * b' by {
      assert a' * bPeriod == a' * (g * b') == (g * a') * b';
    }
    assert t + aPhase == p * (k + j) + s * m * aPeriod;
    assert p * (k + j) == aPeriod * (b' * (k + j));
    assert s * m * aPeriod == aPeriod * (s * m);
    calc {
      t + bPhase;
      p * (k + j) + s * m * aPeriod - g * m;
      p * (k + j) + m * (s * aPeriod - g);
      { assert s * aPeriod - g == -u * bPeriod; }
      p * (k + j) - m * (u * bPeriod);
      bPeriod * (a' * (k + j)) - bPeriod * (m * u);
    }
  }

  /** Arithmetic of the second direction: a time at both reference points is
      at the combined one. */
  lemma CombineBackward(aPeriod: int, aPhase: int, bPeriod: int, bPhase: int,
                        g: int, s: int, u: int, m: int, a': int, b': int, j: int, k1: int, k2: int, t: int)
    requires g != 0 && s * aPeriod + u * bPeriod == g
    requires aPhase - bPhase == g * m && aPeriod == g * a' && bPeriod == g * b'
    requires t + aPhase == aPeriod * k1 && t + bPhase == bPeriod * k2
    ensures t + (aPhase - s * m * aPeriod - (a' * bPeriod) * j)
      == (a' * bPeriod) * (s * (k2 + m * u) + u * (k1 - s * m) - j)
  {
    var c1 := k1 - s * m;
    var c2 := k2 + m * u;
    var x := aPhase - s * m * aPeriod;
    assert t + x == aPeriod * c1;
    calc {
      t + x;
      t + bPhase + g * m - s * m * aPeriod;
      bPeriod * k2 + m * (g - s * aPeriod);
      { assert g - s * aPeriod == u * bPeriod; }
      bPeriod * k2 + m * (u * bPeriod);
      bPeriod * c2;
    }
    CoprimeFactor(g, a', b', s, u, c1, c2);
    assert t + x == (a' * bPeriod) * (s * c2 + u * c1);
  }

  /** The combined rotation is at its reference point exactly when both
      rotations are. */
  lemma CombineMeaning(aPeriod: int, aPhase: int, bPeriod: int, bPhase: int, t: int)
    requires Combine(aPeriod, aPhase, bPeriod, bPhase).Ok?
    ensures var (period, phase) := Combine(aPeriod, aPhase, bPeriod, bPhase).value;
      AtReference(t, period, phase) <==> AtReference(t, aPeriod, aPhase) && AtReference(t, bPeriod, bPhase)
  {
    var g, s, u, m, a', b', j := CombineParts(aPeriod, aPhase, bPeriod, bPhase);
    var (period, phase) := Combine(aPeriod, aPhase, bPeriod, bPhase).value;
    if AtReference(t, period, phase) {
      var k :| t + phase == Times(period, k);
      CombineForward(aPeriod, aPhase, bPeriod, bPhase, g, s, u, m, a', b', j, k, t);
      assert t + aPhase == Times(aPeriod, b' * (k + j) + s * m);
      assert t + bPhase == Times(bPeriod, a' * (k + j) - m * u);
    }
    if AtReference(t, aPeriod, aPhase) && AtReference(t, bPeriod, bPhase) {
      var k1 :| t + aPhase == Times(aPeriod, k1);
      var k2 :| t + bPhase == Times(bPeriod, k2);
      CombineBackward(aPeriod, aPhase, bPeriod, bPhase, g, s, u, m, a', b', j, k1, k2, t);
      assert t + phase == Times(period, s * (k2 + m * u) + u * (k1 - s * m) - j);
    }
  }

  /** A non-zero factor cancels. */
  lemma CancelFactor(g: int, x: int, y: int)
    requires g != 0 && g * x == g * y
    ensures x == y
  {
    assert g * (x - y) == 0;
    if x != y {
      MultipleAtLeast(g, x - y);
    }
  }

  /** With `s·a' + u·b' == 1`, `a'·c1 == b'·c2` forces `c1 == b'·(s·c2 + u·c1)`. */
  lemma CoprimeFactor(g: int, a': int, b': int, s: int, u: int, c1: int, c2: int)
    requires g != 0
    requires s * (g * a') + u * (g * b') == g
    requires (g * a') * c1 == (g * b') * c2
    ensures (g * a') * c1 == (a' * (g * b')) * (s * c2 + u * c1)
  {
    assert g * (s * a' + u * b') == g * 1;
    CancelFactor(g, s * a' + u * b', 1);
    assert g * (a' * c1) == g * (b' * c2);
    CancelFactor(g, a' * c1, b' * c2);
    var w := s * c2 + u * c1;
    assert c1 == b' * w by {
      calc {
        c1;
        c1 * (s * a' + u * b');
        s * (a' * c1) + u * b' * c1;
        s * (b' * c2) + u * b' * c1;
        b' * w;
      }
    }
    calc {
      (g * a') * c1;
      (g * a') * (b' * w);
      (a' * (g * b')) * w;
    }
  }

  // ---------------------------------------------------------------------------
  // A series of cycles

  /** Every cycle `(offset, period)` of `pairs` is at its reference point at
      time `t`, that is `t ≡ offset (mod period)`. */
  ghost predicate Aligned(t: int, pairs: seq<(int, int)>) {
    forall i :: 0 <= i < |pairs| ==> AtReference(t, pairs[i].1, -pairs[i].0)
  }

  predicate AllPositive(pairs: seq<(int, int)>) {
    forall i :: 0 <= i < |pairs| ==> pairs[i].1 > 0
  }

  /** The fold both versions of `find_first_common_cycle` start with: from
      the rotation `(1, 0)`, combine in each cycle with phase `-offset`; a
      failed combination panics. */
  function FoldCycles(pairs: seq<(int, int)>): (r: Result<(int, int), CycleError>)
    ensures AllPositive(pairs) ==> r.Ok? || r == Err(NeverSynchronize)
    ensures AllPositive(pairs) && r.Ok? ==> r.value.0 > 0
    ensures r.Ok? ==> Abs(r.value.1) < Abs(r.value.0)
    decreases |pairs|
  {
    if |pairs| == 0 then Ok((1, 0))
    else
      var last := pairs[|pairs| - 1];
      assert AllPositive(pairs) ==> AllPositive(pairs[..|pairs| - 1]);
      var (period, phase) :- FoldCycles(pairs[..|pairs| - 1]);
      Combine(period, phase, last.1, -last.0)
  }

  /** The folded rotation is at its reference point exactly when every cycle
      is; a fold that fails to synchronise has no aligned time at all. */
  lemma {:induction false} FoldCyclesMeaning(pairs: seq<(int, int)>, t: int)
    ensures FoldCycles(pairs).Ok? ==>
      (AtReference(t, FoldCycles(pairs).value.0, FoldCycles(pairs).value.1) <==> Aligned(t, pairs))
    ensures FoldCycles(pairs) == Err(NeverSynchronize) ==> !Aligned(t, pairs)
    decreases |pairs|
  {
    if |pairs| == 0 {
      assert t + 0 == Times(1, t);
    } else {
      var init := pairs[..|pairs| - 1];
      var last := pairs[|pairs| - 1];
      FoldCyclesMeaning(init, t);
      assert Aligned(t, pairs) <==> Aligned(t, init) && AtReference(t, last.1, -last.0) by {
        assert forall i :: 0 <= i < |init| ==> init[i] == pairs[i];
      }
      if FoldCycles(init).Ok? {
        var (period, phase) := FoldCycles(init).value;
        if Combine(period, phase, last.1, -last.0).Ok? {
          CombineMeaning(period, phase, last.1, -last.0, t);
        } else if Combine(period, phase, last.1, -last.0) == Err(NeverSynchronize) {
          CombineNever(period, phase, last.1, -last.0, t);
        }
      }
    }
  }

  /** The free function `find_first_common_cycle` as written: `-phase % period`
      with Rust's truncating `%`. */
  function FirstCommonCycleAsWritten(pairs: seq<(int, int)>): (r: Result<int, CycleError>)
    ensures AllPositive(pairs) ==> r.Ok? || r == Err(NeverSynchronize)
  {
    var (period, phase) :- FoldCycles(pairs);
    Ok(TMod(-phase, period))
  }

  /** The free function's answer is a time at which every cycle is aligned,
      but it can be negative: for cycles with offsets 0 and 1 and periods 5
      and 3 it gives -5, where the first aligned time is 10. */
  lemma FirstCommonCycleAsWrittenNegative(pairs: seq<(int, int)>)
    requires pairs == [(0, 5), (1, 3)]
    ensures FirstCommonCycleAsWritten(pairs) == Ok(-5)
    ensures FirstCommonCycle(pairs) == Ok(10)
  {
    SecondFold(pairs);
    LastCorrection();
  }

  // The cycles (0, 5) and (1, 3) worked through: the fold gives period 15
  // and phase 5, the free function `-5 % 15 == -5`, the trait version 10.

  lemma SecondFold(pairs: seq<(int, int)>)
    requires pairs == [(0, 5), (1, 3)]
    ensures FoldCycles(pairs) == Ok((15, 5))
  {
    var last := pairs[|pairs| - 1];
    SecondCombine(5, 0, last.1, -last.0);
    var first := pairs[..1];
    FirstFold(first, first[0].1);
    assert pairs[..|pairs| - 1] == first;
    FoldCyclesStep(pairs, 5, 0);
  }

  lemma LastCorrection()
    ensures TMod(-5, 15) == -5
    ensures RaiseToNonNegative(-5, 15) == Some(10)
  {
    assert RaiseToNonNegative(10, 15) == Some(10);
  }

  /** Truncating division of a non-negative number, given quotient and
      remainder. */
  lemma DivisionAt(a: int, b: int, q: int, m: int)
    requires a >= 0 && b > 0 && a == q * b + m && 0 <= m < b
    ensures TDiv(a, b) == q && TMod(a, b) == m
  {
    NonNegativeDivMod(a, b);
    var k := a / b;
    assert (k - q) * b == m - a % b;
    if k != q {
      assert Abs((k - q) * b) >= b by {
        MultipleAtLeast(b, k - q);
      }
    }
  }

  /** One round of the extended Euclidean loop on non-negative numbers. */
  lemma EuclidStepAt(oldR: int, r: int, oldS: int, s: int, oldT: int, t: int, q: int, m: int, nextS: int, nextT: int)
    requires oldR >= 0 && r > 0 && oldR == q * r + m && 0 <= m < r
    requires nextS == oldS - q * s && nextT == oldT - q * t
    ensures EuclidLoop(oldR, r, oldS, s, oldT, t) == EuclidLoop(r, m, s, nextS, t, nextT)
  {
    DivisionAt(oldR, r, q, m);
  }

  /** `Combine` when the gcd is known and both remainders are 0. */
  lemma CombineUnfold(aPeriod: int, aPhase: int, bPeriod: int, bPhase: int, g: int, s: int, period: int, shifted: int, phase: int)
    requires EuclidLoop(aPeriod, bPeriod, 1, 0, 0, 1).0 == g && g != 0
    requires EuclidLoop(aPeriod, bPeriod, 1, 0, 0, 1).1 == s
    requires TMod(aPhase - bPhase, g) == 0
    requires period == TDiv(aPeriod, g) * bPeriod && period != 0
    requires shifted == aPhase - s * TDiv(aPhase - bPhase, g) * aPeriod
    requires phase == TMod(shifted, period)
    ensures Combine(aPeriod, aPhase, bPeriod, bPhase) == Ok((period, phase))
  {
    assert ExtendedGcd(aPeriod, bPeriod).0 == g;
    assert ExtendedGcd(aPeriod, bPeriod).1 == s;
  }

  /** Dividing by one leaves the number and no remainder. */
  lemma DivByOne(x: int)
    ensures TDiv(x, 1) == x && TMod(x, 1) == 0
  {
  }

  /** Folding starts from the cycle of period 1 and phase 0; combining it
      with a cycle of period greater than 1 gives that cycle back, its phase
      reduced by Rust's `%`. */
  lemma CombineFromStart(aPeriod: int, aPhase: int, bPeriod: int, bPhase: int, phase: int)
    requires aPeriod == 1 && aPhase == 0 && bPeriod > 1 && phase == TMod(bPhase, bPeriod)
    ensures Combine(aPeriod, aPhase, bPeriod, bPhase) == Ok((bPeriod, phase))
  {
    EuclidStepAt(aPeriod, bPeriod, 1, 0, 0, 1, 0, aPeriod, 1, 0);
    EuclidStepAt(bPeriod, aPeriod, 0, 1, 1, 0, bPeriod, 0, -bPeriod, 1);
    DivByOne(aPeriod);
    DivByOne(aPhase - bPhase);
    CombineUnfold(aPeriod, aPhase, bPeriod, bPhase, 1, 1, bPeriod, bPhase, phase);
  }

  lemma FirstFold(pairs: seq<(int, int)>, period: int)
    requires |pairs| == 1 && pairs[0].0 == 0 && pairs[0].1 == period && period == 5
    ensures FoldCycles(pairs) == Ok((period, 0))
  {
    FirstCombine(pairs[0].1, -pairs[0].0);
    FoldOne(pairs, pairs[0].1, -pairs[0].0);
  }

  /** Folding a single cycle gives its combination with the starting one. */
  lemma FoldOne(pairs: seq<(int, int)>, period: int, phase: int)
    requires |pairs| == 1 && Combine(1, 0, pairs[0].1, -pairs[0].0) == Ok((period, phase))
    ensures FoldCycles(pairs) == Ok((period, phase))
  {
    FoldSingle(pairs);
  }

  lemma FirstCombine(bPeriod: int, bPhase: int)
    requires bPeriod == 5 && bPhase == 0
    ensures Combine(1, 0, bPeriod, bPhase) == Ok((bPeriod, bPhase))
  {
    DivisionAt(bPhase, bPeriod, 0, 0);
    CombineFromStart(1, 0, bPeriod, bPhase, 0);
  }

  /** A single cycle is combined with the starting cycle of period 1. */
  lemma FoldSingle(pairs: seq<(int, int)>)
    requires |pairs| == 1
    ensures FoldCycles(pairs) == Combine(1, 0, pairs[0].1, -pairs[0].0)
  {
    assert FoldCycles(pairs[..0]) == Ok((1, 0));
    FoldCyclesStep(pairs, 1, 0);
  }

  /** The fold adds the last cycle to the combination of the ones before it. */
  lemma FoldCyclesStep(pairs: seq<(int, int)>, period: int, phase: int)
    requires |pairs| > 0 && FoldCycles(pairs[..|pairs| - 1]) == Ok((period, phase))
    ensures FoldCycles(pairs) == Combine(period, phase, pairs[|pairs| - 1].1, -pairs[|pairs| - 1].0)
  {
  }

  lemma SecondEuclid(a: int, b: int, c: int, d: int)
    requires a == 5 && b == 3 && c == 2 && d == 1
    ensures EuclidLoop(a, b, 1, 0, 0, 1) == (1, -1, 2)
  {
    EuclidStepAt(a, b, 1, 0, 0, 1, d, c, 1, -1);
    EuclidStepAt(b, c, 0, 1, 1, -1, d, d, -1, 2);
    EuclidStepAt(c, d, 1, -1, -1, 2, c, 0, 3, -5);
  }

  lemma SecondCombine(aPeriod: int, aPhase: int, bPeriod: int, bPhase: int)
    requires aPeriod == 5 && aPhase == 0 && bPeriod == 3 && bPhase == -1
    ensures Combine(aPeriod, aPhase, bPeriod, bPhase) == Ok((15, 5))
  {
    SecondEuclid(aPeriod, bPeriod, 2, 1);
    DivisionAt(aPeriod, 1, aPeriod, 0);
    DivisionAt(aPhase - bPhase, 1, 1, 0);
    DivisionAt(aPeriod, aPeriod * bPeriod, 0, aPeriod);
    CombineUnfold(aPeriod, aPhase, bPeriod, bPhase, 1, -1, aPeriod * bPeriod, aPeriod, aPeriod);
  }

  /** The trait version's correction loop: add the period until the value is
      no longer negative. With a period that is not positive the loop never
      ends. */
  function RaiseToNonNegative(v: int, period: int): (r: Option<int>)
    ensures period > 0 ==> r.Some? && r.value >= 0 && Divides(period, r.value - v)
    ensures period > 0 && v < 0 ==> r.Some? && r.value < period
    ensures v >= 0 ==> r == Some(v)
    decreases if v < 0 then -v else 0
  {
    if v >= 0 then
      assert v - v == Times(period, 0);
      Some(v)
    else if period <= 0 then None
    else
      var r := RaiseToNonNegative(v + period, period);
      assert period > 0 ==> r.Some? && Divides(period, r.value - v) by {
        var k :| r.value - (v + period) == Times(period, k);
        assert r.value - v == Times(period, k + 1);
      }
      r
  }

  /** `find_first_common_cycle` of the `FirstCommonCycle` trait: the period
      itself when the phase is 0, and otherwise `-phase` raised by whole
      periods until it is not negative. For cycles with positive periods the
      answer is the first positive time at which every cycle is aligned. */
  function FirstCommonCycle(pairs: seq<(int, int)>): (r: Result<int, CycleError>)
    ensures AllPositive(pairs) ==> r.Ok? || r == Err(NeverSynchronize)
  {
    var (period, phase) :- FoldCycles(pairs);
    if phase == 0 then Ok(period)
    else
      match RaiseToNonNegative(-phase, period)
      case None => Err(Diverges)
      case Some(v) => Ok(v)
  }

  /** For cycles with positive periods, `FirstCommonCycle` is aligned, is
      positive, and no earlier positive time is aligned; when it reports that
      the cycles never synchronise, no time is aligned. */
  lemma FirstCommonCycleIsFirst(pairs: seq<(int, int)>, u: int)
    requires AllPositive(pairs)
    ensures FirstCommonCycle(pairs).Ok? ==>
      && FirstCommonCycle(pairs).value > 0
      && Aligned(FirstCommonCycle(pairs).value, pairs)
      && (0 < u < FirstCommonCycle(pairs).value ==> !Aligned(u, pairs))
    ensures FirstCommonCycle(pairs) == Err(NeverSynchronize) ==> !Aligned(u, pairs)
  {
    FoldCyclesMeaning(pairs, u);
    if FirstCommonCycle(pairs).Ok? {
      var (period, phase) := FoldCycles(pairs).value;
      var v := FirstCommonCycle(pairs).value;
      FoldCyclesMeaning(pairs, v);
      if phase == 0 {
        assert v + phase == Times(period, 1);
        if 0 < u < v && Aligned(u, pairs) {
          var k :| u + 0 == Times(period, k);
          MultipleAtLeast(period, k);
        }
      } else {
        var k :| v - (-phase) == Times(period, k);
        assert v + phase == Times(period, k);
        assert 0 < v by {
          if v == 0 {
            MultipleAtLeast(period, k);
          }
        }
        if 0 < u < v && Aligned(u, pairs) {
          var k2 :| u + phase == Times(period, k2);
          assert v - u == Times(period, k - k2);
          MultipleAtLeast(period, k - k2);
        }
      }
    }
  }

  /** The free function agrees with the trait version modulo the period:
      both answers are aligned times. */
  lemma FirstCommonCycleAsWrittenAligned(pairs: seq<(int, int)>)
    requires FirstCommonCycleAsWritten(pairs).Ok?
    ensures Aligned(FirstCommonCycleAsWritten(pairs).value, pairs)
  {
    var (period, phase) := FoldCycles(pairs).value;
    var v := TMod(-phase, period);
    assert v + phase == Times(period, -TDiv(-phase, period));
    FoldCyclesMeaning(pairs, v);
  }
}
