/** Extrapolating a sequence of readings (`y2023/src/d09/mod.rs`): take the
    differences of neighbours until a row is all zero, then build the next
    value back up; part two does the same on the reversed sequence to find
    the value before the first. */
module SequencePrediction {
  import opened Wrappers

  predicate AllZero(s: seq<int>) {
    forall i :: 0 <= i < |s| ==> s[i] == 0
  }

  /** The derivative: each neighbour minus the one before it. */
  function Differences(s: seq<int>): seq<int> {
    if |s| == 0 then [] else seq(|s| - 1, i requires 0 <= i < |s| - 1 => s[i + 1] - s[i])
  }

  /** The fold the source uses to build the derivative: it carries the
      previous element and pushes a difference once there is one. */
  method Derivative(s: seq<int>) returns (d: seq<int>)
    ensures d == Differences(s)
  {
    d := [];
    var prev: Option<int> := None;
    for i := 0 to |s|
      invariant prev == if i == 0 then None else Some(s[i - 1])
      invariant |d| == if i == 0 then 0 else i - 1
      invariant forall k :: 0 <= k < |d| ==> d[k] == s[k + 1] - s[k]
    {
      if prev.Some? {
        d := d + [s[i] - prev.value];
      }
      prev := Some(s[i]);
    }
    assert |d| == |Differences(s)|;
    forall k | 0 <= k < |d| ensures d[k] == Differences(s)[k] {
    }
  }

  /** `predict_next`: 0 for an all-zero row (the empty row included),
      otherwise the last element plus the prediction for the derivative. */
  function PredictNext(s: seq<int>): int
    decreases |s|
  {
    if AllZero(s) then 0
    else
      assert |s| > 0;
      s[|s| - 1] + PredictNext(Differences(s))
  }

  /** Part two: the value before the first, predicted on the reversed
      sequence. */
  function PredictPrevious(s: seq<int>): int {
    PredictNext(Reverse(s))
  }

  function Reverse(s: seq<int>): seq<int> {
    seq(|s|, i requires 0 <= i < |s| => s[|s| - 1 - i])
  }

  function Negate(s: seq<int>): seq<int> {
    seq(|s|, i requires 0 <= i < |s| => -s[i])
  }

  /** Each derivative is one element shorter, down to the empty row, so the
      recursion ends. */
  lemma DifferencesShorter(s: seq<int>)
    ensures |Differences(s)| == if |s| == 0 then 0 else |s| - 1
    ensures |s| > 0 ==> |Differences(s)| < |s|
  {
  }

  /** An all-zero row, the empty one included, predicts 0. */
  lemma ZeroPredictsZero(s: seq<int>)
    requires AllZero(s)
    ensures PredictNext(s) == 0
  {
  }

  /** A constant row predicts the same constant. */
  lemma ConstantPredictsConstant(s: seq<int>, c: int)
    requires |s| > 0 && forall i :: 0 <= i < |s| ==> s[i] == c
    ensures PredictNext(s) == c
  {
    if c != 0 {
      assert s[0] != 0;
      assert AllZero(Differences(s));
    }
  }

  /** An arithmetic row of at least two terms predicts its next term. */
  lemma ArithmeticPredictsNext(s: seq<int>, a: int, b: int)
    requires |s| >= 2 && forall i :: 0 <= i < |s| ==> s[i] == a + b * i
    ensures PredictNext(s) == a + b * |s|
  {
    ArithmeticDifferences(s, a, b);
    ConstantPredictsConstant(Differences(s), b);
    LastStep(s);
    MultiplySucc(b, |s| - 1);
  }

  /** The derivative of an arithmetic row is its constant step. */
  lemma ArithmeticDifferences(s: seq<int>, a: int, b: int)
    requires |s| >= 2 && forall i :: 0 <= i < |s| ==> s[i] == a + b * i
    ensures |Differences(s)| > 0 && forall i :: 0 <= i < |Differences(s)| ==> Differences(s)[i] == b
  {
    forall i | 0 <= i < |Differences(s)| ensures Differences(s)[i] == b {
      MultiplySucc(b, i);
      assert s[i + 1] == a + b * (i + 1);
    }
  }

  lemma MultiplySucc(b: int, i: int)
    ensures b * (i + 1) == b * i + b
  {
  }

  /** What the prediction means: appending it to a non-empty row appends to
      the derivative the derivative's own prediction, so every row of the
      difference table grows by its predicted value. */
  lemma ExtendedDifferences(s: seq<int>, next: int)
    requires |s| > 0 && next == PredictNext(s)
    ensures Differences(s + [next]) == Differences(s) + [PredictNext(Differences(s))]
  {
    LastStep(s);
    DifferencesSnoc(s, next);
  }

  /** The prediction lies one predicted step of the derivative past the
      last element. */
  lemma LastStep(s: seq<int>)
    requires |s| > 0
    ensures PredictNext(s) - s[|s| - 1] == PredictNext(Differences(s))
  {
    if AllZero(s) {
      assert AllZero(Differences(s));
      ZeroPredictsZero(Differences(s));
    }
  }

  /** One more element at the end adds its step from the old last element
      to the end of the derivative. */
  lemma DifferencesSnoc(s: seq<int>, x: int)
    requires |s| > 0
    ensures Differences(s + [x]) == Differences(s) + [x - s[|s| - 1]]
  {
    var t := s + [x];
    assert t[|s|] - t[|s| - 1] == x - s[|s| - 1];
    forall i | 0 <= i < |s| - 1
      ensures Differences(t)[i] == Differences(s)[i]
    {
      assert t[i + 1] - t[i] == s[i + 1] - s[i];
    }
  }

  /** The derivative of the reversed row is the reversed derivative with
      its signs flipped. */
  lemma ReverseDifferences(s: seq<int>)
    ensures Differences(Reverse(s)) == Negate(Reverse(Differences(s)))
  {
    var n := |s|;
    var d := Differences(s);
    var r := Reverse(s);
    var dr, nd := Differences(r), Negate(Reverse(d));
    assert |dr| == |nd| == |d|;
    forall i | 0 <= i < |d| ensures dr[i] == nd[i] {
      assert dr[i] == r[i + 1] - r[i];
      assert r[i + 1] == s[n - 2 - i] && r[i] == s[n - 1 - i];
      assert nd[i] == -d[|d| - 1 - i];
      assert d[|d| - 1 - i] == s[n - 1 - i] - s[n - 2 - i];
    }
  }

  /** Flipping every sign flips the prediction. */
  lemma {:induction false} NegatePredicts(s: seq<int>)
    ensures PredictNext(Negate(s)) == -PredictNext(s)
    decreases |s|
  {
    if !AllZero(s) {
      assert Differences(Negate(s)) == Negate(Differences(s));
      NegatePredicts(Differences(s));
      assert Negate(s)[|s| - 1] == -s[|s| - 1];
      assert !AllZero(Negate(s)) by {
        var i :| 0 <= i < |s| && s[i] != 0;
        assert Negate(s)[i] != 0;
      }
    } else {
      assert AllZero(Negate(s));
    }
  }

  /** Part two runs the same recursion backwards: the value before a row
      that is not all zero is its first element minus the value before its
      derivative. */
  lemma PreviousUnfolds(s: seq<int>)
    requires !AllZero(s)
    ensures |s| > 0
    ensures PredictPrevious(s) == s[0] - PredictPrevious(Differences(s))
  {
    var r := Reverse(s);
    assert !AllZero(r) by {
      var i :| 0 <= i < |s| && s[i] != 0;
      assert r[|s| - 1 - i] != 0;
    }
    ReverseDifferences(s);
    NegatePredicts(Reverse(Differences(s)));
  }

  /** What the part-two value means: putting it in front of a non-empty row
      puts the derivative's own previous value in front of the derivative. */
  lemma PrependedDifferences(s: seq<int>, previous: int)
    requires |s| > 0 && previous == PredictPrevious(s)
    ensures Differences([previous] + s) == [PredictPrevious(Differences(s))] + Differences(s)
  {
    FirstStep(s);
    DifferencesCons(previous, s);
  }

  /** The value before the row lies one step of the derivative's own
      previous value before the first element. */
  lemma FirstStep(s: seq<int>)
    requires |s| > 0
    ensures s[0] - PredictPrevious(s) == PredictPrevious(Differences(s))
  {
    if AllZero(s) {
      AllZeroReverse(s);
      assert AllZero(Differences(s));
      AllZeroReverse(Differences(s));
      ZeroPredictsZero(Reverse(s));
      ZeroPredictsZero(Reverse(Differences(s)));
    } else {
      PreviousUnfolds(s);
    }
  }

  lemma AllZeroReverse(s: seq<int>)
    requires AllZero(s)
    ensures AllZero(Reverse(s))
  {
    forall i | 0 <= i < |s| ensures Reverse(s)[i] == 0 {
      assert Reverse(s)[i] == s[|s| - 1 - i];
    }
  }

  /** One more element at the front puts its step to the old first element
      at the front of the derivative. */
  lemma DifferencesCons(x: int, s: seq<int>)
    requires |s| > 0
    ensures Differences([x] + s) == [s[0] - x] + Differences(s)
  {
    var t := [x] + s;
    assert Differences(t)[0] == t[1] - t[0];
    forall i | 0 <= i < |s| - 1
      ensures Differences(t)[i + 1] == Differences(s)[i]
    {
      assert t[i + 2] - t[i + 1] == s[i + 1] - s[i];
    }
  }
}
