/** Password rules (`y2019/src/d04/mod.rs`). A number's digits are taken
    least significant first; read that way they must never increase (so
    read normally they never decrease), and some run of equal digits must
    be exactly two long. */
module Password {
  import opened Wrappers

  /** `get_reverse_digits`: the decimal digits of `num`, least significant
      first; nothing for `num <= 0`, since the loop runs while `num > 0`. */
  function ReverseDigits(num: int): (ds: seq<nat>)
    ensures forall i :: 0 <= i < |ds| ==> ds[i] < 10
    ensures |ds| == 0 <==> num <= 0
    decreases if num <= 0 then 0 else num
  {
    if num <= 0 then [] else [num % 10] + ReverseDigits(num / 10)
  }

  /** The number that least-significant-first digits stand for. */
  function Value(ds: seq<nat>): nat
    decreases |ds|
  {
    if |ds| == 0 then 0 else ds[0] + 10 * Value(ds[1..])
  }

  /** The digits give the number back, and the most significant one is not
      0. */
  lemma {:induction false} DigitsRoundTrip(num: int)
    requires num > 0
    ensures Value(ReverseDigits(num)) == num
    ensures ReverseDigits(num)[|ReverseDigits(num)| - 1] != 0
    decreases num
  {
    var ds := ReverseDigits(num);
    assert ds[1..] == ReverseDigits(num / 10);
    if num / 10 > 0 {
      DigitsRoundTrip(num / 10);
    }
  }

  /** Digits with no leading zero are the digits of their value. */
  lemma {:induction false} ValueRoundTrip(ds: seq<nat>)
    requires forall i :: 0 <= i < |ds| ==> ds[i] < 10
    requires |ds| > 0 ==> ds[|ds| - 1] != 0
    ensures ReverseDigits(Value(ds)) == ds
    decreases |ds|
  {
    if |ds| > 0 {
      var rest := ds[1..];
      ValueRoundTrip(rest);
      if |rest| > 0 {
        ValuePositive(rest);
      }
      assert Value(ds) % 10 == ds[0] && Value(ds) / 10 == Value(rest);
    }
  }

  lemma {:induction false} ValuePositive(ds: seq<nat>)
    requires |ds| > 0 && ds[|ds| - 1] != 0
    ensures Value(ds) > 0
    decreases |ds|
  {
    if |ds| > 1 {
      ValuePositive(ds[1..]);
    }
  }

  /** Read least significant first, the digits never increase. */
  predicate NeverIncreasing(ds: seq<nat>) {
    forall i :: 0 < i < |ds| ==> ds[i] <= ds[i - 1]
  }

  /** A run of equal digits that starts at `i` and is exactly two long. */
  predicate ExactPairAt(ds: seq<nat>, i: nat) {
    && i + 1 < |ds|
    && ds[i] == ds[i + 1]
    && (i == 0 || ds[i - 1] != ds[i])
    && (i + 2 == |ds| || ds[i + 2] != ds[i])
  }

  ghost predicate Valid(ds: seq<nat>) {
    NeverIncreasing(ds) && exists i: nat :: ExactPairAt(ds, i)
  }

  /** `is_valid_password`. Indexing the first digit of a number with no
      digits panics, so every `num <= 0` fails. */
  method IsValidPassword(num: int) returns (r: Option<bool>)
    ensures r.None? <==> num <= 0
    ensures r.Some? ==> (r.value <==> Valid(ReverseDigits(num)))
  {
    var ds := ReverseDigits(num);
    if |ds| == 0 {
      return None;
    }
    var valid := CheckDigits(ds);
    return Some(valid);
  }

  /** The loop of `is_valid_password` over the least-significant-first
      digits: it fails at the first digit above its predecessor, tracks the
      length of the current run of equal digits, and remembers whether a
      run of exactly two has ended. */
  method CheckDigits(ds: seq<nat>) returns (valid: bool)
    requires |ds| > 0
    ensures valid <==> Valid(ds)
  {
    var prev := ds[0];
    var hasDouble := false;
    var runLength := 1;
    FirstDigit(ds);
    for k := 1 to |ds|
      invariant Folded(ds, k, prev, runLength, hasDouble)
    {
      var digit := ds[k];
      if prev < digit {
        Decreasing(ds, k);
        return false;
      }
      if prev == digit {
        ExtendRun(ds, k, runLength, hasDouble);
        runLength := runLength + 1;
      } else {
        CloseRun(ds, k, runLength, hasDouble);
        hasDouble := hasDouble || runLength == 2;
        runLength := 1;
      }
      prev := digit;
    }
    assert ds[..|ds|] == ds;
    LastRun(ds, runLength, hasDouble);
    return hasDouble || runLength == 2;
  }

  /** What the loop knows after the first `k` digits: `prev` is the last of
      them, they never increase, `run` is the length of their last run and
      `hasDouble` says whether an exact pair ended before it. */
  ghost predicate Folded(ds: seq<nat>, k: nat, prev: nat, run: nat, hasDouble: bool) {
    && 0 < k <= |ds|
    && prev == ds[k - 1]
    && NeverIncreasing(ds[..k])
    && RunEndingAt(ds[..k], run)
    && (hasDouble <==> ClosedPairIn(ds[..k], run))
  }

  /** After the first digit: one run of one, no pair yet. */
  lemma FirstDigit(ds: seq<nat>)
    requires |ds| > 0
    ensures Folded(ds, 1, ds[0], 1, false)
  {
    assert ds[..1] == [ds[0]];
  }

  /** A digit above the one before it breaks the ordering. */
  lemma Decreasing(ds: seq<nat>, k: nat)
    requires 0 < k < |ds| && ds[k - 1] < ds[k]
    ensures !Valid(ds)
  {
  }

  /** The next digit equal to the last one lengthens the last run. */
  lemma ExtendRun(ds: seq<nat>, k: nat, run: nat, hasDouble: bool)
    requires 0 < k < |ds| && Folded(ds, k, ds[k - 1], run, hasDouble) && ds[k] == ds[k - 1]
    ensures Folded(ds, k + 1, ds[k], run + 1, hasDouble)
  {
    assert ds[..k + 1] == ds[..k] + [ds[k]];
    RunGrows(ds[..k], run, ds[k]);
  }

  /** The next digit below the last one closes the last run and starts a
      run of one; a closed run of two is an exact pair. */
  lemma CloseRun(ds: seq<nat>, k: nat, run: nat, hasDouble: bool)
    requires 0 < k < |ds| && Folded(ds, k, ds[k - 1], run, hasDouble) && ds[k] < ds[k - 1]
    ensures Folded(ds, k + 1, ds[k], 1, hasDouble || run == 2)
  {
    assert ds[..k + 1] == ds[..k] + [ds[k]];
    RunCloses(ds[..k], run, ds[k], hasDouble);
  }

  /** The last `run` digits of `p` are equal, and the digit before them (if
      any) differs. */
  predicate RunEndingAt(p: seq<nat>, run: nat) {
    && 1 <= run <= |p|
    && (forall j :: |p| - run <= j < |p| ==> p[j] == p[|p| - 1])
    && (run < |p| ==> p[|p| - run - 1] != p[|p| - 1])
  }

  /** `p` has an exact pair that ends before its last run starts. */
  ghost predicate ClosedPairIn(p: seq<nat>, run: nat) {
    exists i: nat :: i + 2 <= |p| - run && ExactPairAt(p, i)
  }

  /** A digit equal to the last one lengthens the last run. */
  lemma RunGrows(p: seq<nat>, run: nat, d: nat)
    requires RunEndingAt(p, run) && d == p[|p| - 1]
    ensures RunEndingAt(p + [d], run + 1)
    ensures ClosedPairIn(p + [d], run + 1) <==> ClosedPairIn(p, run)
  {
    var q := p + [d];
    if ClosedPairIn(p, run) {
      var i: nat :| i + 2 <= |p| - run && ExactPairAt(p, i);
      assert ExactPairAt(q, i);
    }
    if ClosedPairIn(q, run + 1) {
      var i: nat :| i + 2 <= |q| - run - 1 && ExactPairAt(q, i);
      assert ExactPairAt(p, i);
    }
  }

  /** A different digit closes the last run, which becomes a closed exact
      pair when it was two long, and starts a run of one. */
  lemma RunCloses(p: seq<nat>, run: nat, d: nat, hasDouble: bool)
    requires RunEndingAt(p, run) && d != p[|p| - 1]
    requires hasDouble <==> ClosedPairIn(p, run)
    ensures RunEndingAt(p + [d], 1)
    ensures hasDouble || run == 2 <==> ClosedPairIn(p + [d], 1)
  {
    var q := p + [d];
    if ClosedPairIn(p, run) {
      var i: nat :| i + 2 <= |p| - run && ExactPairAt(p, i);
      assert ExactPairAt(q, i);
    }
    if run == 2 {
      assert ExactPairAt(q, |p| - 2);
    }
    if ClosedPairIn(q, 1) {
      var i: nat :| i + 2 <= |q| - 1 && ExactPairAt(q, i);
      if i + 2 <= |p| - run {
        assert ExactPairAt(p, i);
      } else {
        PairInLastRun(p, run, d, i);
      }
    }
  }

  /** An exact pair that overlaps the last run is that whole run. */
  lemma PairInLastRun(p: seq<nat>, run: nat, d: nat, i: nat)
    requires RunEndingAt(p, run) && d != p[|p| - 1]
    requires i + 2 <= |p| && i + 2 > |p| - run && ExactPairAt(p + [d], i)
    ensures run == 2
  {
  }

  /** At the end, a last run of exactly two is the one exact pair still
      open. */
  lemma LastRun(ds: seq<nat>, run: nat, hasDouble: bool)
    requires RunEndingAt(ds, run) && (hasDouble <==> ClosedPairIn(ds, run))
    ensures (hasDouble || run == 2) <==> exists i: nat :: ExactPairAt(ds, i)
  {
    if run == 2 {
      assert ExactPairAt(ds, |ds| - 2);
    }
  }

  /** The example numbers `main` checks: 112233 and 111122 are valid,
      123444 is not (its only run of equal digits is three long). */
  lemma RejectsTriple()
    ensures !Valid(ReverseDigits(123444))
  {
    var ds: seq<nat> := [4, 4, 4, 3, 2, 1];
    assert Value(ds) == 123444;
    ValueRoundTrip(ds);
  }

  lemma AcceptsPairs()
    ensures Valid(ReverseDigits(112233))
  {
    var ds: seq<nat> := [3, 3, 2, 2, 1, 1];
    assert Value(ds) == 112233;
    ValueRoundTrip(ds);
    assert ExactPairAt(ds, 0);
  }

  lemma AcceptsPairAfterQuad()
    ensures Valid(ReverseDigits(111122))
  {
    var ds: seq<nat> := [2, 2, 1, 1, 1, 1];
    assert Value(ds) == 111122;
    ValueRoundTrip(ds);
    assert ExactPairAt(ds, 0);
  }
}
