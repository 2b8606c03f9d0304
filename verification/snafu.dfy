/** SNAFU numerals (`y2022/src/d25/mod.rs`): balanced base 5, written most
    significant digit first, with the digits `=`, `-`, `0`, `1`, `2` standing
    for -2, -1, 0, 1, 2. */
module Snafu {
  import opened Wrappers
  import opened RustInt

  /** The value of one SNAFU digit; any other character has none. */
  function DigitValue(c: char): (r: Option<int>)
    ensures r.Some? <==> c in "=-012"
    ensures r.Some? ==> -2 <= r.value <= 2
  {
    match c
    case '0' => Some(0)
    case '1' => Some(1)
    case '2' => Some(2)
    case '=' => Some(-2)
    case '-' => Some(-1)
    case _ => None
  }

  /** The digit that stands for `v` in -2..=2. */
  function DigitFor(v: int): (c: char)
    requires -2 <= v <= 2
    ensures DigitValue(c) == Some(v)
  {
    if v == -2 then '=' else if v == -1 then '-' else if v == 0 then '0' else if v == 1 then '1' else '2'
  }

  /** Each digit is the one written for its own value. */
  lemma DigitForValue(c: char)
    requires DigitValue(c).Some?
    ensures DigitFor(DigitValue(c).value) == c
  {
  }

  predicate AllDigits(s: string) {
    forall i :: 0 <= i < |s| ==> DigitValue(s[i]).Some?
  }

  /** No leading `0` (the empty string stands for zero). */
  predicate Canonical(s: string) {
    |s| == 0 || s[0] != '0'
  }

  /** The sum of digit × 5^exponent, the exponent counted from the right; a
      character that is not a digit makes the conversion fail (the source
      panics). */
  function FromSnafu(s: string): (r: Option<int>)
    ensures r.Some? <==> AllDigits(s)
    decreases |s|
  {
    if |s| == 0 then Some(0)
    else
      var d :- DigitValue(s[0]);
      var rest :- FromSnafu(s[1..]);
      assert forall i :: 1 <= i < |s| ==> s[i] == s[1..][i - 1];
      Some(d * Pow(5, |s| - 1) + rest)
  }

  /** A digit appended on the right multiplies the value so far by 5 and adds
      the digit's own value. */
  lemma {:induction false} FromSnafuAppend(s: string, c: char)
    requires AllDigits(s) && DigitValue(c).Some?
    ensures FromSnafu(s + [c]) == Some(5 * FromSnafu(s).value + DigitValue(c).value)
    decreases |s|
  {
    var t := s + [c];
    if |s| > 0 {
      assert t[1..] == s[1..] + [c];
      assert AllDigits(s[1..]) by {
        assert forall i :: 0 <= i < |s| - 1 ==> s[1..][i] == s[i + 1];
      }
      FromSnafuAppend(s[1..], c);
      var d := DigitValue(s[0]).value;
      assert Pow(5, |t| - 1) == 5 * Pow(5, |s| - 1);
      calc {
        FromSnafu(t).value;
        d * Pow(5, |t| - 1) + FromSnafu(t[1..]).value;
        d * (5 * Pow(5, |s| - 1)) + 5 * FromSnafu(s[1..]).value + DigitValue(c).value;
        5 * (d * Pow(5, |s| - 1) + FromSnafu(s[1..]).value) + DigitValue(c).value;
      }
    }
  }

  /** A remainder 0..=4 moved into the balanced range -2..=2. */
  function Balanced(rem: int): int {
    if rem <= 2 then rem else rem - 5
  }

  /** The SNAFU numeral for `n`. The source peels off digits with Rust's `%`,
      which is negative for a negative `n`; that reaches an `unreachable!()`,
      so every negative `n` fails. Zero gives the empty string. */
  function ToSnafu(n: int): (r: Option<string>)
    ensures r.Some? <==> n >= 0
    ensures r.Some? ==> AllDigits(r.value) && Canonical(r.value)
    ensures r.Some? ==> (r.value == [] <==> n == 0)
    decreases Abs(n)
  {
    if n == 0 then Some([])
    else
      var rem := TMod(n, 5);
      if rem < 0 then None
      else
        var offset := Balanced(rem);
        var next := TDiv(n - offset, 5);
        assert n - offset == 5 * next by {
          if n > 0 {
            NonNegativeDivMod(n, 5);
            NonNegativeDivMod(n - offset, 5);
          }
        }
        var rest :- ToSnafu(next);
        Some(rest + [DigitFor(offset)])
  }

  /** A positive `n = 5q + d` with a balanced digit `d` is written as the
      numeral for `q` followed by the digit for `d`. */
  lemma ToSnafuUnfold(n: int, q: int, d: int)
    requires n > 0 && -2 <= d <= 2 && n == 5 * q + d
    ensures q >= 0
    ensures ToSnafu(n) == Some(ToSnafu(q).value + [DigitFor(d)])
  {
    BalancedDigitOf(n, q, d);
    NonNegativeDivMod(n, 5);
    NonNegativeDivMod(n - d, 5);
    var rest := ToSnafu(q).value;
    assert TMod(n, 5) >= 0 && Balanced(TMod(n, 5)) == d && TDiv(n - d, 5) == q;
  }

  /** The remainder and quotient Rust computes for `n = 5q + d`. */
  lemma BalancedDigitOf(n: int, q: int, d: int)
    requires n > 0 && -2 <= d <= 2 && n == 5 * q + d
    ensures q >= 0 && n % 5 == (if d >= 0 then d else d + 5) && (n - d) / 5 == q
    ensures Balanced(n % 5) == d
  {
  }

  /** A positive number is five times a smaller one plus a balanced digit. */
  lemma BalancedDivide(n: nat) returns (q: nat, d: int)
    requires n > 0
    ensures n == 5 * q + d && -2 <= d <= 2 && q < n
  {
    d := Balanced(n % 5);
    q := (n - d) / 5;
  }

  /** Converting a non-negative number to SNAFU and back gives the number. */
  lemma {:induction false} SnafuRoundTrip(n: nat)
    ensures FromSnafu(ToSnafu(n).value) == Some(n)
    decreases n
  {
    if n > 0 {
      var q, d := BalancedDivide(n);
      ToSnafuUnfold(n, q, d);
      SnafuRoundTrip(q);
      FromSnafuAppend(ToSnafu(q).value, DigitFor(d));
    }
  }

  /** Every canonical numeral with a non-negative value is the one `ToSnafu`
      writes for that value: the representation is unique. */
  lemma {:induction false} SnafuUnique(s: string)
    requires AllDigits(s) && Canonical(s) && FromSnafu(s).value >= 0
    ensures ToSnafu(FromSnafu(s).value) == Some(s)
    decreases |s|
  {
    if |s| > 0 {
      var p, c := s[..|s| - 1], s[|s| - 1];
      DropLast(s);
      FromSnafuAppend(p, c);
      var d := DigitValue(c).value;
      var pv := FromSnafu(p).value;
      assert FromSnafu(s).value == 5 * pv + d;
      SnafuUnique(p);
      if FromSnafu(s).value == 0 {
        assert false;
      }
      ToSnafuUnfold(FromSnafu(s).value, pv, d);
      DigitForValue(c);
    }
  }

  /** A numeral without its last digit is still a canonical numeral. */
  lemma DropLast(s: string)
    requires AllDigits(s) && Canonical(s) && |s| > 0
    ensures s == s[..|s| - 1] + [s[|s| - 1]]
    ensures AllDigits(s[..|s| - 1]) && Canonical(s[..|s| - 1])
  {
    var p := s[..|s| - 1];
    assert forall i :: 0 <= i < |p| ==> p[i] == s[i];
  }
}
