/** Checking lines of brackets (`y2021/src/d10/mod.rs`). Each opener pushes
    the closer it needs onto a stack; any other character must equal the
    closer on top, which it pops. A line is corrupted at its first character
    that breaks this rule; otherwise it is incomplete, and the stack lists
    the closers still needed, innermost last. */
module Brackets {
  import opened Wrappers

  /** What checking a line gives: the first offending character (`Left`)
      or the stack of closers still needed (`Right`). */
  datatype Outcome = Corrupted(found: char) | Incomplete(closers: seq<char>)

  /** `get_corresponding_close`. */
  function CloserOf(c: char): Option<char> {
    match c
    case '(' => Some(')')
    case '[' => Some(']')
    case '{' => Some('}')
    case '<' => Some('>')
    case _ => None
  }

  predicate IsOpener(c: char) {
    CloserOf(c).Some?
  }

  predicate IsCloser(c: char) {
    c == ')' || c == ']' || c == '}' || c == '>'
  }

  /** `c` cannot come next with `stack` open: it is not an opener and the
      stack is empty or expects another closer (popping an empty stack
      gives `None`, which equals no character). */
  predicate Mismatch(stack: seq<char>, c: char) {
    !IsOpener(c) && (|stack| == 0 || stack[|stack| - 1] != c)
  }

  /** The loop of `parse_first_incorrect_or_necessary_remaining`, from a
      given stack. */
  function Check(line: seq<char>, stack: seq<char>): Outcome
    decreases |line|
  {
    if |line| == 0 then Incomplete(stack)
    else
      var c := line[0];
      if IsOpener(c) then Check(line[1..], stack + [CloserOf(c).value])
      else if Mismatch(stack, c) then Corrupted(c)
      else Check(line[1..], stack[..|stack| - 1])
  }

  /** `parse_first_incorrect_or_necessary_remaining`: checking from an
      empty stack. */
  function Parse(line: seq<char>): Outcome {
    Check(line, [])
  }

  /** Checking goes on from where the first part of a line left it. */
  function Then(first: Outcome, rest: seq<char>): Outcome {
    match first
    case Corrupted(c) => Corrupted(c)
    case Incomplete(stack) => Check(rest, stack)
  }

  /** Checking a line in two parts: a corruption in the first part is the
      answer, otherwise the second part is checked from the stack the first
      part left. */
  lemma {:induction false} CheckAppend(a: seq<char>, b: seq<char>, stack: seq<char>)
    ensures Check(a + b, stack) == Then(Check(a, stack), b)
    decreases |a|
  {
    if |a| > 0 {
      assert (a + b)[0] == a[0] && (a + b)[1..] == a[1..] + b;
      var c := a[0];
      if IsOpener(c) {
        CheckAppend(a[1..], b, stack + [CloserOf(c).value]);
      } else if !Mismatch(stack, c) {
        CheckAppend(a[1..], b, stack[..|stack| - 1]);
      }
    } else {
      assert a + b == b;
    }
  }

  /** A line whose prefix before position `i` checks without corruption and
      whose character at `i` does not fit is reported corrupted at that
      character. */
  lemma FirstMismatchReported(line: seq<char>, i: nat)
    requires i < |line| && Parse(line[..i]).Incomplete?
    requires Mismatch(Parse(line[..i]).closers, line[i])
    ensures Parse(line) == Corrupted(line[i])
  {
    assert line == line[..i] + line[i..];
    CheckAppend(line[..i], line[i..], []);
  }

  /** Conversely, a reported character is a first mismatch: the line
      checks without corruption up to it, and it does not fit there. */
  lemma ReportedIsMismatch(line: seq<char>, c: char)
    requires Parse(line) == Corrupted(c)
    ensures exists i :: 0 <= i < |line| && line[i] == c && Parse(line[..i]).Incomplete? && Mismatch(Parse(line[..i]).closers, c)
  {
    var i := MismatchFrom(line, [], c);
  }

  lemma {:induction false} MismatchFrom(line: seq<char>, stack: seq<char>, c: char) returns (i: nat)
    requires Check(line, stack) == Corrupted(c)
    ensures i < |line| && line[i] == c && Check(line[..i], stack).Incomplete?
    ensures Mismatch(Check(line[..i], stack).closers, c)
    decreases |line|
  {
    var d := line[0];
    if Mismatch(stack, d) && !IsOpener(d) {
      i := 0;
      assert line[..0] == [];
    } else {
      var next := if IsOpener(d) then stack + [CloserOf(d).value] else stack[..|stack| - 1];
      var j := MismatchFrom(line[1..], next, c);
      i := j + 1;
      assert line[..i] == [d] + line[1..][..j];
      CheckAppend([d], line[1..][..j], stack);
    }
  }

  /** The closers a stack still needs, innermost first: the stack read from
      the top down. */
  function Completion(stack: seq<char>): (r: seq<char>)
    ensures |r| == |stack|
    decreases |stack|
  {
    if |stack| == 0 then [] else [stack[|stack| - 1]] + Completion(stack[..|stack| - 1])
  }

  predicate AllClosers(stack: seq<char>) {
    forall k :: 0 <= k < |stack| ==> IsCloser(stack[k])
  }

  /** Every stack the check leaves holds closers only. */
  lemma {:induction false} StackHoldsClosers(line: seq<char>, stack: seq<char>)
    requires AllClosers(stack) && Check(line, stack).Incomplete?
    ensures AllClosers(Check(line, stack).closers)
    decreases |line|
  {
    if |line| > 0 {
      var c := line[0];
      if IsOpener(c) {
        StackHoldsClosers(line[1..], stack + [CloserOf(c).value]);
      } else {
        StackHoldsClosers(line[1..], stack[..|stack| - 1]);
      }
    }
  }

  /** The remaining closers, appended innermost first, close everything. */
  lemma {:induction false} CompletionCloses(stack: seq<char>)
    requires AllClosers(stack)
    ensures Check(Completion(stack), stack) == Incomplete([])
    decreases |stack|
  {
    if |stack| > 0 {
      var top, below := stack[|stack| - 1], stack[..|stack| - 1];
      assert Completion(stack)[0] == top && Completion(stack)[1..] == Completion(below);
      assert !IsOpener(top);
      CompletionCloses(below);
    }
  }

  /** An incomplete line followed by its completion is balanced. */
  lemma CompletedLineBalances(line: seq<char>)
    requires Parse(line).Incomplete?
    ensures Parse(line + Completion(Parse(line).closers)) == Incomplete([])
  {
    var stack := Parse(line).closers;
    StackHoldsClosers(line, []);
    CheckAppend(line, Completion(stack), []);
    CompletionCloses(stack);
  }

  /** A chunk: an opener, the chunks nested inside it, and the matching
      closer. */
  datatype Chunk = Chunk(open: char, inner: seq<Chunk>)

  predicate WellFormed(c: Chunk)
    decreases c
  {
    IsOpener(c.open) && forall k :: 0 <= k < |c.inner| ==> WellFormed(c.inner[k])
  }

  predicate AllWellFormed(cs: seq<Chunk>) {
    forall k :: 0 <= k < |cs| ==> WellFormed(cs[k])
  }

  function Render(c: Chunk): seq<char>
    requires WellFormed(c)
    decreases c, 1
  {
    [c.open] + RenderAll(c.inner) + [CloserOf(c.open).value]
  }

  function RenderAll(cs: seq<Chunk>): seq<char>
    requires AllWellFormed(cs)
    decreases cs, 0
  {
    if |cs| == 0 then [] else Render(cs[0]) + RenderAll(cs[1..])
  }

  /** Balanced chunks leave any stack as it was, so a balanced line checks
      to an empty stack. */
  lemma {:induction false} ChunksBalance(cs: seq<Chunk>, stack: seq<char>)
    requires AllWellFormed(cs)
    ensures Check(RenderAll(cs), stack) == Incomplete(stack)
    decreases cs, 0
  {
    if |cs| > 0 {
      ChunkBalances(cs[0], stack);
      CheckAppend(Render(cs[0]), RenderAll(cs[1..]), stack);
      ChunksBalance(cs[1..], stack);
    }
  }

  lemma {:induction false} ChunkBalances(c: Chunk, stack: seq<char>)
    requires WellFormed(c)
    ensures Check(Render(c), stack) == Incomplete(stack)
    decreases c, 1
  {
    var closer := CloserOf(c.open).value;
    var pushed := stack + [closer];
    ChunksBalance(c.inner, pushed);
    assert Render(c) == [c.open] + (RenderAll(c.inner) + [closer]);
    CheckAppend([c.open], RenderAll(c.inner) + [closer], stack);
    CheckAppend(RenderAll(c.inner), [closer], pushed);
    assert [c.open][1..] == [] && [closer][1..] == [];
    assert Check([c.open], stack) == Incomplete(pushed);
    assert !IsOpener(closer);
    assert pushed[..|pushed| - 1] == stack;
    assert Check([closer], pushed) == Incomplete(stack);
  }

  lemma BalancedLine(cs: seq<Chunk>)
    requires AllWellFormed(cs)
    ensures Parse(RenderAll(cs)) == Incomplete([])
  {
    ChunksBalance(cs, []);
  }

  /** `points_for_incorrect_closers`; any other character panics. */
  function ErrorPoints(c: char): (r: Option<nat>)
    ensures r.Some? <==> IsCloser(c)
  {
    match c
    case ')' => Some(3)
    case ']' => Some(57)
    case '}' => Some(1197)
    case '>' => Some(25137)
    case _ => None
  }

  /** The value of one closer in the completion score. */
  function ClosingValue(c: char): (r: Option<nat>)
    ensures r.Some? <==> IsCloser(c)
    ensures r.Some? ==> 1 <= r.value <= 4
  {
    match c
    case ')' => Some(1)
    case ']' => Some(2)
    case '}' => Some(3)
    case '>' => Some(4)
    case _ => None
  }

  /** `points_for_remaining_closers`: the fold over the reversed stack
      multiplies the total by 5 and adds each closer's value, so the bottom
      of the stack is added last; a character that is not a closer panics. */
  function Points(stack: seq<char>): (r: Option<nat>)
    ensures r.Some? <==> AllClosers(stack)
    decreases |stack|
  {
    if |stack| == 0 then Some(0)
    else
      match ClosingValue(stack[0])
      case None => None
      case Some(v) =>
        match Points(stack[1..])
        case None => None
        case Some(p) => Some(5 * p + v)
  }

  /** Reading a score back as base-5 digits, least significant first. */
  function ClosersOf(score: nat): seq<char>
    decreases score
  {
    if score == 0 then []
    else [CloserWithValue(score % 5)] + ClosersOf(score / 5)
  }

  function CloserWithValue(v: nat): char {
    if v == 1 then ')' else if v == 2 then ']' else if v == 3 then '}' else '>'
  }

  /** Every closer is worth 1 to 4, never 0, so a score spells out its
      stack: different completions never score the same. */
  lemma {:induction false} PointsRoundTrip(stack: seq<char>)
    requires AllClosers(stack)
    ensures ClosersOf(Points(stack).value) == stack
    decreases |stack|
  {
    if |stack| > 0 {
      PointsRoundTrip(stack[1..]);
      var v := ClosingValue(stack[0]).value;
      var p := Points(stack[1..]).value;
      assert Points(stack).value == 5 * p + v;
      Base5(p, v);
    }
  }

  lemma Base5(p: nat, v: nat)
    requires 1 <= v <= 4
    ensures (5 * p + v) % 5 == v && (5 * p + v) / 5 == p
  {
  }

  lemma PointsInjective(a: seq<char>, b: seq<char>)
    requires AllClosers(a) && AllClosers(b) && Points(a) == Points(b)
    ensures a == b
  {
    PointsRoundTrip(a);
    PointsRoundTrip(b);
  }

  /** An incomplete line always has a completion score. */
  lemma IncompleteLineScores(line: seq<char>)
    requires Parse(line).Incomplete?
    ensures Points(Parse(line).closers).Some?
  {
    StackHoldsClosers(line, []);
  }

  /** The worked example: `[({(<(())[]>[[{[]{<()<>>` still needs
      `}}]])})]`, so its stack, innermost last, is that read backwards; it
      scores 288957. */
  lemma ExampleScore()
    ensures Points([']', ')', '}', ')', ']', ']', '}', '}']) == Some(288957)
  {
    assert Points(['}']) == Some(3);
    assert Points(['}', '}']) == Some(18);
    assert Points([']', '}', '}']) == Some(92);
    assert Points([']', ']', '}', '}']) == Some(462);
    assert Points([')', ']', ']', '}', '}']) == Some(2311);
    assert Points(['}', ')', ']', ']', '}', '}']) == Some(11558);
    assert Points([')', '}', ')', ']', ']', '}', '}']) == Some(57791);
  }
}
