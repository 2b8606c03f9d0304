/** The text form of an Intcode program, as `from_packed` reads it: the text
    is split at every comma (Rust's `str::split(',')`, which always yields at
    least one piece) and each piece is parsed as a signed integer with Rust's
    `str::parse`, which takes an optional `+` or `-` and then one or more ASCII
    digits, and rejects a value outside the target type. The first piece that
    does not parse aborts the load and names itself in the panic message. */
module IntcodeText {
  import opened Wrappers

  /** `str::split(sep)`: the pieces between separators, in order. */
  function Split(s: string, sep: char): (r: seq<string>)
    ensures |r| >= 1
    decreases |s|
  {
    if |s| == 0 then [""]
    else
      var rest := Split(s[1..], sep);
      if s[0] == sep then [""] + rest
      else [[s[0]] + rest[0]] + rest[1..]
  }

  /** The pieces joined with the separator between neighbours. */
  function Join(pieces: seq<string>, sep: char): string
    requires |pieces| >= 1
    decreases |pieces|
  {
    if |pieces| == 1 then pieces[0] else pieces[0] + [sep] + Join(pieces[1..], sep)
  }

  ghost predicate Free(pieces: seq<string>, sep: char) {
    forall i :: 0 <= i < |pieces| ==> sep !in pieces[i]
  }

  /** Splitting never leaves a separator inside a piece. */
  lemma {:induction false} SplitFree(s: string, sep: char)
    ensures Free(Split(s, sep), sep)
    decreases |s|
  {
    if |s| > 0 {
      SplitFree(s[1..], sep);
      var rest := Split(s[1..], sep);
      if s[0] != sep {
        assert sep !in [s[0]] + rest[0];
        assert forall i :: 1 <= i < |rest| ==> Split(s, sep)[i] == rest[i];
      }
    }
  }

  /** Joining the pieces of a split gives the text back. */
  lemma {:induction false} JoinSplit(s: string, sep: char)
    ensures Join(Split(s, sep), sep) == s
    decreases |s|
  {
    if |s| > 0 {
      JoinSplit(s[1..], sep);
      var rest := Split(s[1..], sep);
      if s[0] == sep {
        assert Split(s, sep)[1..] == rest;
        assert s == [sep] + s[1..];
      } else {
        JoinHead(s[0], rest, sep);
        assert s == [s[0]] + s[1..];
      }
    }
  }

  /** A character prepended to the first piece comes out in front of the join. */
  lemma JoinHead(c: char, pieces: seq<string>, sep: char)
    requires |pieces| >= 1
    ensures Join([[c] + pieces[0]] + pieces[1..], sep) == [c] + Join(pieces, sep)
  {
    var ps := [[c] + pieces[0]] + pieces[1..];
    if |pieces| > 1 {
      assert ps[1..] == pieces[1..];
    }
  }

  /** Splitting a join of separator-free pieces gives the pieces back. */
  lemma {:induction false} SplitJoin(pieces: seq<string>, sep: char)
    requires |pieces| >= 1 && Free(pieces, sep)
    ensures Split(Join(pieces, sep), sep) == pieces
    decreases |pieces|
  {
    if |pieces| == 1 {
      SplitWhole(pieces[0], sep);
    } else {
      SplitJoin(pieces[1..], sep);
      SplitAfter(pieces[0], Join(pieces[1..], sep), sep);
      assert pieces == [pieces[0]] + pieces[1..];
    }
  }

  lemma {:induction false} SplitWhole(p: string, sep: char)
    requires sep !in p
    ensures Split(p, sep) == [p]
    decreases |p|
  {
    if |p| > 0 {
      SplitWhole(p[1..], sep);
      assert p == [p[0]] + p[1..];
    }
  }

  /** A separator-free piece followed by a separator splits off as the first piece. */
  lemma {:induction false} SplitAfter(p: string, rest: string, sep: char)
    requires sep !in p
    ensures Split(p + [sep] + rest, sep) == [p] + Split(rest, sep)
    decreases |p|
  {
    var s := p + [sep] + rest;
    if |p| == 0 {
      assert s[0] == sep && s[1..] == rest;
    } else {
      SplitAfter(p[1..], rest, sep);
      assert s[0] == p[0] && s[1..] == p[1..] + [sep] + rest;
      assert [p[0]] + p[1..] == p;
    }
  }

  predicate IsDigit(c: char) {
    '0' <= c <= '9'
  }

  predicate AllDigits(s: string) {
    forall i :: 0 <= i < |s| ==> IsDigit(s[i])
  }

  /** The value of a string of decimal digits, most significant first. */
  function DigitsValue(s: string): nat
    requires AllDigits(s)
    decreases |s|
  {
    if |s| == 0 then 0
    else 10 * DigitsValue(s[..|s| - 1]) + (s[|s| - 1] as int - '0' as int)
  }

  /** Rust's `str::parse` for a signed integer type whose range is `lo..=hi`. */
  function ParseInt(s: string, lo: int, hi: int): (r: Option<int>)
    ensures r.Some? ==> lo <= r.value <= hi
  {
    if |s| == 0 then None
    else
      var negative := s[0] == '-';
      var digits := if s[0] == '-' || s[0] == '+' then s[1..] else s;
      if |digits| == 0 || !AllDigits(digits) then None
      else
        var magnitude: int := DigitsValue(digits);
        var v := if negative then -magnitude else magnitude;
        if lo <= v <= hi then Some(v) else None
  }

  /** The decimal digits of `n`, most significant first, without leading zeros. */
  function ShowNat(n: nat): (r: string)
    ensures |r| >= 1 && AllDigits(r)
    ensures r[0] != '0' || n == 0
  {
    var last := ['0' + (n % 10) as char];
    if n < 10 then last else ShowNat(n / 10) + last
  }

  /** How `{}` formats an integer. */
  function ShowInt(v: int): string {
    if v < 0 then "-" + ShowNat(-v) else ShowNat(v)
  }

  lemma {:induction false} DigitsOfShowNat(n: nat)
    ensures DigitsValue(ShowNat(n)) == n
  {
    var r := ShowNat(n);
    if n >= 10 {
      DigitsOfShowNat(n / 10);
      assert r[..|r| - 1] == ShowNat(n / 10);
    }
  }

  /** A formatted integer in range parses back to itself. */
  lemma ParseShow(v: int, lo: int, hi: int)
    requires lo <= v <= hi
    ensures ParseInt(ShowInt(v), lo, hi) == Some(v)
  {
    if v < 0 {
      DigitsOfShowNat(-v);
      assert ShowInt(v)[1..] == ShowNat(-v);
    } else {
      DigitsOfShowNat(v);
    }
  }

  /** A formatted integer never contains a comma. */
  lemma ShowIntHasNoComma(v: int)
    ensures ',' !in ShowInt(v)
  {
    var s := ShowInt(v);
    forall i | 0 <= i < |s|
      ensures s[i] != ','
    {
      if v < 0 && i > 0 {
        assert s[i] == ShowNat(-v)[i - 1];
      }
    }
  }

  /** Every piece parsed in order; the first piece that does not parse is the error. */
  function ParseAll(pieces: seq<string>, lo: int, hi: int): (r: Result<seq<int>, string>)
    ensures r.Ok? ==> |r.value| == |pieces|
    decreases |pieces|
  {
    if |pieces| == 0 then Ok([])
    else
      match ParseInt(pieces[0], lo, hi)
      case None => Err(pieces[0])
      case Some(v) =>
        var rest :- ParseAll(pieces[1..], lo, hi);
        Ok([v] + rest)
  }

  /** Piece `i` is the first that does not parse. */
  ghost predicate FirstUnparsed(pieces: seq<string>, i: int, lo: int, hi: int) {
    && 0 <= i < |pieces|
    && ParseInt(pieces[i], lo, hi).None?
    && forall j :: 0 <= j < i ==> ParseInt(pieces[j], lo, hi).Some?
  }

  /** A successful parse holds each piece's value at its position; a failed one
      names the first piece that does not parse, every earlier piece having
      parsed. */
  lemma {:induction false} ParseAllMeaning(pieces: seq<string>, lo: int, hi: int)
    ensures ParseAll(pieces, lo, hi).Ok? ==>
      forall i :: 0 <= i < |pieces| ==> ParseInt(pieces[i], lo, hi) == Some(ParseAll(pieces, lo, hi).value[i])
    ensures ParseAll(pieces, lo, hi).Err? ==>
      exists i :: FirstUnparsed(pieces, i, lo, hi) && ParseAll(pieces, lo, hi).error == pieces[i]
    decreases |pieces|
  {
    if |pieces| > 0 && ParseInt(pieces[0], lo, hi).Some? {
      ParseAllMeaning(pieces[1..], lo, hi);
      var r := ParseAll(pieces, lo, hi);
      var rest := ParseAll(pieces[1..], lo, hi);
      if r.Ok? {
        forall i | 0 <= i < |pieces|
          ensures ParseInt(pieces[i], lo, hi) == Some(r.value[i])
        {
          if i > 0 {
            assert pieces[i] == pieces[1..][i - 1];
          }
        }
      } else {
        var i :| FirstUnparsed(pieces[1..], i, lo, hi) && rest.error == pieces[1..][i];
        assert pieces[i + 1] == pieces[1..][i];
        forall j | 0 <= j < i + 1
          ensures ParseInt(pieces[j], lo, hi).Some?
        {
          if j > 0 {
            assert pieces[j] == pieces[1..][j - 1];
          }
        }
        assert FirstUnparsed(pieces, i + 1, lo, hi);
      }
    }
  }

  /** The cells of a program text whose cells lie in `lo..=hi`. */
  function ParseProgram(text: string, lo: int, hi: int): Result<seq<int>, string> {
    ParseAll(Split(text, ','), lo, hi)
  }

  /** The program text for the given cells, as a comma-separated line. */
  function Render(program: seq<int>): string
    requires |program| >= 1
  {
    Join(seq(|program|, i requires 0 <= i < |program| => ShowInt(program[i])), ',')
  }

  /** Rendering a non-empty program whose cells lie in range and parsing the
      text gives the program back. */
  lemma ParseRender(program: seq<int>, lo: int, hi: int)
    requires |program| >= 1
    requires forall i :: 0 <= i < |program| ==> lo <= program[i] <= hi
    ensures ParseProgram(Render(program), lo, hi) == Ok(program)
  {
    var pieces := seq(|program|, i requires 0 <= i < |program| => ShowInt(program[i]));
    forall i | 0 <= i < |pieces|
      ensures ',' !in pieces[i]
    {
      ShowIntHasNoComma(program[i]);
    }
    SplitJoin(pieces, ',');
    ParseAllShown(program, lo, hi);
  }

  lemma {:induction false} ParseAllShown(program: seq<int>, lo: int, hi: int)
    requires forall i :: 0 <= i < |program| ==> lo <= program[i] <= hi
    ensures ParseAll(seq(|program|, i requires 0 <= i < |program| => ShowInt(program[i])), lo, hi) == Ok(program)
    decreases |program|
  {
    var pieces := seq(|program|, i requires 0 <= i < |program| => ShowInt(program[i]));
    if |program| > 0 {
      ParseShow(program[0], lo, hi);
      ParseAllShown(program[1..], lo, hi);
      assert pieces[1..] == seq(|program[1..]|, i requires 0 <= i < |program[1..]| => ShowInt(program[1..][i]));
      assert program == [program[0]] + program[1..];
    }
  }
}
