/** Stacks of crates moved by a crane (`src/y2022/d05/mod.rs`). Each stack
    is listed bottom first, so its top crate is its last element. A move
    takes the top `count` crates of stack `from` and puts them on stack `to`
    (stacks are numbered from 1); the older crane reverses the block because
    it lifts one crate at a time, the newer one keeps the block's order. */
module Crates {
  import opened Wrappers

  datatype Move = Move(count: nat, from: nat, to: nat)

  /** Why a move or a read-out panics in the source. */
  datatype CrateError =
    | BadStack(number: nat)                  // `from - 1` or `to - 1` underflows or is out of range
    | NotEnoughCrates(have: nat, wanted: nat) // `from_len - count` underflows
    | EmptyStack(index: nat)                  // `last().unwrap()` on an empty stack

  function Reverse(s: seq<char>): (r: seq<char>)
    ensures |r| == |s|
  {
    seq(|s|, i requires 0 <= i < |s| => s[|s| - 1 - i])
  }

  predicate ValidStack(stacks: seq<seq<char>>, number: nat) {
    1 <= number <= |stacks|
  }

  /** `do_move`: split the top `count` crates off stack `from`, reverse them
      unless the order is preserved, and append them to stack `to`. It
      panics when `from - 1` underflows or is out of range, when
      `from_len - count` underflows, and when `to - 1` does, in that order. */
  function DoMove(stacks: seq<seq<char>>, m: Move, preserveOrder: bool): (r: Result<seq<seq<char>>, CrateError>)
    ensures r.Err? <==>
      || !ValidStack(stacks, m.from)
      || m.count > |stacks[m.from - 1]|
      || !ValidStack(stacks, m.to)
    ensures r.Ok? ==> |r.value| == |stacks|
  {
    if !ValidStack(stacks, m.from) then Err(BadStack(m.from))
    else if m.count > |stacks[m.from - 1]| then Err(NotEnoughCrates(|stacks[m.from - 1]|, m.count))
    else if !ValidStack(stacks, m.to) then Err(BadStack(m.to))
    else Ok(Carry(stacks, m.from - 1, m.to - 1, m.count, preserveOrder))
  }

  /** The stacks after the block is split off index `f` and appended to
      index `t`, stack by stack. The block is split off before `t` is looked
      at, so with `f == t` the (possibly reversed) block goes back on the
      stack it came from. */
  function Carry(stacks: seq<seq<char>>, f: nat, t: nat, count: nat, preserveOrder: bool): seq<seq<char>>
    requires f < |stacks| && t < |stacks| && count <= |stacks[f]|
  {
    var source := stacks[f];
    var kept := source[..|source| - count];
    seq(|stacks|, i requires 0 <= i < |stacks| =>
      if i == t then (if i == f then kept else stacks[i]) + Carried(source, count, preserveOrder)
      else if i == f then kept
      else stacks[i])
  }

  /** The block a move carries, in the order it lands. */
  function Carried(source: seq<char>, count: nat, preserveOrder: bool): (r: seq<char>)
    requires count <= |source|
    ensures |r| == count
  {
    var block := source[|source| - count..];
    if preserveOrder then block else Reverse(block)
  }

  /** `after` is `before` with the top `count` crates of stack index `f`
      carried onto stack index `t`: `f` loses them, `t` gains them on top
      (reversed unless the order is kept), every other stack is as it
      was. */
  predicate MovedBetween(before: seq<seq<char>>, after: seq<seq<char>>, f: int, t: int, count: nat, preserveOrder: bool) {
    && 0 <= f < |before| && 0 <= t < |before| && f != t && count <= |before[f]|
    && |after| == |before|
    && after[f] == before[f][..|before[f]| - count]
    && after[t] == before[t] + Carried(before[f], count, preserveOrder)
    && forall i :: 0 <= i < |before| && i != f && i != t ==> after[i] == before[i]
  }

  /** A move between two different stacks does exactly that. */
  lemma MoveBetween(stacks: seq<seq<char>>, m: Move, preserveOrder: bool, r: seq<seq<char>>)
    requires DoMove(stacks, m, preserveOrder) == Ok(r) && m.from != m.to
    ensures MovedBetween(stacks, r, m.from - 1, m.to - 1, m.count, preserveOrder)
  {
    var f, t := m.from - 1, m.to - 1;
    assert r == Carry(stacks, f, t, m.count, preserveOrder);
    CarryFrom(stacks, f, t, m.count, preserveOrder);
    CarryTo(stacks, f, t, m.count, preserveOrder);
    CarryOthers(stacks, f, t, m.count, preserveOrder);
  }

  /** What is left on the stack the block comes from. */
  lemma CarryFrom(stacks: seq<seq<char>>, f: nat, t: nat, count: nat, preserveOrder: bool)
    requires f < |stacks| && t < |stacks| && count <= |stacks[f]| && f != t
    ensures |Carry(stacks, f, t, count, preserveOrder)| == |stacks|
    ensures Carry(stacks, f, t, count, preserveOrder)[f] == stacks[f][..|stacks[f]| - count]
  {
  }

  /** The stack the block lands on. */
  lemma CarryTo(stacks: seq<seq<char>>, f: nat, t: nat, count: nat, preserveOrder: bool)
    requires f < |stacks| && t < |stacks| && count <= |stacks[f]|
    ensures |Carry(stacks, f, t, count, preserveOrder)| == |stacks|
    ensures Carry(stacks, f, t, count, preserveOrder)[t]
         == (if f == t then stacks[f][..|stacks[f]| - count] else stacks[t]) + Carried(stacks[f], count, preserveOrder)
  {
  }

  /** Every stack the move does not touch. */
  lemma CarryOthers(stacks: seq<seq<char>>, f: nat, t: nat, count: nat, preserveOrder: bool)
    requires f < |stacks| && t < |stacks| && count <= |stacks[f]|
    ensures |Carry(stacks, f, t, count, preserveOrder)| == |stacks|
    ensures forall i :: 0 <= i < |stacks| && i != f && i != t ==> Carry(stacks, f, t, count, preserveOrder)[i] == stacks[i]
  {
  }

  /** Stack by stack is the same as the source's two steps: shorten stack
      `f`, then append the block to stack `t` of the result. */
  lemma CarryAsUpdates(stacks: seq<seq<char>>, f: nat, t: nat, count: nat, preserveOrder: bool)
    requires f < |stacks| && t < |stacks| && count <= |stacks[f]|
    ensures var taken := stacks[f := stacks[f][..|stacks[f]| - count]];
      Carry(stacks, f, t, count, preserveOrder) == taken[t := taken[t] + Carried(stacks[f], count, preserveOrder)]
  {
    var taken := stacks[f := stacks[f][..|stacks[f]| - count]];
    CarryTo(stacks, f, t, count, preserveOrder);
    CarryOthers(stacks, f, t, count, preserveOrder);
    if f != t {
      CarryFrom(stacks, f, t, count, preserveOrder);
    }
    SameStacks(Carry(stacks, f, t, count, preserveOrder), taken[t := taken[t] + Carried(stacks[f], count, preserveOrder)]);
  }

  /** A move onto the stack it comes from puts the block back: unchanged
      when the order is kept, its top `count` crates reversed otherwise. */
  lemma MoveOntoItself(stacks: seq<seq<char>>, m: Move, preserveOrder: bool, r: seq<seq<char>>)
    requires DoMove(stacks, m, preserveOrder) == Ok(r) && m.from == m.to
    ensures var source := stacks[m.from - 1];
      && |r| == |stacks|
      && r[m.from - 1] == source[..|source| - m.count] + Carried(source, m.count, preserveOrder)
      && (preserveOrder ==> r == stacks)
      && forall i :: 0 <= i < |stacks| && i != m.from - 1 ==> r[i] == stacks[i]
  {
    var f := m.from - 1;
    var source := stacks[f];
    assert r == Carry(stacks, f, f, m.count, preserveOrder);
    CarryTo(stacks, f, f, m.count, preserveOrder);
    CarryOthers(stacks, f, f, m.count, preserveOrder);
    if preserveOrder {
      PutBack(source, m.count);
      SameStacks(r, stacks);
    }
  }

  /** Taking the top `count` crates off and putting them back in order
      leaves the stack as it was. */
  lemma PutBack(source: seq<char>, count: nat)
    requires count <= |source|
    ensures source[..|source| - count] + Carried(source, count, true) == source
  {
    assert source[..|source| - count] + source[|source| - count..] == source;
  }

  /** Two lists of stacks that agree stack by stack are equal. */
  lemma SameStacks(a: seq<seq<char>>, b: seq<seq<char>>)
    requires |a| == |b| && forall i :: 0 <= i < |a| ==> a[i] == b[i]
    ensures a == b
  {
  }

  /** The number of crates on all stacks. */
  function CrateCount(stacks: seq<seq<char>>): nat
    decreases |stacks|
  {
    if |stacks| == 0 then 0 else |stacks[0]| + CrateCount(stacks[1..])
  }

  /** Replacing one stack changes the count by the difference in height. */
  lemma {:induction false} CountUpdate(stacks: seq<seq<char>>, i: nat, s: seq<char>)
    requires i < |stacks|
    ensures CrateCount(stacks[i := s]) + |stacks[i]| == CrateCount(stacks) + |s|
    decreases |stacks|
  {
    if i > 0 {
      assert stacks[i := s][1..] == stacks[1..][i - 1 := s];
      CountUpdate(stacks[1..], i - 1, s);
    }
  }

  /** A move neither creates nor destroys crates. */
  lemma MoveKeepsCount(stacks: seq<seq<char>>, m: Move, preserveOrder: bool)
    requires DoMove(stacks, m, preserveOrder).Ok?
    ensures CrateCount(DoMove(stacks, m, preserveOrder).value) == CrateCount(stacks)
  {
    var f, t := m.from - 1, m.to - 1;
    assert 0 <= f < |stacks| && 0 <= t < |stacks| && m.count <= |stacks[f]|;
    CarryKeepsCount(stacks, f, t, m.count, preserveOrder);
  }

  /** The count through the two steps of a carry: the source stack loses
      `count` crates, the destination gains them. */
  lemma CarryKeepsCount(stacks: seq<seq<char>>, f: nat, t: nat, count: nat, preserveOrder: bool)
    requires f < |stacks| && t < |stacks| && count <= |stacks[f]|
    ensures CrateCount(Carry(stacks, f, t, count, preserveOrder)) == CrateCount(stacks)
  {
    var source := stacks[f];
    var taken := stacks[f := source[..|source| - count]];
    CarryAsUpdates(stacks, f, t, count, preserveOrder);
    CountUpdate(stacks, f, source[..|source| - count]);
    CountUpdate(taken, t, taken[t] + Carried(source, count, preserveOrder));
  }

  /** Moving the same number of crates straight back, with the same crane,
      restores every stack: the carried block is reversed twice or not at
      all. */
  lemma MoveBack(stacks: seq<seq<char>>, m: Move, preserveOrder: bool, r: seq<seq<char>>)
    requires DoMove(stacks, m, preserveOrder) == Ok(r) && m.from != m.to
    ensures DoMove(r, Move(m.count, m.to, m.from), preserveOrder) == Ok(stacks)
  {
    MoveBetween(stacks, m, preserveOrder, r);
    ReturnTrip(stacks, r, m.from - 1, m.to - 1, Move(m.count, m.to, m.from), preserveOrder);
  }

  /** The move back, once the first move is known to be a carry. */
  lemma ReturnTrip(stacks: seq<seq<char>>, r: seq<seq<char>>, f: int, t: int, back: Move, preserveOrder: bool)
    requires MovedBetween(stacks, r, f, t, back.count, preserveOrder)
    requires back.from == t + 1 && back.to == f + 1
    ensures DoMove(r, back, preserveOrder) == Ok(stacks)
  {
    CanMoveBack(stacks, r, f, t, back, preserveOrder);
    var restored := DoMove(r, back, preserveOrder).value;
    MoveBetween(r, back, preserveOrder, restored);
    Restored(stacks, r, restored, f, t, back.count, preserveOrder);
  }

  /** After a move the destination holds at least the crates carried, so
      the same number can go back. */
  lemma CanMoveBack(stacks: seq<seq<char>>, r: seq<seq<char>>, f: int, t: int, back: Move, preserveOrder: bool)
    requires MovedBetween(stacks, r, f, t, back.count, preserveOrder)
    requires back.from == t + 1 && back.to == f + 1
    ensures DoMove(r, back, preserveOrder).Ok?
  {
  }

  /** Carrying a block over and the same number of crates back leaves the
      stacks as they were. */
  lemma Restored(stacks: seq<seq<char>>, r: seq<seq<char>>, restored: seq<seq<char>>, f: int, t: int, count: nat, preserveOrder: bool)
    requires MovedBetween(stacks, r, f, t, count, preserveOrder)
    requires MovedBetween(r, restored, t, f, count, preserveOrder)
    ensures restored == stacks
  {
    var source := stacks[f];
    CarriedBack(stacks[t], source, count, preserveOrder);
    assert restored[f] == source by {
      assert source[..|source| - count] + source[|source| - count..] == source;
    }
    SameStacks(restored, stacks);
  }

  /** Carrying a carried block back off the top of a stack gives the
      original block in its original order, and leaves the stack as it
      was. */
  lemma CarriedBack(dest: seq<char>, source: seq<char>, count: nat, preserveOrder: bool)
    requires count <= |source|
    ensures var grown := dest + Carried(source, count, preserveOrder);
      && Carried(grown, count, preserveOrder) == source[|source| - count..]
      && grown[..|grown| - count] == dest
  {
    var grown := dest + Carried(source, count, preserveOrder);
    assert grown[|grown| - count..] == Carried(source, count, preserveOrder);
    if !preserveOrder {
      var block := source[|source| - count..];
      assert Reverse(Reverse(block)) == block;
    }
  }

  /** `n` moves of one crate each from `from` to `to`. */
  function OneByOne(stacks: seq<seq<char>>, n: nat, from: nat, to: nat): Result<seq<seq<char>>, CrateError>
    decreases n
  {
    if n == 0 then Ok(stacks)
    else
      var next :- DoMove(stacks, Move(1, from, to), false);
      OneByOne(next, n - 1, from, to)
  }

  /** The older crane's reversed block is what lifting the crates one at a
      time gives, between two different stacks: both succeed on the same
      moves and then leave the same stacks. */
  lemma OlderCraneLiftsOneByOne(stacks: seq<seq<char>>, m: Move)
    requires ValidStack(stacks, m.from) && ValidStack(stacks, m.to) && m.from != m.to
    ensures OneByOne(stacks, m.count, m.from, m.to).Ok? == DoMove(stacks, m, false).Ok?
    ensures DoMove(stacks, m, false).Ok? ==> OneByOne(stacks, m.count, m.from, m.to) == DoMove(stacks, m, false)
  {
    OneByOneMoves(stacks, m.count, m.from, m.to);
    if DoMove(stacks, m, false).Ok? {
      var whole := DoMove(stacks, m, false).value;
      MoveBetween(stacks, m, false, whole);
      MovedUnique(stacks, OneByOne(stacks, m.count, m.from, m.to).value, whole, m.from - 1, m.to - 1, m.count, false);
    }
  }

  /** Lifting `n` crates one at a time succeeds exactly when the source
      stack holds `n`, and then carries them as one reversed block. */
  lemma {:induction false} OneByOneMoves(stacks: seq<seq<char>>, n: nat, from: nat, to: nat)
    requires ValidStack(stacks, from) && ValidStack(stacks, to) && from != to
    ensures OneByOne(stacks, n, from, to).Ok? <==> n <= |stacks[from - 1]|
    ensures OneByOne(stacks, n, from, to).Ok? ==>
      MovedBetween(stacks, OneByOne(stacks, n, from, to).value, from - 1, to - 1, n, false)
    decreases n
  {
    if n == 0 {
      NothingMoved(stacks, from - 1, to - 1);
    } else if |stacks[from - 1]| > 0 {
      var next := FirstLift(stacks, n, from, to);
      OneByOneMoves(next, n - 1, from, to);
      if n <= |stacks[from - 1]| {
        ThenMore(stacks, next, OneByOne(next, n - 1, from, to).value, from - 1, to - 1, n);
      }
    } else {
      assert DoMove(stacks, Move(1, from, to), false).Err?;
    }
  }

  /** The first of `n` one-crate moves, from a stack that has a crate. */
  lemma FirstLift(stacks: seq<seq<char>>, n: nat, from: nat, to: nat) returns (next: seq<seq<char>>)
    requires ValidStack(stacks, from) && ValidStack(stacks, to) && from != to
    requires n > 0 && |stacks[from - 1]| > 0
    ensures MovedBetween(stacks, next, from - 1, to - 1, 1, false)
    ensures ValidStack(next, from) && ValidStack(next, to)
    ensures OneByOne(stacks, n, from, to) == OneByOne(next, n - 1, from, to)
  {
    next := DoMove(stacks, Move(1, from, to), false).value;
    MoveBetween(stacks, Move(1, from, to), false, next);
  }

  /** Carrying no crates leaves every stack as it was. */
  lemma NothingMoved(stacks: seq<seq<char>>, f: int, t: int)
    requires 0 <= f < |stacks| && 0 <= t < |stacks| && f != t
    ensures MovedBetween(stacks, stacks, f, t, 0, false)
  {
    assert stacks[f][..|stacks[f]|] == stacks[f];
    assert Carried(stacks[f], 0, false) == [];
    assert stacks[t] + [] == stacks[t];
  }

  /** One crate carried and then `n - 1` more, between the same two stacks,
      is `n` carried at once by the older crane. */
  lemma ThenMore(stacks: seq<seq<char>>, next: seq<seq<char>>, result: seq<seq<char>>, f: int, t: int, n: nat)
    requires n > 0
    requires MovedBetween(stacks, next, f, t, 1, false)
    requires MovedBetween(next, result, f, t, n - 1, false)
    ensures MovedBetween(stacks, result, f, t, n, false)
  {
    OneThenRest(stacks[t], stacks[f], n);
  }

  /** A move's outcome is determined: two results of the same carry are
      equal. */
  lemma MovedUnique(stacks: seq<seq<char>>, a: seq<seq<char>>, b: seq<seq<char>>, f: int, t: int, count: nat, preserveOrder: bool)
    requires MovedBetween(stacks, a, f, t, count, preserveOrder)
    requires MovedBetween(stacks, b, f, t, count, preserveOrder)
    ensures a == b
  {
    SameStacks(a, b);
  }

  /** On the two stacks involved: lifting the top crate and then `n - 1`
      more leaves what lifting `n` at once leaves. */
  lemma OneThenRest(dest: seq<char>, source: seq<char>, n: nat)
    requires 1 <= n <= |source|
    ensures var below := source[..|source| - 1];
      && below[..|below| - (n - 1)] == source[..|source| - n]
      && dest + Carried(source, 1, false) + Carried(below, n - 1, false) == dest + Carried(source, n, false)
  {
    var below := source[..|source| - 1];
    ReverseTop(source, n);
    assert Carried(source, 1, false) == [source[|source| - 1]];
  }

  /** The reversed top `n` of a stack: its top crate, then the reversed top
      `n - 1` of what lies below it. */
  lemma ReverseTop(source: seq<char>, n: nat)
    requires 1 <= n <= |source|
    ensures var below := source[..|source| - 1];
      Reverse(source[|source| - n..]) == [source[|source| - 1]] + Reverse(below[|below| - (n - 1)..])
  {
    var below := source[..|source| - 1];
    var block := source[|source| - n..];
    var rest := below[|below| - (n - 1)..];
    assert forall i :: 0 <= i < n - 1 ==> rest[i] == block[i];
  }

  /** Lifting one crate at a time onto the same stack changes nothing, but
      the source's single `do_move` reverses the top of the stack. */
  lemma SameStackDiffers()
    ensures OneByOne([['A', 'B']], 2, 1, 1) == Ok([['A', 'B']])
    ensures DoMove([['A', 'B']], Move(2, 1, 1), false) == Ok([['B', 'A']])
  {
    var ab := ['A', 'B'];
    assert ab[..1] == ['A'] && ab[1..] == ['B'] && ab[..0] == [] && ab[0..] == ab;
    assert Reverse(['B']) == ['B'] && Reverse(ab) == ['B', 'A'];
    var once := DoMove([ab], Move(1, 1, 1), false).value;
    MoveOntoItself([ab], Move(1, 1, 1), false, once);
    assert once[0] == ['A'] + ['B'] == ab;
    SameStacks(once, [ab]);
    assert OneByOne([ab], 1, 1, 1) == Ok([ab]);
    var twice := DoMove([ab], Move(2, 1, 1), false).value;
    MoveOntoItself([ab], Move(2, 1, 1), false, twice);
    assert twice[0] == [] + ['B', 'A'];
    SameStacks(twice, [['B', 'A']]);
  }

  /** `top_letters`: the top crate of every stack; an empty stack panics. */
  function TopLetters(stacks: seq<seq<char>>): (r: Result<string, CrateError>)
    ensures r.Ok? <==> forall i :: 0 <= i < |stacks| ==> |stacks[i]| > 0
    ensures r.Ok? ==> (|r.value| == |stacks|
      && forall i :: 0 <= i < |stacks| ==> r.value[i] == stacks[i][|stacks[i]| - 1])
    ensures r.Err? ==> (r.error.EmptyStack? && r.error.index < |stacks| && |stacks[r.error.index]| == 0
      && forall i :: 0 <= i < r.error.index ==> |stacks[i]| > 0)
    decreases |stacks|
  {
    if |stacks| == 0 then Ok([])
    else if |stacks[0]| == 0 then Err(EmptyStack(0))
    else
      match TopLetters(stacks[1..])
      case Err(e) => Err(EmptyStack(e.index + 1))
      case Ok(rest) => Ok([stacks[0][|stacks[0]| - 1]] + rest)
  }

  /** After a move of at least one crate between two stacks, the new top of
      the destination is the old top of the source with the newer crane,
      and the deepest moved crate with the older one. */
  lemma TopAfterMove(stacks: seq<seq<char>>, r: seq<seq<char>>, f: int, t: int, count: nat, preserveOrder: bool)
    requires MovedBetween(stacks, r, f, t, count, preserveOrder) && count > 0
    ensures |r[t]| > 0
    ensures r[t][|r[t]| - 1]
         == if preserveOrder then stacks[f][|stacks[f]| - 1] else stacks[f][|stacks[f]| - count]
  {
    var carried := Carried(stacks[f], count, preserveOrder);
    assert r[t][|r[t]| - 1] == carried[count - 1];
  }

  /** The moves of `main`, applied in order; the first failing move
      panics. */
  function RunMoves(stacks: seq<seq<char>>, moves: seq<Move>, preserveOrder: bool): Result<seq<seq<char>>, CrateError>
    decreases |moves|
  {
    if |moves| == 0 then Ok(stacks)
    else
      var next :- DoMove(stacks, moves[0], preserveOrder);
      RunMoves(next, moves[1..], preserveOrder)
  }

  /** However many moves run, the crates are all still there. */
  lemma {:induction false} RunMovesKeepsCount(stacks: seq<seq<char>>, moves: seq<Move>, preserveOrder: bool)
    requires RunMoves(stacks, moves, preserveOrder).Ok?
    ensures CrateCount(RunMoves(stacks, moves, preserveOrder).value) == CrateCount(stacks)
    ensures |RunMoves(stacks, moves, preserveOrder).value| == |stacks|
    decreases |moves|
  {
    if |moves| > 0 {
      MoveKeepsCount(stacks, moves[0], preserveOrder);
      RunMovesKeepsCount(DoMove(stacks, moves[0], preserveOrder).value, moves[1..], preserveOrder);
    }
  }

  // ---------------------------------------------------------------------------
  // The drawing of the starting stacks

  /** The character a row shows in column `col` (at `4 * col + 1`), if the
      row is long enough and the character is not a space. */
  function CellAt(row: string, col: nat): Option<char> {
    var idx := col * 4 + 1;
    if idx >= |row| || row[idx] == ' ' then None else Some(row[idx])
  }

  /** One stack read from the rows bottom-up: the crates of column `col`. */
  function ReadColumn(rowsBottomUp: seq<string>, col: nat): seq<char>
    decreases |rowsBottomUp|
  {
    if |rowsBottomUp| == 0 then []
    else
      var rest := ReadColumn(rowsBottomUp[..|rowsBottomUp| - 1], col);
      match CellAt(rowsBottomUp[|rowsBottomUp| - 1], col)
      case None => rest
      case Some(c) => rest + [c]
  }

  function ReverseRows(rows: seq<string>): (r: seq<string>)
    ensures |r| == |rows| && forall i :: 0 <= i < |rows| ==> r[i] == rows[|rows| - 1 - i]
  {
    seq(|rows|, i requires 0 <= i < |rows| => rows[|rows| - 1 - i])
  }

  /** `Crates::from_str` on the lines of the drawing: the last line holds the
      stack numbers and fixes the number of stacks, `(length + 2) / 4`; the
      rows above it are read bottom-up. A line list is never empty, since
      splitting a string always yields at least one piece. */
  function ParseDrawing(lines: seq<string>): (stacks: seq<seq<char>>)
    requires |lines| > 0
    ensures |stacks| == (|lines[|lines| - 1]| + 2) / 4
  {
    var rows := lines[..|lines| - 1];
    seq((|lines[|lines| - 1]| + 2) / 4, col requires 0 <= col => ReadColumn(ReverseRows(rows), col))
  }

  // The inverse: drawing stacks the way the puzzle input does.

  predicate Letters(stacks: seq<seq<char>>) {
    forall i, j :: 0 <= i < |stacks| && 0 <= j < |stacks[i]| ==> stacks[i][j] != ' '
  }

  function Height(stacks: seq<seq<char>>): (h: nat)
    ensures forall i :: 0 <= i < |stacks| ==> |stacks[i]| <= h
    decreases |stacks|
  {
    if |stacks| == 0 then 0
    else
      var rest := Height(stacks[1..]);
      assert forall i :: 1 <= i < |stacks| ==> stacks[i] == stacks[1..][i - 1];
      if |stacks[0]| > rest then |stacks[0]| else rest
  }

  /** One cell of the drawing: `[X]` for a crate, three spaces for none. */
  function Cell(stack: seq<char>, level: nat): string {
    if level < |stack| then ['[', stack[level], ']'] else "   "
  }

  /** The row of the drawing at height `level` (0 = bottom): cells joined
      by single spaces. */
  function Row(stacks: seq<seq<char>>, level: nat): (row: string)
    ensures |row| == if |stacks| == 0 then 0 else 4 * |stacks| - 1
    decreases |stacks|
  {
    if |stacks| == 0 then []
    else if |stacks| == 1 then Cell(stacks[0], level)
    else Cell(stacks[0], level) + " " + Row(stacks[1..], level)
  }

  /** The label line: ` 1 `, ` 2 `, … joined by single spaces (the last
      digit of each number). */
  function Labels(n: nat, first: nat): (line: string)
    ensures |line| == if n == 0 then 0 else 4 * n - 1
    decreases n
  {
    if n == 0 then []
    else
      var number := [' ', (('0' as int) + first % 10) as char, ' '];
      if n == 1 then number else number + " " + Labels(n - 1, first + 1)
  }

  /** The drawing: rows from the top down, then the label line. */
  function Draw(stacks: seq<seq<char>>): (lines: seq<string>)
    ensures |lines| == Height(stacks) + 1
  {
    var h := Height(stacks);
    seq(h, r requires 0 <= r < h => Row(stacks, h - 1 - r)) + [Labels(|stacks|, 1)]
  }

  /** Column `col` of a row shows the crate at that height, if any. */
  lemma {:induction false} RowCell(stacks: seq<seq<char>>, level: nat, col: nat)
    requires col < |stacks| && Letters(stacks)
    ensures CellAt(Row(stacks, level), col)
         == if level < |stacks[col]| then Some(stacks[col][level]) else None
    decreases |stacks|
  {
    var cell := Cell(stacks[0], level);
    if col == 0 {
      assert level < |stacks[0]| ==> stacks[0][level] != ' ';
      if |stacks| == 1 {
        FirstCell(cell, []);
        assert cell + [] == cell;
      } else {
        FirstCell(cell, " " + Row(stacks[1..], level));
      }
    } else {
      LettersTail(stacks);
      RowCell(stacks[1..], level, col - 1);
      CellAtShift(cell, Row(stacks[1..], level), col);
    }
  }

  /** The first cell of a row decides what column 0 shows. */
  lemma FirstCell(cell: string, rest: string)
    requires |cell| == 3
    ensures CellAt(cell + rest, 0) == if cell[1] == ' ' then None else Some(cell[1])
  {
  }

  /** Past the first cell and its separator, a row reads like the rest of
      the row one column further left. */
  lemma CellAtShift(cell: string, tail: string, col: nat)
    requires |cell| == 3 && col > 0
    ensures CellAt(cell + " " + tail, col) == CellAt(tail, col - 1)
  {
    var row := cell + " " + tail;
    assert (col - 1) * 4 + 1 + 4 == col * 4 + 1;
    if (col - 1) * 4 + 1 < |tail| {
      assert row[col * 4 + 1] == tail[(col - 1) * 4 + 1];
    }
  }

  lemma LettersTail(stacks: seq<seq<char>>)
    requires |stacks| > 0 && Letters(stacks)
    ensures Letters(stacks[1..])
  {
    forall i, j | 0 <= i < |stacks| - 1 && 0 <= j < |stacks[1..][i]|
      ensures stacks[1..][i][j] != ' '
    {
      assert stacks[1..][i] == stacks[i + 1];
    }
  }

  /** Reading column `col` over the bottom `levels` rows of the drawing
      gives the crates of that stack below `levels`. */
  lemma {:induction false} ReadColumnLevels(stacks: seq<seq<char>>, rows: seq<string>, col: nat, levels: nat)
    requires col < |stacks| && Letters(stacks)
    requires levels <= |rows| && forall l :: 0 <= l < |rows| ==> rows[l] == Row(stacks, l)
    ensures ReadColumn(rows[..levels], col) == stacks[col][..if levels < |stacks[col]| then levels else |stacks[col]|]
    decreases levels
  {
    if levels > 0 {
      var stack := stacks[col];
      ReadColumnLevels(stacks, rows, col, levels - 1);
      RowCell(stacks, levels - 1, col);
      ReadColumnSnoc(rows, col, levels);
      if levels - 1 < |stack| {
        TakeOneMore(stack, levels - 1);
      }
    }
  }

  lemma TakeOneMore(s: seq<char>, k: nat)
    requires k < |s|
    ensures s[..k + 1] == s[..k] + [s[k]]
  {
  }

  /** One more row on top adds that row's crate in the column, if any, to
      the top of the stack read so far. */
  lemma ReadColumnSnoc(rows: seq<string>, col: nat, levels: nat)
    requires 0 < levels <= |rows|
    ensures var cell := CellAt(rows[levels - 1], col);
      ReadColumn(rows[..levels], col)
        == ReadColumn(rows[..levels - 1], col) + (if cell.Some? then [cell.value] else [])
  {
    assert rows[..levels][..levels - 1] == rows[..levels - 1];
  }

  /** Drawing the stacks and reading the drawing back gives the same
      stacks, provided no crate is a space. */
  lemma ParseDraw(stacks: seq<seq<char>>)
    requires Letters(stacks)
    ensures ParseDrawing(Draw(stacks)) == stacks
  {
    var lines := Draw(stacks);
    var h := Height(stacks);
    var up := ReverseRows(lines[..|lines| - 1]);
    DrawRowsUp(stacks, lines, up);
    LabelsWidth(|stacks|, lines[|lines| - 1]);
    var parsed := ParseDrawing(lines);
    forall col | 0 <= col < |stacks|
      ensures parsed[col] == stacks[col]
    {
      assert parsed[col] == ReadColumn(up, col);
      ReadColumnLevels(stacks, up, col, h);
      assert up[..h] == up;
    }
    SameStacks(parsed, stacks);
  }

  /** Read bottom-up, the rows of the drawing are the rows at heights 0, 1,
      … below the tallest stack. */
  lemma DrawRowsUp(stacks: seq<seq<char>>, lines: seq<string>, up: seq<string>)
    requires lines == Draw(stacks) && up == ReverseRows(lines[..|lines| - 1])
    ensures |up| == Height(stacks)
    ensures forall l :: 0 <= l < |up| ==> up[l] == Row(stacks, l)
  {
    var h := Height(stacks);
    forall l | 0 <= l < h ensures up[l] == Row(stacks, l) {
      assert up[l] == lines[h - 1 - l];
    }
  }

  /** The label line is as wide as the rows, which fixes the number of
      stacks read back. */
  lemma LabelsWidth(n: nat, line: string)
    requires line == Labels(n, 1)
    ensures (|line| + 2) / 4 == n
  {
  }
}
