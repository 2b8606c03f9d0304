/** Snailfish numbers (`y2021/src/d18/mod.rs`): binary trees whose leaves hold
    numbers, written `[left,right]`. Reducing a number repeatedly explodes the
    leftmost pair nested four deep, or, when there is none, splits the
    leftmost leaf of 10 or more. The source's `u32` leaves are unbounded
    natural numbers here. */
module Snailfish {
  import opened Wrappers

  datatype Tree = Leaf(value: nat) | Pair(left: Tree, right: Tree)

  datatype Direction = Left | Right

  /** What a call of `explode` reports to its parent. */
  datatype ExplodeResult =
    | ExplodeParent(replacement: nat, leftValue: nat, rightValue: nat)  // this pair explodes
    | ExplodeTraverse(value: nat, direction: Direction)  // `value` still goes to the nearest leaf that way
    | DidWork                                           // an explosion finished below
    | Nothing                                           // nothing to explode

  datatype SnailError =
    | NestedTooDeep       // a pair four deep holds a pair: `panic!`
    | BadCharacter(c: char)
    | MissingCharacter    // the text ended early: `unwrap()` on `None`
    | ExpectedComma
    | ExpectedClose
    | NotAPair            // the whole text is a single number
    | OutOfFuel

  function Size(t: Tree): nat {
    match t
    case Leaf(_) => 1
    case Pair(l, r) => 1 + Size(l) + Size(r)
  }

  /** The leaves from left to right. */
  function Leaves(t: Tree): (r: seq<nat>)
    ensures |r| >= 1
  {
    match t
    case Leaf(v) => [v]
    case Pair(l, r) => Leaves(l) + Leaves(r)
  }

  function Sum(s: seq<nat>): nat {
    if |s| == 0 then 0 else s[0] + Sum(s[1..])
  }

  // ---------------------------------------------------------------------------
  // Parsing and printing

  /** `[left,right]`, as the `Debug` implementation writes it. */
  function Show(t: Tree): string
    requires Digits(t)
  {
    match t
    case Leaf(v) => [DigitChar(v)]
    case Pair(l, r) => "[" + Show(l) + "," + Show(r) + "]"
  }

  /** Every leaf is a single decimal digit, as the parser demands. */
  predicate Digits(t: Tree) {
    match t
    case Leaf(v) => v <= 9
    case Pair(l, r) => Digits(l) && Digits(r)
  }

  function DigitChar(v: nat): char
    requires v <= 9
  {
    (v + '0' as int) as char
  }

  /** `parse_inner` on the text from position `at` on (the source passes the
      remaining slice): how many characters the number there takes, and the
      number. Only single digits are numbers. */
  function ParseInner(s: string, at: nat): (r: Result<(nat, Tree), SnailError>)
    requires at <= |s|
    ensures r.Ok? ==> 1 <= r.value.0 <= |s| - at
    decreases |s| - at, 1
  {
    if at == |s| then Err(MissingCharacter)
    else if '0' <= s[at] <= '9' then Ok((1, Leaf(s[at] as int - '0' as int)))
    else if s[at] != '[' then Err(BadCharacter(s[at]))
    else ParsePairFrom(s, at)
  }

  /** The rest of `parse_inner` after an opening bracket at `at`: a number, a
      comma, a number and the closing bracket. */
  function ParsePairFrom(s: string, at: nat): (r: Result<(nat, Tree), SnailError>)
    requires at < |s|
    ensures r.Ok? ==> 3 <= r.value.0 <= |s| - at
    decreases |s| - at, 0
  {
    var first := ParseInner(s, at + 1);
    if first.Err? then Err(first.error)
    else
      var comma := at + 1 + first.value.0;
      if comma == |s| then Err(MissingCharacter)
      else if s[comma] != ',' then Err(ExpectedComma)
      else
        var second := ParseInner(s, comma + 1);
        if second.Err? then Err(second.error)
        else
          var close := comma + 1 + second.value.0;
          if close == |s| then Err(MissingCharacter)
          else if s[close] != ']' then Err(ExpectedClose)
          else Ok((3 + first.value.0 + second.value.0, Pair(first.value.1, second.value.1)))
  }

  /** `parse`: the text must start with a pair. Characters after it are
      ignored, as in the source. */
  function Parse(s: string): (r: Result<Tree, SnailError>)
    ensures r.Ok? ==> r.value.Pair?
  {
    var (_, t) :- ParseInner(s, 0);
    if t.Pair? then Ok(t) else Err(NotAPair)
  }

  /** Reading back a printed number takes exactly its characters and gives
      the number, whatever surrounds it. */
  lemma ParseShow(t: Tree, s: string, at: nat)
    requires Digits(t) && at + |Show(t)| <= |s| && s[at..at + |Show(t)|] == Show(t)
    ensures ParseInner(s, at) == Ok((|Show(t)|, t))
  {
    ShowPrintedAt(t, s, at);
    ParsePrintedAt(t, s, at);
  }

  /** How many characters `t` takes when printed. */
  function PrintedLength(t: Tree): nat {
    match t
    case Leaf(_) => 1
    case Pair(l, r) => 3 + PrintedLength(l) + PrintedLength(r)
  }

  /** The text holds `t`, printed, from position `at` on. */
  predicate PrintedAt(s: string, at: nat, t: Tree)
    decreases t
  {
    match t
    case Leaf(v) => v <= 9 && at < |s| && s[at] == DigitChar(v)
    case Pair(l, r) =>
      && at + PrintedLength(t) <= |s|
      && s[at] == '['
      && PrintedAt(s, at + 1, l)
      && s[at + 1 + PrintedLength(l)] == ','
      && PrintedAt(s, at + 2 + PrintedLength(l), r)
      && s[at + 2 + PrintedLength(l) + PrintedLength(r)] == ']'
  }

  /** The printed text of `t` placed in `s` at `at` lays `t` out there. */
  lemma ShowPrintedAt(t: Tree, s: string, at: nat)
    requires Digits(t) && at + |Show(t)| <= |s| && s[at..at + |Show(t)|] == Show(t)
    ensures PrintedAt(s, at, t) && PrintedLength(t) == |Show(t)|
  {
    var w := Show(t);
    forall k | 0 <= k < |w|
      ensures s[at + k] == w[k]
    {
      assert s[at + k] == s[at..at + |w|][k];
    }
    LaidOut(t, s, at);
  }

  /** The same, from the characters one by one. */
  lemma {:induction false} LaidOut(t: Tree, s: string, at: nat)
    requires Digits(t) && at + |Show(t)| <= |s|
    requires forall k :: 0 <= k < |Show(t)| ==> s[at + k] == Show(t)[k]
    ensures PrintedAt(s, at, t) && PrintedLength(t) == |Show(t)|
    decreases t, 1
  {
    match t
    case Leaf(v) =>
      assert s[at + 0] == Show(t)[0];
    case Pair(l, r) =>
      BracketText(s, at, Show(l), Show(r), Show(t));
      LaidOutPair(l, r, s, at);
  }

  /** The pieces of `[sl,sr]` laid out at `at`: the brackets, the comma
      and both halves in their places. */
  lemma BracketText(s: string, at: nat, sl: string, sr: string, w: string)
    requires w == "[" + sl + "," + sr + "]"
    requires at + |w| <= |s| && forall k :: 0 <= k < |w| ==> s[at + k] == w[k]
    ensures at + 3 + |sl| + |sr| <= |s|
    ensures s[at] == '[' && s[at + 1 + |sl|] == ',' && s[at + 2 + |sl| + |sr|] == ']'
    ensures forall k :: 0 <= k < |sl| ==> s[at + 1 + k] == sl[k]
    ensures forall k :: 0 <= k < |sr| ==> s[at + 2 + |sl| + k] == sr[k]
  {
    BracketLayout(sl, sr);
    assert s[at + 0] == w[0];
    assert s[at + (1 + |sl|)] == w[1 + |sl|];
    assert s[at + (2 + |sl| + |sr|)] == w[2 + |sl| + |sr|];
    Shifted(s, at, w, 1, sl);
    Shifted(s, at, w, 2 + |sl|, sr);
  }

  /** A piece of a text laid out at `at` sits at its own offset from `at`. */
  lemma Shifted(s: string, at: nat, whole: string, off: nat, part: string)
    requires at + |whole| <= |s| && forall k :: 0 <= k < |whole| ==> s[at + k] == whole[k]
    requires off + |part| <= |whole| && forall k :: 0 <= k < |part| ==> whole[off + k] == part[k]
    ensures forall k :: 0 <= k < |part| ==> s[at + off + k] == part[k]
  {
    forall k | 0 <= k < |part| ensures s[at + off + k] == part[k] {
      assert s[at + (off + k)] == whole[off + k];
    }
  }

  /** The pair case of `LaidOut`, from where the brackets, the comma and the
      characters of both halves sit. */
  lemma {:induction false} LaidOutPair(l: Tree, r: Tree, s: string, at: nat)
    requires Digits(l) && Digits(r) && at + 3 + |Show(l)| + |Show(r)| <= |s|
    requires s[at] == '[' && s[at + 1 + |Show(l)|] == ',' && s[at + 2 + |Show(l)| + |Show(r)|] == ']'
    requires forall k :: 0 <= k < |Show(l)| ==> s[at + 1 + k] == Show(l)[k]
    requires forall k :: 0 <= k < |Show(r)| ==> s[at + 2 + |Show(l)| + k] == Show(r)[k]
    ensures PrintedAt(s, at, Pair(l, r)) && PrintedLength(Pair(l, r)) == 3 + |Show(l)| + |Show(r)|
    decreases Pair(l, r), 0
  {
    LaidOut(l, s, at + 1);
    LaidOut(r, s, at + 2 + |Show(l)|);
    PrintedPair(l, r, s, at);
  }

  /** A pair is printed where its brackets, its comma and both halves are. */
  lemma PrintedPair(l: Tree, r: Tree, s: string, at: nat)
    requires at + 3 + PrintedLength(l) + PrintedLength(r) <= |s|
    requires s[at] == '[' && PrintedAt(s, at + 1, l) && s[at + 1 + PrintedLength(l)] == ','
    requires PrintedAt(s, at + 2 + PrintedLength(l), r)
    requires s[at + 2 + PrintedLength(l) + PrintedLength(r)] == ']'
    ensures PrintedAt(s, at, Pair(l, r))
  {
  }

  /** Where the characters of `[sl,sr]` come from. */
  lemma BracketLayout(sl: string, sr: string)
    ensures var w := "[" + sl + "," + sr + "]";
      && |w| == 3 + |sl| + |sr|
      && w[0] == '[' && w[1 + |sl|] == ',' && w[2 + |sl| + |sr|] == ']'
      && (forall k :: 0 <= k < |sl| ==> w[1 + k] == sl[k])
      && (forall k :: 0 <= k < |sr| ==> w[2 + |sl| + k] == sr[k])
  {
  }

  /** `parse_inner` reads back whatever number is laid out at `at`. */
  lemma {:induction false} ParsePrintedAt(t: Tree, s: string, at: nat)
    requires PrintedAt(s, at, t)
    ensures ParseInner(s, at) == Ok((PrintedLength(t), t))
  {
    match t
    case Leaf(v) =>
    case Pair(l, r) =>
      ParsePrintedAt(l, s, at + 1);
      ParsePrintedAt(r, s, at + 2 + PrintedLength(l));
      ParsePairAt(s, at, PrintedLength(l), l, PrintedLength(r), r);
  }

  /** How `parse_inner` reads a pair: `[`, a number, `,`, a number, `]`. */
  lemma ParsePairAt(s: string, at: nat, firstConsumed: nat, left: Tree, secondConsumed: nat, right: Tree)
    requires at + 3 + firstConsumed + secondConsumed <= |s| && s[at] == '['
    requires ParseInner(s, at + 1) == Ok((firstConsumed, left))
    requires s[at + 1 + firstConsumed] == ','
    requires ParseInner(s, at + 2 + firstConsumed) == Ok((secondConsumed, right))
    requires s[at + 2 + firstConsumed + secondConsumed] == ']'
    ensures ParseInner(s, at) == Ok((3 + firstConsumed + secondConsumed, Pair(left, right)))
  {
  }

  /** Printing a pair and parsing the text gives the pair back. */
  lemma ParsePrinted(t: Tree)
    requires Digits(t) && t.Pair?
    ensures Parse(Show(t)) == Ok(t)
  {
    var s := Show(t);
    assert s[0..|s|] == s;
    ParseShow(t, s, 0);
  }

  // ---------------------------------------------------------------------------
  // Adding to the nearest leaf

  /** `s` with `v` added to its first element (nothing when empty). */
  function AddFirst(s: seq<nat>, v: nat): seq<nat> {
    if |s| == 0 then s else [s[0] + v] + s[1..]
  }

  /** `s` with `v` added to its last element (nothing when empty). */
  function AddLast(s: seq<nat>, v: nat): seq<nat> {
    if |s| == 0 then s else s[..|s| - 1] + [s[|s| - 1] + v]
  }

  /** `traverse_down`: add `v` to the outermost leaf on the `direction` side. */
  function TraverseDown(t: Tree, v: nat, direction: Direction): (r: Tree)
    ensures Size(r) == Size(t)
    ensures direction == Left ==> Leaves(r) == AddFirst(Leaves(t), v)
    ensures direction == Right ==> Leaves(r) == AddLast(Leaves(t), v)
  {
    match t
    case Leaf(x) => Leaf(x + v)
    case Pair(l, r) =>
      if direction == Left then
        AddFirstConcat(Leaves(l), Leaves(r), v);
        Pair(TraverseDown(l, v, direction), r)
      else
        AddLastConcat(Leaves(l), Leaves(r), v);
        Pair(l, TraverseDown(r, v, direction))
  }

  // ---------------------------------------------------------------------------
  // Explode

  function Get(node: Tree, direction: Direction): Tree
    requires node.Pair?
  {
    if direction == Left then node.left else node.right
  }

  function Opposite(node: Tree, direction: Direction): Tree
    requires node.Pair?
  {
    if direction == Left then node.right else node.left
  }

  /** The pair with the `direction` child set to `child` and the other one to
      `opposite`. */
  function Assemble(direction: Direction, child: Tree, opposite: Tree): Tree {
    if direction == Left then Pair(child, opposite) else Pair(opposite, child)
  }

  /** `explode`: the pair `node` sits `level` pairs deep. At depth four it
      reports its two numbers to its parent (a deeper pair is a panic);
      above that it tries the left side, and the right side only when the
      left had nothing to explode. */
  function Explode(node: Tree, level: nat): (r: Result<(Tree, ExplodeResult), SnailError>)
    requires node.Pair? && level <= 4
    ensures r.Ok? ==> r.value.0.Pair? && Size(r.value.0) <= Size(node)
    ensures r.Ok? && r.value.1 == Nothing ==> r.value.0 == node
    decreases Size(node), 1
  {
    if level == 4 then
      if node.left.Leaf? && node.right.Leaf? then
        Ok((node, ExplodeParent(0, node.left.value, node.right.value)))
      else Err(NestedTooDeep)
    else
      var (afterLeft, leftResult) :- ExplodeSide(node, level, Left);
      if leftResult != Nothing then Ok((afterLeft, leftResult))
      else ExplodeSide(afterLeft, level, Right)
  }

  /** `explode_side`: explode inside the `direction` child and settle what it
      reports. An exploding child becomes 0, its number on the other side goes
      into the sibling, and the remaining one travels up; a travelling number
      that can be placed in the sibling is placed, and the work is done. */
  function ExplodeSide(node: Tree, level: nat, direction: Direction): (r: Result<(Tree, ExplodeResult), SnailError>)
    requires node.Pair? && level < 4
    ensures r.Ok? ==> r.value.0.Pair? && Size(r.value.0) <= Size(node)
    ensures r.Ok? && r.value.1 == Nothing ==> r.value.0 == node
    decreases Size(node), 0
  {
    var child := Get(node, direction);
    var opposite := Opposite(node, direction);
    var (newChild, result) :- if child.Pair? then Explode(child, level + 1) else Ok((child, Nothing));
    match result
    case ExplodeParent(replacement, leftValue, rightValue) =>
      var (selfValue, oppositeValue) := if direction == Left then (leftValue, rightValue) else (rightValue, leftValue);
      Ok((Assemble(direction, Leaf(replacement), TraverseDown(opposite, oppositeValue, direction)),
          ExplodeTraverse(selfValue, direction)))
    case ExplodeTraverse(value, travel) =>
      if travel == direction then Ok((Assemble(direction, newChild, opposite), result))
      else Ok((Assemble(direction, newChild, TraverseDown(opposite, value, direction)), DidWork))
    case DidWork => Ok((Assemble(direction, newChild, opposite), DidWork))
    case Nothing => Ok((node, Nothing))
  }

  /** The first pair four deep, in left-to-right order, if any; `level` is the
      depth of `t`. */
  function FirstDeep(t: Tree, level: nat): (r: Option<Tree>)
    ensures r.Some? ==> r.value.Pair?
  {
    match t
    case Leaf(_) => None
    case Pair(l, r) =>
      if level >= 4 then Some(t)
      else if FirstDeep(l, level + 1).Some? then FirstDeep(l, level + 1)
      else FirstDeep(r, level + 1)
  }

  /** A pair of two numbers: the only pair that may sit four deep. */
  predicate LeafPair(t: Tree) {
    t.Pair? && t.left.Leaf? && t.right.Leaf?
  }

  /** How many leaves come before the first pair four deep. */
  function DeepIndex(t: Tree, level: nat): nat
    requires FirstDeep(t, level).Some?
  {
    match t
    case Pair(l, r) =>
      if level >= 4 then 0
      else if FirstDeep(l, level + 1).Some? then DeepIndex(l, level + 1)
      else |Leaves(l)| + DeepIndex(r, level + 1)
  }

  /** The leaves after an explosion at position `i`: the pair `a, b` there
      becomes 0, `a` is added to the leaf on its left and `b` to the leaf on
      its right, where those exist. */
  function Exploded(s: seq<nat>, i: nat): seq<nat>
    requires i + 2 <= |s|
  {
    AddLast(s[..i], s[i]) + [0] + AddFirst(s[i + 2..], s[i + 1])
  }

  /** The first deep pair's two leaves sit at `DeepIndex` and the one after it,
      and above depth four the pair has a leaf on at least one side. */
  lemma {:induction false} DeepIndexBounds(t: Tree, level: nat)
    requires FirstDeep(t, level).Some? && LeafPair(FirstDeep(t, level).value)
    ensures DeepIndex(t, level) + 2 <= |Leaves(t)|
    ensures Leaves(t)[DeepIndex(t, level)] == FirstDeep(t, level).value.left.value
    ensures Leaves(t)[DeepIndex(t, level) + 1] == FirstDeep(t, level).value.right.value
    ensures level < 4 ==> DeepIndex(t, level) > 0 || DeepIndex(t, level) + 2 < |Leaves(t)|
  {
    var Pair(l, r) := t;
    if level < 4 {
      if FirstDeep(l, level + 1).Some? {
        DeepIndexBounds(l, level + 1);
      } else {
        DeepIndexBounds(r, level + 1);
      }
    }
  }

  /** What one `explode` call does, stated on the leaves: it fails exactly
      when the first pair four deep holds a pair, reports Nothing exactly when
      there is no such pair, and otherwise explodes that pair. A number that
      has no leaf to go to inside `node` travels up, to the left when the pair
      was leftmost and to the right when it was rightmost. */
  lemma {:induction false} ExplodeMeaning(node: Tree, level: nat)
    requires node.Pair? && level <= 4
    ensures Explode(node, level).Err? <==>
      FirstDeep(node, level).Some? && !LeafPair(FirstDeep(node, level).value)
    ensures Explode(node, level).Ok? ==> (Explode(node, level).value.1 == Nothing <==> FirstDeep(node, level).None?)
    ensures Explode(node, level).Ok? && FirstDeep(node, level).None? ==> Explode(node, level).value == (node, Nothing)
    ensures Explode(node, level).Ok? && FirstDeep(node, level).Some? && level == 4 ==>
      Explode(node, level).value == (node, ExplodeParent(0, Leaves(node)[0], Leaves(node)[1]))
    ensures Explode(node, level).Ok? && FirstDeep(node, level).Some? && level < 4 ==>
      ExplodesAt(Leaves(node), DeepIndex(node, level), Leaves(Explode(node, level).value.0), Explode(node, level).value.1)
    decreases Size(node)
  {
    var Pair(l, r) := node;
    if level == 4 {
      return;
    }
    if FirstDeep(l, level + 1).Some? {
      ExplodeLeftDeep(node, level);
    } else {
      ExplodeSideShallow(node, level, Left);
      if FirstDeep(r, level + 1).Some? {
        ExplodeRightDeep(node, level);
      } else {
        ExplodeSideShallow(node, level, Right);
      }
    }
  }

  /** A side without a deep pair leaves the node alone. */
  lemma ExplodeSideShallow(node: Tree, level: nat, direction: Direction)
    requires node.Pair? && level < 4 && FirstDeep(Get(node, direction), level + 1).None?
    ensures ExplodeSide(node, level, direction) == Ok((node, Nothing))
    decreases Size(node), 0
  {
    var child := Get(node, direction);
    if child.Pair? {
      ExplodeMeaning(child, level + 1);
    }
  }

  /** `after` and `result` are what exploding the pair at position `i` of
      `before` leaves and reports inside a subtree: the numbers are placed
      where the subtree has a leaf for them, and otherwise travel up. */
  predicate ExplodesAt(before: seq<nat>, i: nat, after: seq<nat>, result: ExplodeResult) {
    && i + 2 <= |before|
    && after == Exploded(before, i)
    && result == if i == 0 then ExplodeTraverse(before[i], Left)
                 else if i + 2 == |before| then ExplodeTraverse(before[i + 1], Right)
                 else DidWork
  }

  /** The left child holds the first deep pair: its explosion, settled against
      the right child. */
  lemma ExplodeLeftDeep(node: Tree, level: nat)
    requires node.Pair? && level < 4 && FirstDeep(node.left, level + 1).Some?
    ensures ExplodeSide(node, level, Left).Err? <==> !LeafPair(FirstDeep(node, level).value)
    ensures ExplodeSide(node, level, Left).Ok? ==>
      ExplodesAt(Leaves(node), DeepIndex(node, level), Leaves(ExplodeSide(node, level, Left).value.0), ExplodeSide(node, level, Left).value.1)
    decreases Size(node), 0
  {
    var Pair(l, r) := node;
    ExplodeMeaning(l, level + 1);
    if Explode(l, level + 1).Ok? {
      var (newLeft, result) := Explode(l, level + 1).value;
      var cs, os := Leaves(l), Leaves(r);
      var j := DeepIndex(l, level + 1);
      DeepIndexBounds(l, level + 1);
      match result
      case ExplodeParent(_, a, b) =>
        ExplodesAtParentLeft(cs, os);
      case ExplodeTraverse(v, travel) =>
        if travel == Left {
          ExplodesAtAppend(cs, os, j, Leaves(newLeft), result);
        } else {
          ExplodesAtHandRight(cs, os, j, Leaves(newLeft), v);
        }
      case DidWork =>
        ExplodesAtAppend(cs, os, j, Leaves(newLeft), result);
      case Nothing =>
    }
  }

  /** The right child holds the first deep pair and the left child none: the
      explosion, settled against the left child. */
  lemma ExplodeRightDeep(node: Tree, level: nat)
    requires node.Pair? && level < 4 && FirstDeep(node.left, level + 1).None? && FirstDeep(node.right, level + 1).Some?
    ensures ExplodeSide(node, level, Right).Err? <==> !LeafPair(FirstDeep(node, level).value)
    ensures ExplodeSide(node, level, Right).Ok? ==>
      ExplodesAt(Leaves(node), DeepIndex(node, level), Leaves(ExplodeSide(node, level, Right).value.0), ExplodeSide(node, level, Right).value.1)
    decreases Size(node), 0
  {
    var Pair(l, r) := node;
    ExplodeMeaning(r, level + 1);
    assert FirstDeep(node, level) == FirstDeep(r, level + 1);
    if Explode(r, level + 1).Ok? {
      var (newRight, result) := Explode(r, level + 1).value;
      DeepIndexBounds(r, level + 1);
      if level + 1 == 4 {
        assert ExplodeSide(node, level, Right).value == (Pair(TraverseDown(l, result.leftValue, Right), Leaf(0)), ExplodeTraverse(result.rightValue, Right));
        ExplodesAtParentRight(Leaves(l), Leaves(r));
      } else {
        ExplodeRightSettled(node, level, newRight, result);
      }
    }
  }

  /** An explosion below the right child, reported to `node` and settled
      there. */
  lemma ExplodeRightSettled(node: Tree, level: nat, newRight: Tree, result: ExplodeResult)
    requires node.Pair? && level + 1 < 4 && node.right.Pair?
    requires FirstDeep(node.left, level + 1).None? && FirstDeep(node.right, level + 1).Some?
    requires Explode(node.right, level + 1) == Ok((newRight, result))
    requires ExplodesAt(Leaves(node.right), DeepIndex(node.right, level + 1), Leaves(newRight), result)
    requires DeepIndex(node.right, level + 1) > 0 || DeepIndex(node.right, level + 1) + 2 < |Leaves(node.right)|
    ensures ExplodeSide(node, level, Right).Ok?
    ensures ExplodesAt(Leaves(node), DeepIndex(node, level), Leaves(ExplodeSide(node, level, Right).value.0), ExplodeSide(node, level, Right).value.1)
  {
    ExplodeSideRight(node, level, newRight, result);
    DeepIndexRight(node, level);
    SettledSeq(Leaves(node.left), Leaves(node.right), DeepIndex(node.right, level + 1), Leaves(newRight), result,
               Leaves(node), DeepIndex(node, level), Leaves(ExplodeSide(node, level, Right).value.0), ExplodeSide(node, level, Right).value.1);
  }

  /** An explosion at position `j` of `cs`, seen from `before = os + cs`, where
      `settled` and `report` are what `explode_side` on the right makes of
      it. */
  lemma SettledSeq(os: seq<nat>, cs: seq<nat>, j: nat, after: seq<nat>, result: ExplodeResult,
                   before: seq<nat>, i: nat, settled: seq<nat>, report: ExplodeResult)
    requires ExplodesAt(cs, j, after, result) && (j > 0 || j + 2 < |cs|) && |os| > 0
    requires (settled, report) == SettleRight(os, after, result)
    requires before == os + cs && i == |os| + j
    ensures ExplodesAt(before, i, settled, report)
  {
    if j == 0 {
      SettledStart(os, cs, after, cs[0], before, i, settled, report);
    } else {
      SettledInside(os, cs, j, after, result, before, i, settled, report);
    }
  }

  /** `SettledSeq` when the explosion is at the start of `cs`. */
  lemma SettledStart(os: seq<nat>, cs: seq<nat>, after: seq<nat>, v: nat,
                     before: seq<nat>, i: nat, settled: seq<nat>, report: ExplodeResult)
    requires ExplodesAt(cs, 0, after, ExplodeTraverse(v, Left)) && 2 < |cs| && |os| > 0
    requires before == os + cs && i == |os| && settled == AddLast(os, v) + after && report == DidWork
    ensures ExplodesAt(before, i, settled, report)
  {
    ExplodesAtHandLeft(os, cs, after, v);
  }

  /** `SettledSeq` when the explosion is past the start of `cs`. */
  lemma SettledInside(os: seq<nat>, cs: seq<nat>, j: nat, after: seq<nat>, result: ExplodeResult,
                      before: seq<nat>, i: nat, settled: seq<nat>, report: ExplodeResult)
    requires ExplodesAt(cs, j, after, result) && 0 < j
    requires before == os + cs && i == |os| + j && settled == os + after && report == result
    ensures ExplodesAt(before, i, settled, report)
  {
    ExplodesAtPrepend(os, cs, j, after, result);
  }

  /** With no deep pair on the left, the first deep pair is counted past the
      left child's leaves. */
  lemma DeepIndexRight(node: Tree, level: nat)
    requires node.Pair? && level < 4
    requires FirstDeep(node.left, level + 1).None? && FirstDeep(node.right, level + 1).Some?
    ensures DeepIndex(node, level) == |Leaves(node.left)| + DeepIndex(node.right, level + 1)
    ensures Leaves(node) == Leaves(node.left) + Leaves(node.right)
  {
  }

  /** What `explode_side` on the right makes of a report that is not an
      exploding parent: a number travelling left goes into the left child. */
  lemma ExplodeSideRight(node: Tree, level: nat, newRight: Tree, result: ExplodeResult)
    requires node.Pair? && level + 1 < 4 && node.right.Pair?
    requires Explode(node.right, level + 1) == Ok((newRight, result))
    requires result.ExplodeTraverse? || result.DidWork?
    ensures ExplodeSide(node, level, Right).Ok?
    ensures (Leaves(ExplodeSide(node, level, Right).value.0), ExplodeSide(node, level, Right).value.1)
         == SettleRight(Leaves(node.left), Leaves(newRight), result)
  {
  }

  /** The leaves and the report after `explode_side` on the right settles a
      report that is not an exploding parent: a number travelling left goes
      into the last leaf on the left. */
  function SettleRight(os: seq<nat>, after: seq<nat>, result: ExplodeResult): (seq<nat>, ExplodeResult) {
    if result.ExplodeTraverse? && result.direction == Left then (AddLast(os, result.value) + after, DidWork)
    else (os + after, result)
  }

  /** A pair of two leaves exploding as a left child: 0 in its place, its
      right number added to the leaves after it, its left number travelling. */
  lemma ExplodesAtParentLeft(cs: seq<nat>, os: seq<nat>)
    requires |cs| == 2 && |os| > 0
    ensures ExplodesAt(cs + os, 0, [0] + AddFirst(os, cs[1]), ExplodeTraverse(cs[0], Left))
  {
    ExplodedAppendEnd(cs, os, 0);
    assert AddLast(cs[..0], cs[0]) == [];
  }

  /** A pair of two leaves exploding as a right child. */
  lemma ExplodesAtParentRight(os: seq<nat>, cs: seq<nat>)
    requires |cs| == 2 && |os| > 0
    ensures ExplodesAt(os + cs, |os|, AddLast(os, cs[0]) + [0], ExplodeTraverse(cs[1], Right))
  {
    ExplodedPrependStart(os, cs);
    assert AddFirst(cs[2..], cs[1]) == [];
  }

  /** An explosion that does not reach the end of `cs` is unaffected by leaves
      appended after `cs`. */
  lemma ExplodesAtAppend(cs: seq<nat>, os: seq<nat>, j: nat, after: seq<nat>, result: ExplodeResult)
    requires ExplodesAt(cs, j, after, result) && j + 2 < |cs|
    ensures ExplodesAt(cs + os, j, after + os, result)
  {
    ExplodedAppend(cs, os, j);
  }

  /** An explosion at the end of `cs` hands its right number to the first of
      the leaves appended after `cs`, and the work is done. */
  lemma ExplodesAtHandRight(cs: seq<nat>, os: seq<nat>, j: nat, after: seq<nat>, v: nat)
    requires ExplodesAt(cs, j, after, ExplodeTraverse(v, Right)) && |os| > 0
    ensures ExplodesAt(cs + os, j, after + AddFirst(os, v), DidWork)
  {
    ExplodedEnd(cs, j);
    ExplodedAppendEnd(cs, os, j);
  }

  /** An explosion that does not reach the start of `cs` is unaffected by
      leaves put before `cs`. */
  lemma ExplodesAtPrepend(os: seq<nat>, cs: seq<nat>, j: nat, after: seq<nat>, result: ExplodeResult)
    requires ExplodesAt(cs, j, after, result) && 0 < j
    ensures ExplodesAt(os + cs, |os| + j, os + after, result)
  {
    ExplodedPrepend(os, cs, j);
  }

  /** An explosion at the start of `cs` hands its left number to the last of
      the leaves put before `cs`, and the work is done. */
  lemma ExplodesAtHandLeft(os: seq<nat>, cs: seq<nat>, after: seq<nat>, v: nat)
    requires ExplodesAt(cs, 0, after, ExplodeTraverse(v, Left)) && 2 < |cs| && |os| > 0
    ensures ExplodesAt(os + cs, |os|, AddLast(os, v) + after, DidWork)
  {
    ExplodedStart(cs);
    ExplodedPrependStart(os, cs);
    Associative(AddLast(os, v), [0], AddFirst(cs[2..], cs[1]));
  }

  lemma Associative(a: seq<nat>, b: seq<nat>, c: seq<nat>)
    ensures a + (b + c) == a + b + c
  {
  }

  lemma ExplodedStart(cs: seq<nat>)
    requires 2 <= |cs|
    ensures Exploded(cs, 0) == [0] + AddFirst(cs[2..], cs[1])
  {
    assert cs[..0] == [];
  }

  lemma ExplodedEnd(cs: seq<nat>, j: nat)
    requires j + 2 == |cs|
    ensures Exploded(cs, j) == AddLast(cs[..j], cs[j]) + [0]
  {
    assert cs[j + 2..] == [];
  }

  lemma ExplodedAppend(cs: seq<nat>, os: seq<nat>, j: nat)
    requires j + 2 < |cs|
    ensures Exploded(cs + os, j) == Exploded(cs, j) + os
  {
    var s := cs + os;
    var front := AddLast(cs[..j], cs[j]);
    var back := AddFirst(cs[j + 2..], cs[j + 1]);
    calc {
      Exploded(s, j);
      AddLast(s[..j], s[j]) + [0] + AddFirst(s[j + 2..], s[j + 1]);
      { assert s[..j] == cs[..j]; assert s[j + 2..] == cs[j + 2..] + os; }
      front + [0] + AddFirst(cs[j + 2..] + os, cs[j + 1]);
      { AddFirstConcat(cs[j + 2..], os, cs[j + 1]); }
      front + [0] + (back + os);
      { Associative(front + [0], back, os); }
      (front + [0] + back) + os;
    }
  }

  lemma ExplodedAppendEnd(cs: seq<nat>, os: seq<nat>, j: nat)
    requires j + 2 == |cs|
    ensures Exploded(cs + os, j) == AddLast(cs[..j], cs[j]) + [0] + AddFirst(os, cs[j + 1])
  {
    var s := cs + os;
    assert s[..j] == cs[..j] && s[j + 2..] == os;
  }

  lemma ExplodedPrepend(os: seq<nat>, cs: seq<nat>, j: nat)
    requires 0 < j && j + 2 <= |cs|
    ensures Exploded(os + cs, |os| + j) == os + Exploded(cs, j)
  {
    var front := AddLast(cs[..j], cs[j]);
    var back := AddFirst(cs[j + 2..], cs[j + 1]);
    assert (os + cs)[..|os| + j] == os + cs[..j];
    assert (os + cs)[|os| + j + 2..] == cs[j + 2..];
    assert (os + cs)[|os| + j] == cs[j] && (os + cs)[|os| + j + 1] == cs[j + 1];
    AddLastConcat(os, cs[..j], cs[j]);
    assert Exploded(os + cs, |os| + j) == (os + front) + [0] + back;
    Associative(os, front, [0]);
    Associative(os, front + [0], back);
  }

  lemma ExplodedPrependStart(os: seq<nat>, cs: seq<nat>)
    requires 2 <= |cs|
    ensures Exploded(os + cs, |os|) == AddLast(os, cs[0]) + [0] + AddFirst(cs[2..], cs[1])
  {
    var s := os + cs;
    assert s[..|os|] == os && s[|os| + 2..] == cs[2..];
  }

  // ---------------------------------------------------------------------------
  // Split

  /** `split`: split the leftmost number of 10 or more, trying the left side
      first; reports whether it split one. */
  function Split(node: Tree): (r: (Tree, bool))
    requires node.Pair?
    ensures r.0.Pair?
    ensures !r.1 ==> r.0 == node
    decreases Size(node), 1
  {
    var (afterLeft, didLeft) := SplitSide(node, Left);
    if didLeft then (afterLeft, true) else SplitSide(afterLeft, Right)
  }

  /** `split_side`: a pair child splits inside itself; a number child of 10 or
      more becomes the pair of its halves, rounded down and up. */
  function SplitSide(node: Tree, direction: Direction): (r: (Tree, bool))
    requires node.Pair?
    ensures r.0.Pair?
    ensures !r.1 ==> r.0 == node
    decreases Size(node), 0
  {
    var opposite := Opposite(node, direction);
    match Get(node, direction)
    case Pair(_, _) =>
      var (newChild, did) := Split(Get(node, direction));
      (Assemble(direction, newChild, opposite), did)
    case Leaf(v) =>
      if v >= 10 then (Assemble(direction, Pair(Leaf(v / 2), Leaf(v / 2 + v % 2)), opposite), true)
      else (node, false)
  }

  /** The position of the first number of 10 or more (`|s|` when there is
      none). */
  function FirstBig(s: seq<nat>): (i: nat)
    ensures i <= |s|
  {
    if |s| == 0 then 0
    else if s[0] >= 10 then 0
    else 1 + FirstBig(s[1..])
  }

  /** `FirstBig` finds the first number of 10 or more: every number before it
      is below 10. */
  lemma {:induction false} FirstBigIsFirst(s: seq<nat>)
    ensures forall k :: 0 <= k < FirstBig(s) ==> s[k] < 10
    ensures FirstBig(s) < |s| ==> s[FirstBig(s)] >= 10
  {
    if |s| > 0 && s[0] < 10 {
      FirstBigIsFirst(s[1..]);
      assert forall k :: 1 <= k < FirstBig(s) ==> s[k] == s[1..][k - 1];
    }
  }

  /** `s` with the number at `i` replaced by its two halves. */
  function SplitAt(s: seq<nat>, i: nat): seq<nat>
    requires i < |s|
  {
    s[..i] + [s[i] / 2, s[i] / 2 + s[i] % 2] + s[i + 1..]
  }

  /** What one `split` does, stated on the leaves: it splits exactly when some
      number is 10 or more, and then it replaces the first such number by its
      two halves and leaves every other number in place. */
  lemma {:induction false} SplitMeaning(node: Tree)
    requires node.Pair?
    ensures Split(node).1 <==> FirstBig(Leaves(node)) < |Leaves(node)|
    ensures Split(node).1 ==> Leaves(Split(node).0) == SplitAt(Leaves(node), FirstBig(Leaves(node)))
    decreases Size(node), 1
  {
    SplitSideMeaning(node, Left);
    FirstBigConcat(Leaves(node.left), Leaves(node.right));
    if SplitSide(node, Left).1 {
      SplitAtAppend(Leaves(node.left), Leaves(node.right), FirstBig(Leaves(node.left)));
    } else {
      SplitSideMeaning(node, Right);
      if SplitSide(node, Right).1 {
        SplitAtPrepend(Leaves(node.left), Leaves(node.right), FirstBig(Leaves(node.right)));
      }
    }
  }

  /** One side of `split`: the child splits exactly when it holds a number of
      10 or more, its first such number is split, and the other child stays. */
  lemma {:induction false} SplitSideMeaning(node: Tree, direction: Direction)
    requires node.Pair?
    ensures var (after, did) := SplitSide(node, direction);
      var before := Leaves(Get(node, direction));
      && (did <==> FirstBig(before) < |before|)
      && Opposite(after, direction) == Opposite(node, direction)
      && (did ==> Leaves(Get(after, direction)) == SplitAt(before, FirstBig(before)))
    decreases Size(node), 0
  {
    var child := Get(node, direction);
    if child.Pair? {
      SplitMeaning(child);
    } else {
      var v := child.value;
      assert Leaves(child) == [v];
      assert SplitAt([v], 0) == [v / 2, v / 2 + v % 2];
    }
  }

  /** Where the first big number of two joined sequences is. */
  lemma {:induction false} FirstBigConcat(a: seq<nat>, b: seq<nat>)
    ensures FirstBig(a + b) == if FirstBig(a) < |a| then FirstBig(a) else |a| + FirstBig(b)
  {
    if |a| > 0 {
      assert (a + b)[1..] == a[1..] + b;
      FirstBigConcat(a[1..], b);
    } else {
      assert a + b == b;
    }
  }

  /** Splitting inside the front part leaves the back part alone. */
  lemma SplitAtAppend(a: seq<nat>, b: seq<nat>, i: nat)
    requires i < |a|
    ensures SplitAt(a + b, i) == SplitAt(a, i) + b
  {
    assert (a + b)[..i] == a[..i];
    assert (a + b)[i + 1..] == a[i + 1..] + b;
  }

  /** Splitting inside the back part leaves the front part alone. */
  lemma SplitAtPrepend(a: seq<nat>, b: seq<nat>, i: nat)
    requires i < |b|
    ensures SplitAt(a + b, |a| + i) == a + SplitAt(b, i)
  {
    assert (a + b)[..|a| + i] == a + b[..i];
    assert (a + b)[|a| + i + 1..] == b[i + 1..];
  }

  /** A split keeps the sum of all numbers. */
  lemma SplitKeepsSum(node: Tree)
    requires node.Pair?
    ensures Sum(Leaves(Split(node).0)) == Sum(Leaves(node))
  {
    SplitMeaning(node);
    if Split(node).1 {
      SplitAtSum(Leaves(node), FirstBig(Leaves(node)));
    }
  }

  /** Halving one number into two keeps the sum. */
  lemma SplitAtSum(s: seq<nat>, i: nat)
    requires i < |s|
    ensures Sum(SplitAt(s, i)) == Sum(s)
  {
    SumAround(s, i);
    SumOfSplit(s, i);
  }

  lemma SumAround(s: seq<nat>, i: nat)
    requires i < |s|
    ensures Sum(s) == Sum(s[..i]) + s[i] + Sum(s[i + 1..])
  {
    assert s[..i] + [s[i]] + s[i + 1..] == s;
    SumConcat(s[..i] + [s[i]], s[i + 1..]);
    SumConcat(s[..i], [s[i]]);
    assert Sum([s[i]]) == s[i] by {
      assert [s[i]][1..] == [];
    }
  }

  lemma SumOfSplit(s: seq<nat>, i: nat)
    requires i < |s|
    ensures Sum(SplitAt(s, i)) == Sum(s[..i]) + s[i] + Sum(s[i + 1..])
  {
    var v := s[i];
    var a, b := v / 2, v / 2 + v % 2;
    SumConcat(s[..i] + [a, b], s[i + 1..]);
    SumConcat(s[..i], [a, b]);
    assert Sum([a, b]) == a + b by {
      assert [a, b][1..] == [b];
      assert [b][1..] == [];
      assert Sum([b]) == b;
    }
  }

  lemma {:induction false} SumConcat(a: seq<nat>, b: seq<nat>)
    ensures Sum(a + b) == Sum(a) + Sum(b)
  {
    if |a| == 0 {
      assert a + b == b;
    } else {
      assert (a + b)[1..] == a[1..] + b;
      SumConcat(a[1..], b);
    }
  }

  // ---------------------------------------------------------------------------
  // Magnitude

  /** `get_magnitude`: three times the left magnitude plus twice the right. */
  function Magnitude(t: Tree): nat {
    match t
    case Leaf(v) => v
    case Pair(l, r) => 3 * Magnitude(l) + 2 * Magnitude(r)
  }

  /** The factor each leaf contributes with: 3 for every left turn and 2 for
      every right turn on the way down to it. */
  function Weights(t: Tree): (w: seq<nat>)
    ensures |w| == |Leaves(t)|
  {
    match t
    case Leaf(_) => [1]
    case Pair(l, r) => Scale(Weights(l), 3) + Scale(Weights(r), 2)
  }

  function Scale(s: seq<nat>, k: nat): (r: seq<nat>)
    ensures |r| == |s|
    ensures forall i :: 0 <= i < |s| ==> r[i] == k * s[i]
  {
    seq(|s|, i requires 0 <= i < |s| => k * s[i])
  }

  /** The sum of the products of matching elements. */
  function Dot(a: seq<nat>, b: seq<nat>): nat
    requires |a| == |b|
  {
    if |a| == 0 then 0 else Dot(a[..|a| - 1], b[..|b| - 1]) + a[|a| - 1] * b[|b| - 1]
  }

  /** The magnitude is the sum of every leaf times its path weight. */
  lemma {:induction false} MagnitudeWeighted(t: Tree)
    ensures Magnitude(t) == Dot(Leaves(t), Weights(t))
  {
    match t
    case Leaf(v) =>
    case Pair(l, r) =>
      MagnitudeWeighted(l);
      MagnitudeWeighted(r);
      var wl, wr := Weights(l), Weights(r);
      DotConcat(Leaves(l), Scale(wl, 3), Leaves(r), Scale(wr, 2));
      DotScale(Leaves(l), wl, 3);
      DotScale(Leaves(r), wr, 2);
  }

  lemma {:induction false} DotConcat(a: seq<nat>, b: seq<nat>, c: seq<nat>, d: seq<nat>)
    requires |a| == |b| && |c| == |d|
    ensures Dot(a + c, b + d) == Dot(a, b) + Dot(c, d)
    decreases |c|
  {
    if |c| == 0 {
      assert a + c == a && b + d == b;
    } else {
      assert (a + c)[..|a + c| - 1] == a + c[..|c| - 1];
      assert (b + d)[..|b + d| - 1] == b + d[..|d| - 1];
      DotConcat(a, b, c[..|c| - 1], d[..|d| - 1]);
    }
  }

  lemma {:induction false} DotScale(a: seq<nat>, b: seq<nat>, k: nat)
    requires |a| == |b|
    ensures Dot(a, Scale(b, k)) == k * Dot(a, b)
    decreases |a|
  {
    if |a| > 0 {
      var n := |a| - 1;
      assert Scale(b, k)[..n] == Scale(b[..n], k);
      DotScale(a[..n], b[..n], k);
      assert Dot(a, Scale(b, k)) == k * Dot(a[..n], b[..n]) + a[n] * (k * b[n]);
    }
  }

  // ---------------------------------------------------------------------------
  // Reduce and add

  /** `reduce`: one explosion if there is a pair four deep, otherwise one
      split; reports whether anything changed. */
  function Reduce(node: Tree): (r: Result<(Tree, bool), SnailError>)
    requires node.Pair?
    ensures r.Ok? ==> r.value.0.Pair?
    ensures r.Ok? && !r.value.1 ==> r.value.0 == node
  {
    var (exploded, result) :- Explode(node, 0);
    if result != Nothing then Ok((exploded, true)) else Ok(Split(exploded))
  }

  /** Nothing is four deep and every number is below 10. */
  predicate IsReduced(t: Tree) {
    FirstDeep(t, 0).None? && FirstBig(Leaves(t)) == |Leaves(t)|
  }

  /** `reduce` explodes whenever a pair sits four deep, and splits only when
      none does; it reports no change exactly when the number is reduced. */
  lemma ReduceMeaning(node: Tree)
    requires node.Pair?
    ensures FirstDeep(node, 0).Some? && LeafPair(FirstDeep(node, 0).value) ==>
      && Reduce(node).Ok? && Reduce(node).value.1
      && DeepIndex(node, 0) + 2 <= |Leaves(node)|
      && Leaves(Reduce(node).value.0) == Exploded(Leaves(node), DeepIndex(node, 0))
    ensures FirstDeep(node, 0).None? ==> Reduce(node) == Ok(Split(node))
    ensures Reduce(node).Ok? ==> (!Reduce(node).value.1 <==> IsReduced(node))
  {
    ExplodeMeaning(node, 0);
    SplitMeaning(node);
  }

  /** The `while reduce(..) {}` loop, given at most `fuel` rounds. */
  function ReduceLoop(t: Tree, fuel: nat): (r: Result<Tree, SnailError>)
    requires t.Pair?
    decreases fuel
  {
    if fuel == 0 then Err(OutOfFuel)
    else
      var (next, changed) :- Reduce(t);
      if changed then ReduceLoop(next, fuel - 1) else Ok(next)
  }

  /** `add`: the pair of the two numbers, reduced until nothing changes. */
  function Add(a: Tree, b: Tree, fuel: nat): Result<Tree, SnailError> {
    ReduceLoop(Pair(a, b), fuel)
  }

  /** The loop stops only on a reduced number. */
  lemma {:induction false} ReduceLoopReduced(t: Tree, fuel: nat)
    requires t.Pair?
    ensures ReduceLoop(t, fuel).Ok? ==> IsReduced(ReduceLoop(t, fuel).value)
    decreases fuel
  {
    if fuel > 0 {
      ReduceMeaning(t);
      if Reduce(t).Ok? && Reduce(t).value.1 {
        ReduceLoopReduced(Reduce(t).value.0, fuel - 1);
      }
    }
  }

  /** A sum that comes out is reduced, and adding onto a reduced number that
      needs no work gives the number unchanged. */
  lemma AddReduced(a: Tree, b: Tree, fuel: nat)
    ensures Add(a, b, fuel).Ok? ==> IsReduced(Add(a, b, fuel).value)
    ensures fuel > 0 && IsReduced(Pair(a, b)) ==> Add(a, b, fuel) == Ok(Pair(a, b))
  {
    ReduceLoopReduced(Pair(a, b), fuel);
    ReduceMeaning(Pair(a, b));
  }

  /** The first explosion example of the puzzle:
      `[[[[[9,8],1],2],3],4]` becomes `[[[[0,9],2],3],4]`; the 9 has no leaf
      to its left and is dropped. */
  lemma ExplodeExample()
    ensures Reduce(Pair(Pair(Pair(Pair(Pair(Leaf(9), Leaf(8)), Leaf(1)), Leaf(2)), Leaf(3)), Leaf(4)))
         == Ok((Pair(Pair(Pair(Pair(Leaf(0), Leaf(9)), Leaf(2)), Leaf(3)), Leaf(4)), true))
  {
  }

  /** With nothing four deep, `reduce` splits the first big number only:
      `[[15,0],13]` becomes `[[[7,8],0],13]`. */
  lemma SplitExample()
    ensures Reduce(Pair(Pair(Leaf(15), Leaf(0)), Leaf(13)))
         == Ok((Pair(Pair(Pair(Leaf(7), Leaf(8)), Leaf(0)), Leaf(13)), true))
  {
  }

  /** The magnitude of `[[1,2],[[3,4],5]]` is 143. */
  lemma MagnitudeExample()
    ensures Magnitude(Pair(Pair(Leaf(1), Leaf(2)), Pair(Pair(Leaf(3), Leaf(4)), Leaf(5)))) == 143
  {
  }

  lemma AddFirstConcat(s: seq<nat>, t: seq<nat>, v: nat)
    requires |s| > 0
    ensures AddFirst(s + t, v) == AddFirst(s, v) + t
  {
    assert (s + t)[1..] == s[1..] + t;
  }

  lemma AddLastConcat(s: seq<nat>, t: seq<nat>, v: nat)
    requires |t| > 0
    ensures AddLast(s + t, v) == s + AddLast(t, v)
  {
    assert (s + t)[..|s + t| - 1] == s + t[..|t| - 1];
  }
}
