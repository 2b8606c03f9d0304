/** Part workflows (`y2023/src/d19/mod.rs`). A part has four ratings `x`,
    `m`, `a`, `s`; a workflow is a list of rules, each an optional
    comparison of one rating with a number and the workflow to go to when
    it holds. `accepts` tests one part, `split` cuts a box of parts along a
    rule's comparison, and `num_options` counts the parts of a box that the
    workflows lead to `A`. */
module Workflows {
  import opened Wrappers

  const U32Max: int := 0xFFFF_FFFF

  type U32 = n: nat | n <= U32Max

  datatype Attr = X | M | A | S

  /** The rating names a condition may use; any other panics. */
  function AttrOf(name: string): (r: Option<Attr>)
    ensures r.Some? <==> name in {"x", "m", "a", "s"}
  {
    if name == "x" then Some(X)
    else if name == "m" then Some(M)
    else if name == "a" then Some(A)
    else if name == "s" then Some(S)
    else None
  }

  datatype Part = Part(x: U32, m: U32, a: U32, s: U32)

  function Rating(p: Part, attr: Attr): U32 {
    match attr
    case X => p.x
    case M => p.m
    case A => p.a
    case S => p.s
  }

  /** A condition's operator is the one character after the rating name. */
  datatype Condition = Condition(attribute: string, op: char, arg: U32)

  datatype Rule = Rule(condition: Option<Condition>, action: string)

  datatype Workflow = Workflow(name: string, rules: seq<Rule>)

  datatype Panic =
    | UnknownAttribute
    | UnknownOp
    | ArgOverflow
    | RangeUnderflow
    | UnknownWorkflow
    | NoRuleApplies
    | OutOfFuel

  /** `Rule::accepts`: a rule without a condition takes every part. */
  function Accepts(rule: Rule, p: Part): (r: Result<bool, Panic>)
    ensures rule.condition.None? ==> r == Ok(true)
    ensures rule.condition.Some? && AttrOf(rule.condition.value.attribute).None? ==> r == Err(UnknownAttribute)
  {
    match rule.condition
    case None => Ok(true)
    case Some(c) =>
      match AttrOf(c.attribute)
      case None => Err(UnknownAttribute)
      case Some(attr) =>
        var lhs := Rating(p, attr);
        if c.op == '>' then Ok(lhs > c.arg)
        else if c.op == '<' then Ok(lhs < c.arg)
        else Err(UnknownOp)
  }

  /** `Workflow::result`: the action of the first rule that takes the part;
      `unwrap` panics when none does. */
  function Decide(rules: seq<Rule>, p: Part): (r: Result<string, Panic>)
    ensures r.Ok? ==> exists i :: 0 <= i < |rules| && FirstTaker(rules, p, i) && r.value == rules[i].action
    ensures r == Err(NoRuleApplies) ==> forall i :: 0 <= i < |rules| ==> Accepts(rules[i], p) == Ok(false)
    ensures forall i: nat :: FirstTaker(rules, p, i) ==> r == Ok(rules[i].action)
    decreases |rules|
  {
    if |rules| == 0 then Err(NoRuleApplies)
    else
      match Accepts(rules[0], p)
      case Err(e) => Err(e)
      case Ok(b) =>
        if b then Ok(rules[0].action)
        else
          var r := Decide(rules[1..], p);
          assert r.Ok? ==> exists i :: 0 <= i < |rules| - 1 && FirstTaker(rules[1..], p, i) && r.value == rules[1..][i].action;
          assert forall i :: 0 < i < |rules| ==> rules[i] == rules[1..][i - 1];
          assert forall i: nat :: FirstTaker(rules, p, i) ==> i > 0 && FirstTaker(rules[1..], p, i - 1);
          r
  }

  /** Rule `i` takes the part and every rule before it rejects it. */
  predicate FirstTaker(rules: seq<Rule>, p: Part, i: nat) {
    && i < |rules|
    && Accepts(rules[i], p) == Ok(true)
    && forall k :: 0 <= k < i ==> Accepts(rules[k], p) == Ok(false)
  }

  /** The loop of part one: follow the workflows from `name` until `R` or
      `A`. Each hop spends one unit of `fuel`, since workflows may lead in a
      circle. */
  function Route(workflows: map<string, Workflow>, name: string, p: Part, fuel: nat): Result<bool, Panic>
    decreases fuel
  {
    if name == "R" then Ok(false)
    else if name == "A" then Ok(true)
    else if name !in workflows then Err(UnknownWorkflow)
    else if fuel == 0 then Err(OutOfFuel)
    else
      match Decide(workflows[name].rules, p)
      case Err(e) => Err(e)
      case Ok(next) => Route(workflows, next, p, fuel - 1)
  }

  /** `Range<u32>`. */
  datatype Span = Span(start: U32, end: U32)

  /** `PartRange`: one range per rating. */
  datatype PartRange = PartRange(x: Span, m: Span, a: Span, s: Span)

  function Get(pr: PartRange, attr: Attr): Span {
    match attr
    case X => pr.x
    case M => pr.m
    case A => pr.a
    case S => pr.s
  }

  function With(pr: PartRange, attr: Attr, span: Span): (r: PartRange)
    ensures Get(r, attr) == span
    ensures forall other :: other != attr ==> Get(r, other) == Get(pr, other)
  {
    match attr
    case X => pr.(x := span)
    case M => pr.(m := span)
    case A => pr.(a := span)
    case S => pr.(s := span)
  }

  predicate InSpan(v: nat, span: Span) {
    span.start <= v < span.end
  }

  /** The part lies in the box. */
  predicate InBox(p: Part, pr: PartRange) {
    forall attr :: InSpan(Rating(p, attr), Get(pr, attr))
  }

  function Place(pr: PartRange, attr: Attr, span: Option<Span>): Option<PartRange> {
    match span
    case None => None
    case Some(s) => Some(With(pr, attr, s))
  }

  /** Two boxes agree on every rating but `attr`. */
  predicate SameExcept(pr: PartRange, q: PartRange, attr: Attr) {
    forall other :: other != attr ==> Get(q, other) == Get(pr, other)
  }

  /** `PartRange::split`: (pass, fail). The operator `>` cuts at `arg + 1`
      (a panic for `u32::MAX`), any other at `arg`; only the compared
      rating's range changes. */
  function Split(pr: PartRange, rule: Rule): (r: Result<(Option<PartRange>, Option<PartRange>), Panic>)
    ensures rule.condition.None? ==> r == Ok((Some(pr), None))
    ensures rule.condition.Some? && AttrOf(rule.condition.value.attribute).None? ==> r == Err(UnknownAttribute)
    ensures (rule.condition.Some? && rule.condition.value.op == '>' && rule.condition.value.arg == U32Max
             && AttrOf(rule.condition.value.attribute).Some?) ==> r == Err(ArgOverflow)
    ensures r.Ok? && rule.condition.Some? ==>
      var attr := AttrOf(rule.condition.value.attribute).value;
      && (r.value.0.Some? ==> SameExcept(pr, r.value.0.value, attr))
      && (r.value.1.Some? ==> SameExcept(pr, r.value.1.value, attr))
  {
    match rule.condition
    case None => Ok((Some(pr), None))
    case Some(c) =>
      var greater := c.op == '>';
      match AttrOf(c.attribute)
      case None => Err(UnknownAttribute)
      case Some(attr) =>
        var range := Get(pr, attr);
        if greater && c.arg == U32Max then Err(ArgOverflow)
        else
          var cut := if greater then c.arg + 1 else c.arg;
          var (lower, higher) :=
            if cut < range.start then (None, Some(range))
            else if cut < range.end then (Some(Span(range.start, cut)), Some(Span(cut, range.end)))
            else (Some(range), None);
          var (pass, fail) := if greater then (higher, lower) else (lower, higher);
          Ok((Place(pr, attr, pass), Place(pr, attr, fail)))
  }

  predicate ValidOp(rule: Rule) {
    rule.condition.Some? ==> rule.condition.value.op in {'<', '>'}
  }

  /** Every part of the box falls in exactly one side of a split: the pass
      box when the rule takes it, the fail box when it does not. */
  lemma SplitAgrees(pr: PartRange, rule: Rule, p: Part)
    requires Split(pr, rule).Ok? && ValidOp(rule) && InBox(p, pr)
    ensures Accepts(rule, p).Ok?
    ensures Accepts(rule, p).value <==> Split(pr, rule).value.0.Some? && InBox(p, Split(pr, rule).value.0.value)
    ensures !Accepts(rule, p).value <==> Split(pr, rule).value.1.Some? && InBox(p, Split(pr, rule).value.1.value)
  {
    if rule.condition.Some? {
      var c := rule.condition.value;
      var attr := AttrOf(c.attribute).value;
      SplitSide(pr, rule, p, attr);
    }
  }

  lemma SplitSide(pr: PartRange, rule: Rule, p: Part, attr: Attr)
    requires Split(pr, rule).Ok? && ValidOp(rule) && InBox(p, pr)
    requires rule.condition.Some? && AttrOf(rule.condition.value.attribute) == Some(attr)
    ensures Accepts(rule, p).Ok?
    ensures Accepts(rule, p).value <==> Split(pr, rule).value.0.Some? && InBox(p, Split(pr, rule).value.0.value)
    ensures !Accepts(rule, p).value <==> Split(pr, rule).value.1.Some? && InBox(p, Split(pr, rule).value.1.value)
  {
    var split := Split(pr, rule).value;
    if split.0.Some? {
      SameBox(pr, split.0.value, attr, p);
    }
    if split.1.Some? {
      SameBox(pr, split.1.value, attr, p);
    }
  }

  /** In a box that differs from an in-box part's box only in `attr`, the
      part lies exactly when its `attr` rating does. */
  lemma SameBox(pr: PartRange, q: PartRange, attr: Attr, p: Part)
    requires SameExcept(pr, q, attr)
    ensures InBox(p, pr) ==> (InBox(p, q) <==> InSpan(Rating(p, attr), Get(q, attr)))
    ensures InBox(p, q) ==> (InBox(p, pr) <==> InSpan(Rating(p, attr), Get(pr, attr)))
  {
  }

  /** The pass and fail boxes lie inside the box that was split. */
  lemma SplitWithin(pr: PartRange, rule: Rule, p: Part)
    requires Split(pr, rule).Ok?
    ensures Split(pr, rule).value.0.Some? && InBox(p, Split(pr, rule).value.0.value) ==> InBox(p, pr)
    ensures Split(pr, rule).value.1.Some? && InBox(p, Split(pr, rule).value.1.value) ==> InBox(p, pr)
  {
    if rule.condition.Some? {
      var attr := AttrOf(rule.condition.value.attribute).value;
      var split := Split(pr, rule).value;
      if split.0.Some? {
        SameBox(pr, split.0.value, attr, p);
      }
      if split.1.Some? {
        SameBox(pr, split.1.value, attr, p);
      }
    }
  }

  function Width(span: Span): nat {
    if span.start < span.end then span.end - span.start else 0
  }

  /** How many parts the box holds. */
  function Size(pr: PartRange): nat {
    Mul(Mul(Mul(Width(pr.x), Width(pr.m)), Width(pr.a)), Width(pr.s))
  }

  function Mul(a: nat, b: nat): nat {
    a * b
  }

  predicate Reversed(span: Span) {
    span.end < span.start
  }

  /** The `A` case of `num_options`: the product of the range lengths;
      `r.end - r.start` panics on a reversed range. */
  function Count(pr: PartRange): (r: Result<nat, Panic>)
    ensures r.Err? <==> exists attr :: Reversed(Get(pr, attr))
    ensures r.Ok? ==> r.value == Size(pr)
  {
    if Reversed(pr.x) || Reversed(pr.m) || Reversed(pr.a) || Reversed(pr.s) then
      assert exists attr :: Reversed(Get(pr, attr)) by {
        if Reversed(pr.x) { assert Reversed(Get(pr, X)); }
        else if Reversed(pr.m) { assert Reversed(Get(pr, M)); }
        else if Reversed(pr.a) { assert Reversed(Get(pr, A)); }
        else { assert Reversed(Get(pr, S)); }
      }
      Err(RangeUnderflow)
    else
      Ok(Mul(Mul(Mul(pr.x.end - pr.x.start, pr.m.end - pr.m.start), pr.a.end - pr.a.start), pr.s.end - pr.s.start))
  }

  /** `num_options`: how many parts of the box the workflows starting at
      `name` lead to `A`; each workflow entered spends one unit of `fuel`. */
  function NumOptions(workflows: map<string, Workflow>, name: string, pr: PartRange, fuel: nat): (r: Result<nat, Panic>)
    ensures name == "R" ==> r == Ok(0)
    ensures name == "A" ==> r == Count(pr)
    decreases fuel, 0
  {
    if name == "R" then Ok(0)
    else if name == "A" then Count(pr)
    else if name !in workflows then Err(UnknownWorkflow)
    else if fuel == 0 then Err(OutOfFuel)
    else RuleOptions(workflows, workflows[name].rules, pr, fuel - 1)
  }

  /** The loop over one workflow's rules: the pass box goes to the rule's
      action, the fail box on to the next rule; nothing is left when there
      is no fail box. */
  function RuleOptions(workflows: map<string, Workflow>, rules: seq<Rule>, pr: PartRange, fuel: nat): Result<nat, Panic>
    decreases fuel, |rules|
  {
    if |rules| == 0 then Ok(0)
    else
      match Split(pr, rules[0])
      case Err(e) => Err(e)
      case Ok((pass, fail)) =>
        match (if pass.Some? then NumOptions(workflows, rules[0].action, pass.value, fuel) else Ok(0))
        case Err(e) => Err(e)
        case Ok(here) =>
          if fail.None? then Ok(here)
          else
            match RuleOptions(workflows, rules[1..], fail.value, fuel)
            case Err(e) => Err(e)
            case Ok(rest) => Ok(here + rest)
  }

  // Counting the parts.

  /** Every part in the box. */
  ghost function Parts(pr: PartRange): set<Part> {
    set x: U32, m: U32, a: U32, s: U32 | InSpan(x, pr.x) && InSpan(m, pr.m) && InSpan(a, pr.a) && InSpan(s, pr.s)
      :: Part(x, m, a, s)
  }

  lemma InParts(p: Part, pr: PartRange)
    ensures p in Parts(pr) <==> InBox(p, pr)
  {
    if InBox(p, pr) {
      assert InSpan(Rating(p, X), Get(pr, X)) && InSpan(Rating(p, M), Get(pr, M));
      assert InSpan(Rating(p, A), Get(pr, A)) && InSpan(Rating(p, S), Get(pr, S));
    }
  }

  /** The parts of the box that the workflows from `name` accept. */
  ghost function Accepted(workflows: map<string, Workflow>, name: string, pr: PartRange, fuel: nat): set<Part> {
    set p | p in Parts(pr) && Route(workflows, name, p, fuel) == Ok(true)
  }

  /** The parts of the box that the first rule taking them sends to
      acceptance. */
  ghost function AcceptedVia(workflows: map<string, Workflow>, rules: seq<Rule>, pr: PartRange, fuel: nat): set<Part> {
    set p | p in Parts(pr) && Decide(rules, p).Ok? && Route(workflows, Decide(rules, p).value, p, fuel) == Ok(true)
  }

  predicate ValidOps(workflows: map<string, Workflow>) {
    forall name, i :: name in workflows && 0 <= i < |workflows[name].rules| ==> ValidOp(workflows[name].rules[i])
  }

  /** `num_options` counts exactly the parts of the box that the part-one
      loop, run on each part alone, accepts. */
  lemma {:induction false} NumOptionsCounts(workflows: map<string, Workflow>, name: string, pr: PartRange, fuel: nat)
    requires ValidOps(workflows)
    requires NumOptions(workflows, name, pr, fuel).Ok?
    ensures NumOptions(workflows, name, pr, fuel).value == |Accepted(workflows, name, pr, fuel)|
    decreases fuel, 0
  {
    if name == "R" {
      assert Accepted(workflows, name, pr, fuel) == {};
    } else if name == "A" {
      assert Accepted(workflows, name, pr, fuel) == Parts(pr);
      PartsCount(pr);
    } else {
      var rules := workflows[name].rules;
      RuleOptionsCounts(workflows, rules, pr, fuel - 1);
      assert Accepted(workflows, name, pr, fuel) == AcceptedVia(workflows, rules, pr, fuel - 1);
    }
  }

  lemma {:induction false} RuleOptionsCounts(workflows: map<string, Workflow>, rules: seq<Rule>, pr: PartRange, fuel: nat)
    requires ValidOps(workflows) && forall i :: 0 <= i < |rules| ==> ValidOp(rules[i])
    requires RuleOptions(workflows, rules, pr, fuel).Ok?
    ensures RuleOptions(workflows, rules, pr, fuel).value == |AcceptedVia(workflows, rules, pr, fuel)|
    decreases fuel, |rules|
  {
    if |rules| == 0 {
      assert AcceptedVia(workflows, rules, pr, fuel) == {};
    } else {
      var rule := rules[0];
      var (pass, fail) := Split(pr, rule).value;
      var here, rest := RuleOptionsStep(workflows, rules, pr, fuel);
      if pass.Some? {
        NumOptionsCounts(workflows, rule.action, pass.value, fuel);
      }
      if fail.Some? {
        RuleOptionsCounts(workflows, rules[1..], fail.value, fuel);
      }
      ViaUnion(workflows, rules, pr, fuel);
    }
  }

  /** The parts the pass box sends to acceptance through the first rule's
      action, and those the fail box sends on through the later rules. */
  ghost function ViaPass(workflows: map<string, Workflow>, rules: seq<Rule>, pr: PartRange, fuel: nat): set<Part>
    requires |rules| > 0 && Split(pr, rules[0]).Ok?
  {
    var pass := Split(pr, rules[0]).value.0;
    if pass.Some? then Accepted(workflows, rules[0].action, pass.value, fuel) else {}
  }

  ghost function ViaFail(workflows: map<string, Workflow>, rules: seq<Rule>, pr: PartRange, fuel: nat): set<Part>
    requires |rules| > 0 && Split(pr, rules[0]).Ok?
  {
    var fail := Split(pr, rules[0]).value.1;
    if fail.Some? then AcceptedVia(workflows, rules[1..], fail.value, fuel) else {}
  }

  /** One turn of the rule loop: the count is the pass box's count plus the
      fail box's count through the later rules. */
  lemma RuleOptionsStep(workflows: map<string, Workflow>, rules: seq<Rule>, pr: PartRange, fuel: nat) returns (here: nat, rest: nat)
    requires |rules| > 0 && RuleOptions(workflows, rules, pr, fuel).Ok?
    ensures Split(pr, rules[0]).Ok?
    ensures Split(pr, rules[0]).value.0.Some? ==>
      NumOptions(workflows, rules[0].action, Split(pr, rules[0]).value.0.value, fuel) == Ok(here)
    ensures Split(pr, rules[0]).value.0.None? ==> here == 0
    ensures Split(pr, rules[0]).value.1.Some? ==>
      RuleOptions(workflows, rules[1..], Split(pr, rules[0]).value.1.value, fuel) == Ok(rest)
    ensures Split(pr, rules[0]).value.1.None? ==> rest == 0
    ensures RuleOptions(workflows, rules, pr, fuel).value == here + rest
  {
    var (pass, fail) := Split(pr, rules[0]).value;
    here := if pass.Some? then NumOptions(workflows, rules[0].action, pass.value, fuel).value else 0;
    rest := if fail.Some? then RuleOptions(workflows, rules[1..], fail.value, fuel).value else 0;
  }

  /** The parts the rules accept are those accepted through the pass box
      and those accepted through the fail box, never both. */
  lemma ViaUnion(workflows: map<string, Workflow>, rules: seq<Rule>, pr: PartRange, fuel: nat)
    requires |rules| > 0 && ValidOp(rules[0]) && Split(pr, rules[0]).Ok?
    ensures |AcceptedVia(workflows, rules, pr, fuel)| == |ViaPass(workflows, rules, pr, fuel)| + |ViaFail(workflows, rules, pr, fuel)|
  {
    var whole := AcceptedVia(workflows, rules, pr, fuel);
    var viaPass := ViaPass(workflows, rules, pr, fuel);
    var viaFail := ViaFail(workflows, rules, pr, fuel);
    ViaUnionSets(workflows, rules, pr, fuel);
    DisjointUnion(viaPass, viaFail);
  }

  lemma ViaUnionSets(workflows: map<string, Workflow>, rules: seq<Rule>, pr: PartRange, fuel: nat)
    requires |rules| > 0 && ValidOp(rules[0]) && Split(pr, rules[0]).Ok?
    ensures AcceptedVia(workflows, rules, pr, fuel) == ViaPass(workflows, rules, pr, fuel) + ViaFail(workflows, rules, pr, fuel)
    ensures ViaPass(workflows, rules, pr, fuel) !! ViaFail(workflows, rules, pr, fuel)
  {
    var whole := AcceptedVia(workflows, rules, pr, fuel);
    var viaPass := ViaPass(workflows, rules, pr, fuel);
    var viaFail := ViaFail(workflows, rules, pr, fuel);
    forall p ensures (p in whole <==> p in viaPass || p in viaFail) && !(p in viaPass && p in viaFail) {
      SplitCase(workflows, rules, pr, fuel, p);
    }
  }

  lemma DisjointUnion<T>(a: set<T>, b: set<T>)
    requires a !! b
    ensures |a + b| == |a| + |b|
  {
  }

  /** Where one part goes when the first rule splits its box. */
  lemma SplitCase(workflows: map<string, Workflow>, rules: seq<Rule>, pr: PartRange, fuel: nat, p: Part)
    requires |rules| > 0 && ValidOp(rules[0]) && Split(pr, rules[0]).Ok?
    ensures var (pass, fail) := Split(pr, rules[0]).value;
      && (p in AcceptedVia(workflows, rules, pr, fuel) <==>
           || (pass.Some? && p in Accepted(workflows, rules[0].action, pass.value, fuel))
           || (fail.Some? && p in AcceptedVia(workflows, rules[1..], fail.value, fuel)))
      && !(pass.Some? && fail.Some? && p in Parts(pass.value) && p in Parts(fail.value))
  {
    var (pass, fail) := Split(pr, rules[0]).value;
    InParts(p, pr);
    SplitWithin(pr, rules[0], p);
    if pass.Some? {
      InParts(p, pass.value);
    }
    if fail.Some? {
      InParts(p, fail.value);
    }
    if InBox(p, pr) {
      SplitAgrees(pr, rules[0], p);
    }
  }

  // The size of a box.

  function TotalWidth(pr: PartRange): nat {
    Width(pr.x) + Width(pr.m) + Width(pr.a) + Width(pr.s)
  }

  /** A box holds the product of its range lengths in parts. */
  lemma {:induction false} PartsCount(pr: PartRange)
    ensures |Parts(pr)| == Size(pr)
    decreases TotalWidth(pr), 1
  {
    if Width(pr.x) > 1 {
      CutCount(pr, X);
    } else if Width(pr.m) > 1 {
      CutCount(pr, M);
    } else if Width(pr.a) > 1 {
      CutCount(pr, A);
    } else if Width(pr.s) > 1 {
      CutCount(pr, S);
    } else if Width(pr.x) == 0 {
      EmptyParts(pr, X);
    } else if Width(pr.m) == 0 {
      EmptyParts(pr, M);
    } else if Width(pr.a) == 0 {
      EmptyParts(pr, A);
    } else if Width(pr.s) == 0 {
      EmptyParts(pr, S);
    } else {
      SingleParts(pr);
    }
  }

  /** Count a wide box as its first slice plus the rest. */
  lemma {:induction false} CutCount(pr: PartRange, attr: Attr)
    requires Width(Get(pr, attr)) > 1
    ensures |Parts(pr)| == Size(pr)
    decreases TotalWidth(pr), 0
  {
    var span := Get(pr, attr);
    var low := With(pr, attr, Span(span.start, span.start + 1));
    var high := With(pr, attr, Span(span.start + 1, span.end));
    WidthDecreases(pr, attr, low);
    WidthDecreases(pr, attr, high);
    PartsCount(low);
    PartsCount(high);
    CutCard(pr, attr, span.start + 1, low, high);
    CutSize(pr, attr, span.start + 1, low, high);
  }

  lemma WidthDecreases(pr: PartRange, attr: Attr, q: PartRange)
    requires SameExcept(pr, q, attr) && Width(Get(q, attr)) < Width(Get(pr, attr))
    ensures TotalWidth(q) < TotalWidth(pr)
  {
    assert Get(q, X) == Get(pr, X) || attr == X;
    assert Get(q, M) == Get(pr, M) || attr == M;
    assert Get(q, A) == Get(pr, A) || attr == A;
    assert Get(q, S) == Get(pr, S) || attr == S;
  }

  /** Cutting one range at `c` cuts the box's parts in two. */
  lemma CutParts(pr: PartRange, attr: Attr, c: U32)
    requires Get(pr, attr).start < c < Get(pr, attr).end
    ensures Parts(pr) == Parts(With(pr, attr, Span(Get(pr, attr).start, c))) + Parts(With(pr, attr, Span(c, Get(pr, attr).end)))
    ensures Parts(With(pr, attr, Span(Get(pr, attr).start, c))) !! Parts(With(pr, attr, Span(c, Get(pr, attr).end)))
  {
    var low := With(pr, attr, Span(Get(pr, attr).start, c));
    var high := With(pr, attr, Span(c, Get(pr, attr).end));
    forall p ensures (p in Parts(pr) <==> p in Parts(low) || p in Parts(high)) && !(p in Parts(low) && p in Parts(high)) {
      InParts(p, pr);
      InParts(p, low);
      InParts(p, high);
      SameBox(pr, low, attr, p);
      SameBox(pr, high, attr, p);
    }
  }

  lemma CutCard(pr: PartRange, attr: Attr, c: U32, low: PartRange, high: PartRange)
    requires Get(pr, attr).start < c < Get(pr, attr).end
    requires low == With(pr, attr, Span(Get(pr, attr).start, c)) && high == With(pr, attr, Span(c, Get(pr, attr).end))
    ensures |Parts(pr)| == |Parts(low)| + |Parts(high)|
  {
    CutParts(pr, attr, c);
    DisjointUnion(Parts(low), Parts(high));
  }

  /** The product of the other three range lengths. */
  function Others(pr: PartRange, attr: Attr): nat {
    match attr
    case X => Mul(Mul(Width(pr.m), Width(pr.a)), Width(pr.s))
    case M => Mul(Mul(Width(pr.x), Width(pr.a)), Width(pr.s))
    case A => Mul(Mul(Width(pr.x), Width(pr.m)), Width(pr.s))
    case S => Mul(Mul(Width(pr.x), Width(pr.m)), Width(pr.a))
  }

  lemma SizeFactors(pr: PartRange, attr: Attr)
    ensures Size(pr) == Width(Get(pr, attr)) * Others(pr, attr)
  {
    Reorder(Width(pr.x), Width(pr.m), Width(pr.a), Width(pr.s));
  }

  lemma Reorder(x: int, m: int, a: int, s: int)
    ensures x * m * a * s == x * (m * a * s)
    ensures x * m * a * s == m * (x * a * s)
    ensures x * m * a * s == a * (x * m * s)
    ensures x * m * a * s == s * (x * m * a)
  {
  }

  lemma OthersSame(pr: PartRange, q: PartRange, attr: Attr)
    requires SameExcept(pr, q, attr)
    ensures Others(q, attr) == Others(pr, attr)
  {
    assert forall other :: other != attr ==> Get(q, other) == Get(pr, other);
    assert Get(q, X) == Get(pr, X) || attr == X;
    assert Get(q, M) == Get(pr, M) || attr == M;
    assert Get(q, A) == Get(pr, A) || attr == A;
    assert Get(q, S) == Get(pr, S) || attr == S;
  }

  lemma CutSize(pr: PartRange, attr: Attr, c: U32, low: PartRange, high: PartRange)
    requires Get(pr, attr).start < c < Get(pr, attr).end
    requires low == With(pr, attr, Span(Get(pr, attr).start, c)) && high == With(pr, attr, Span(c, Get(pr, attr).end))
    ensures Size(pr) == Size(low) + Size(high)
  {
    var span := Get(pr, attr);
    SizeFactors(pr, attr);
    SizeFactors(low, attr);
    SizeFactors(high, attr);
    OthersSame(pr, low, attr);
    OthersSame(pr, high, attr);
    DistributeSum(c - span.start, span.end - c, Others(pr, attr));
  }

  lemma DistributeSum(a: int, b: int, c: int)
    ensures (a + b) * c == a * c + b * c
  {
  }

  lemma EmptyParts(pr: PartRange, attr: Attr)
    requires Width(Get(pr, attr)) == 0
    ensures |Parts(pr)| == Size(pr) == 0
  {
    forall p | p in Parts(pr) ensures false {
      InParts(p, pr);
    }
    assert Parts(pr) == {};
  }

  lemma SingleParts(pr: PartRange)
    requires forall attr :: Width(Get(pr, attr)) == 1
    ensures |Parts(pr)| == Size(pr) == 1
  {
    assert Width(Get(pr, X)) == 1 && Width(Get(pr, M)) == 1 && Width(Get(pr, A)) == 1 && Width(Get(pr, S)) == 1;
    var only := Part(pr.x.start, pr.m.start, pr.a.start, pr.s.start);
    forall p ensures p in Parts(pr) <==> p == only {
      InParts(p, pr);
      if InBox(p, pr) {
        assert InSpan(Rating(p, X), Get(pr, X)) && InSpan(Rating(p, M), Get(pr, M));
        assert InSpan(Rating(p, A), Get(pr, A)) && InSpan(Rating(p, S), Get(pr, S));
      }
    }
    assert Parts(pr) == {only};
  }
}
