/** The handheld console's boot code (`y2020/src/d08/mod.rs`): `acc`
    adds its argument to the accumulator, `jmp` moves the program counter by
    its argument, `nop` does nothing; the run stops when the counter leaves
    the program or comes back to an instruction already run. */
module Handheld {
  import opened Wrappers

  datatype Op = Acc | Jmp | Nop

  datatype Instruction = Instruction(op: Op, arg: int)

  /** The machine state: program counter and accumulator. */
  datatype State = State(pc: int, acc: int)

  /** Rust's `usize` is 64 bits wide here. */
  const UsizeModulus: int := 0x1_0000_0000_0000_0000

  /** A `Vec` never holds more than `isize::MAX` elements. */
  const MaxLength: int := 0x8000_0000_0000_0000

  /** `pc as usize` for an `i32` counter: a negative one wraps around to a
      huge index. */
  function AsUsize(pc: int): (r: nat)
    requires -0x8000_0000 <= pc
    ensures pc >= 0 ==> r == pc
    ensures pc < 0 ==> r >= MaxLength
  {
    if pc < 0 then pc + UsizeModulus else pc
  }

  predicate InRange(program: seq<Instruction>, pc: int) {
    0 <= pc < |program|
  }

  /** One instruction: `acc` and `nop` fall through to the next one, `jmp`
      adds its argument to the counter. */
  function Step(program: seq<Instruction>, s: State): (r: State)
    requires InRange(program, s.pc)
    ensures program[s.pc].op != Jmp ==> r.pc == s.pc + 1
    ensures program[s.pc].op == Jmp ==> r.pc == s.pc + program[s.pc].arg
    ensures program[s.pc].op == Acc ==> r.acc == s.acc + program[s.pc].arg
    ensures program[s.pc].op != Acc ==> r.acc == s.acc
  {
    var ins := program[s.pc];
    match ins.op
    case Acc => State(s.pc + 1, s.acc + ins.arg)
    case Jmp => State(s.pc + ins.arg, s.acc)
    case Nop => State(s.pc + 1, s.acc)
  }

  /** The state after `k` steps from the start, frozen once the counter has
      left the program. */
  function Iterate(program: seq<Instruction>, k: nat): State {
    if k == 0 then State(0, 0)
    else
      var s := Iterate(program, k - 1);
      if InRange(program, s.pc) then Step(program, s) else s
  }

  /** The program ends, with accumulator `acc`. */
  ghost predicate HaltsWith(program: seq<Instruction>, acc: int) {
    exists k: nat :: !InRange(program, Iterate(program, k).pc) && Iterate(program, k).acc == acc
  }

  ghost predicate Halts(program: seq<Instruction>) {
    exists k: nat :: !InRange(program, Iterate(program, k).pc)
  }

  /** Each of the first `k` steps ran an instruction inside the program. */
  ghost predicate Inside(program: seq<Instruction>, k: nat) {
    forall i: nat :: i < k ==> InRange(program, Iterate(program, i).pc)
  }

  /** The first `k` steps ran `k` different instructions. */
  ghost predicate AllDifferent(program: seq<Instruction>, k: nat) {
    forall i: nat, j: nat :: i < j < k ==> Iterate(program, i).pc != Iterate(program, j).pc
  }

  /** The counters of the first `k` steps. */
  ghost function Seen(program: seq<Instruction>, k: nat): set<int> {
    set i: nat | i < k :: Iterate(program, i).pc
  }

  /** `accumulator_value_at_loop_or_finish`: `Ok` with the final
      accumulator when the program ends, `Err` with the accumulator just
      before the first instruction would run a second time. The loop stops
      when `get(pc as usize)` finds nothing, and the answer is `Ok` exactly
      when `pc as usize` is past the end. */
  method Run(program: seq<Instruction>) returns (r: Result<int, int>)
    requires |program| < MaxLength
    ensures r.Ok? <==> Halts(program)
    ensures r.Ok? ==> HaltsWith(program, r.value)
    ensures r.Err? ==> exists k: nat :: FirstRepeat(program, k) && Iterate(program, k).acc == r.error
  {
    var acc := 0;
    var pc := 0;
    var seen: set<int> := {};
    ghost var k: nat := 0;
    while InRange(program, pc)
      invariant Looping(program, k, State(pc, acc), seen)
      decreases |program| - |seen|
    {
      if pc in seen {
        break;
      }
      ghost var before, seenBefore := State(pc, acc), seen;
      seen := seen + {pc};
      var ins := program[pc];
      match ins.op {
        case Acc => acc := acc + ins.arg;
        case Jmp => pc := pc + ins.arg;
        case Nop =>
      }
      if ins.op != Jmp {
        pc := pc + 1;
      }
      VisitOne(program, k, before, State(pc, acc), seenBefore);
      k := k + 1;
    }
    if !InRange(program, pc) {
      assert pc >= -0x8000_0000 ==> AsUsize(pc) >= |program|;
      Ended(program, k, State(pc, acc), seen);
      return Ok(acc);
    }
    Repeated(program, k, State(pc, acc), seen);
    return Err(acc);
  }

  /** What the loop knows after `k` steps: the state is the one `k` steps
      in, those steps ran different instructions inside the program, and
      `seen` holds their counters. */
  ghost predicate Looping(program: seq<Instruction>, k: nat, s: State, seen: set<int>) {
    && s == Iterate(program, k)
    && Inside(program, k) && AllDifferent(program, k) && seen == Seen(program, k)
    && |seen| <= |program|
  }

  /** Leaving the program ends the run with the current accumulator. */
  lemma Ended(program: seq<Instruction>, k: nat, s: State, seen: set<int>)
    requires Looping(program, k, s, seen) && !InRange(program, s.pc)
    ensures Halts(program) && HaltsWith(program, s.acc)
  {
  }

  /** The counter is back at an instruction already run, for the first
      time. */
  ghost predicate FirstRepeat(program: seq<Instruction>, k: nat) {
    && Inside(program, k) && AllDifferent(program, k)
    && exists j: nat :: j < k && Iterate(program, j).pc == Iterate(program, k).pc
  }

  /** Running one more new instruction inside the program extends what the
      loop knows by one step. */
  lemma VisitOne(program: seq<Instruction>, k: nat, s: State, next: State, seen: set<int>)
    requires Looping(program, k, s, seen) && InRange(program, s.pc) && s.pc !in seen
    requires next == Step(program, s)
    ensures Looping(program, k + 1, next, seen + {s.pc})
  {
    NextState(program, k);
    OneMoreInside(program, k);
    OneMoreDifferent(program, k);
    OneMoreSeen(program, k);
    BoundedSet(Seen(program, k + 1), |program|);
  }

  lemma NextState(program: seq<Instruction>, k: nat)
    requires InRange(program, Iterate(program, k).pc)
    ensures Iterate(program, k + 1) == Step(program, Iterate(program, k))
  {
  }

  lemma OneMoreInside(program: seq<Instruction>, k: nat)
    requires Inside(program, k) && InRange(program, Iterate(program, k).pc)
    ensures Inside(program, k + 1)
  {
  }

  lemma OneMoreDifferent(program: seq<Instruction>, k: nat)
    requires AllDifferent(program, k) && Iterate(program, k).pc !in Seen(program, k)
    ensures AllDifferent(program, k + 1)
  {
    forall i: nat, j: nat | i < j < k + 1 ensures Iterate(program, i).pc != Iterate(program, j).pc {
      if j == k {
        assert Iterate(program, i).pc in Seen(program, k);
      }
    }
  }

  lemma OneMoreSeen(program: seq<Instruction>, k: nat)
    ensures Seen(program, k + 1) == Seen(program, k) + {Iterate(program, k).pc}
  {
    var pc := Iterate(program, k).pc;
    forall x | x in Seen(program, k + 1) ensures x in Seen(program, k) + {pc} {
      var i: nat :| i < k + 1 && Iterate(program, i).pc == x;
      if i < k {
        assert x in Seen(program, k);
      }
    }
    forall x | x in Seen(program, k) + {pc} ensures x in Seen(program, k + 1) {
      if x == pc {
        assert Iterate(program, k).pc == x;
      } else {
        var i: nat :| i < k && Iterate(program, i).pc == x;
        assert Iterate(program, i).pc in Seen(program, k + 1);
      }
    }
  }

  /** A set of counters inside the program is no bigger than the
      program. */
  lemma {:induction false} BoundedSet(s: set<int>, n: nat)
    requires forall p :: p in s ==> 0 <= p < n
    ensures |s| <= n
    decreases n
  {
    if n > 0 {
      BoundedSet(s - {n - 1}, n - 1);
    } else {
      assert forall p :: p !in s;
    }
  }

  /** Stopping at a counter already visited is a first repeat, and then the
      program never ends. */
  lemma Repeated(program: seq<Instruction>, k: nat, s: State, seen: set<int>)
    requires Looping(program, k, s, seen) && s.pc in seen
    ensures FirstRepeat(program, k) && Iterate(program, k).acc == s.acc && !Halts(program)
  {
    var j: nat :| j < k && Iterate(program, j).pc == Iterate(program, k).pc;
    forall n: nat ensures InRange(program, Iterate(program, n).pc) {
      StaysInLoop(program, j, k, n);
    }
  }

  /** Where the counter goes next depends on the counter alone. */
  lemma {:induction false} SamePcSameFuture(program: seq<Instruction>, a: nat, b: nat, m: nat)
    requires Iterate(program, a).pc == Iterate(program, b).pc
    ensures Iterate(program, a + m).pc == Iterate(program, b + m).pc
    decreases m
  {
    if m > 0 {
      SamePcSameFuture(program, a, b, m - 1);
      assert Iterate(program, a + m).pc == Iterate(program, b + m).pc by {
        var s, t := Iterate(program, a + m - 1), Iterate(program, b + m - 1);
        assert Iterate(program, a + m) == if InRange(program, s.pc) then Step(program, s) else s;
        assert Iterate(program, b + m) == if InRange(program, t.pc) then Step(program, t) else t;
      }
    }
  }

  /** Once the counter repeats, every later step runs an instruction inside
      the program. */
  lemma {:induction false} StaysInLoop(program: seq<Instruction>, j: nat, k: nat, n: nat)
    requires j < k && Iterate(program, j).pc == Iterate(program, k).pc
    requires forall i: nat :: i < k ==> InRange(program, Iterate(program, i).pc)
    ensures InRange(program, Iterate(program, n).pc)
    decreases n
  {
    if n >= k {
      var back := n - (k - j);
      StaysInLoop(program, j, k, back);
      SamePcSameFuture(program, j, k, back - j);
    }
  }

  /** Once the counter has left the program nothing changes, so a program
      ends with one accumulator only. */
  lemma {:induction false} HaltedStays(program: seq<Instruction>, k: nat, n: nat)
    requires !InRange(program, Iterate(program, k).pc) && k <= n
    ensures Iterate(program, n) == Iterate(program, k)
    decreases n
  {
    if n > k {
      HaltedStays(program, k, n - 1);
    }
  }

  lemma HaltsWithOne(program: seq<Instruction>, a: int, b: int)
    requires HaltsWith(program, a) && HaltsWith(program, b)
    ensures a == b
  {
    var k: nat :| !InRange(program, Iterate(program, k).pc) && Iterate(program, k).acc == a;
    var n: nat :| !InRange(program, Iterate(program, n).pc) && Iterate(program, n).acc == b;
    if k <= n {
      HaltedStays(program, k, n);
    } else {
      HaltedStays(program, n, k);
    }
  }

  /** The program with instruction `i` switched between `jmp` and `nop`. */
  function Flip(program: seq<Instruction>, i: nat): (r: seq<Instruction>)
    requires i < |program| && program[i].op != Acc
    ensures |r| == |program| && r[i].arg == program[i].arg && r[i].op != program[i].op && r[i].op != Acc
    ensures forall j :: 0 <= j < |r| && j != i ==> r[j] == program[j]
  {
    program[i := program[i].(op := if program[i].op == Jmp then Nop else Jmp)]
  }

  /** Switching the same instruction twice gives the program back, which is
      how an unsuccessful switch is undone. */
  lemma FlipTwice(program: seq<Instruction>, i: nat)
    requires i < |program| && program[i].op != Acc
    ensures Flip(Flip(program, i), i) == program
  {
  }

  /** `corrected_output`: tries switching each `jmp`/`nop` in turn, first
      to last, and answers the accumulator of the first switched program
      that ends. That switch stays in the program; every unsuccessful one is
      undone, and when none works the source panics. */
  method CorrectedOutput(program: seq<Instruction>) returns (r: Option<int>, after: seq<Instruction>)
    requires |program| < MaxLength
    ensures r.None? ==> after == program
    ensures r.None? ==> forall i :: 0 <= i < |program| && program[i].op != Acc ==> !Halts(Flip(program, i))
    ensures r.Some? ==> exists i :: FixedAt(program, i, after, r.value)
  {
    after := program;
    for idx := 0 to |program|
      invariant after == program
      invariant NoEarlierFix(program, idx)
    {
      if program[idx].op == Acc {
        continue;
      }
      after := Flip(program, idx);
      var run := Run(after);
      if run.Ok? {
        assert FixedAt(program, idx, after, run.value);
        return Some(run.value), after;
      }
      after := program;
    }
    return None, after;
  }

  /** Switching instruction `i` gives `after`, which ends with accumulator
      `acc`, and no earlier switch works. */
  ghost predicate FixedAt(program: seq<Instruction>, i: int, after: seq<Instruction>, acc: int) {
    && 0 <= i < |program| && program[i].op != Acc && after == Flip(program, i)
    && HaltsWith(after, acc) && NoEarlierFix(program, i)
  }

  /** No switch of a `jmp` or `nop` before position `idx` makes the program
      end. */
  ghost predicate NoEarlierFix(program: seq<Instruction>, idx: nat) {
    forall i :: 0 <= i < idx && i < |program| && program[i].op != Acc ==> !Halts(Flip(program, i))
  }
}
