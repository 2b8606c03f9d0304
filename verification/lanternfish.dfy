/** Lanternfish population growth (`y2021/src/d06/mod.rs`). Fish are
    counted by the days left on their timer; each day a fish at 0 resets to
    6 and spawns a new fish at 8, and every other timer counts down.

    The source keeps the counts in a `HashMap<u32, u64>` and builds the next
    day's map by iterating the current one in the map's own, unspecified
    order. Here an iteration is any enumeration of the map's entries
    (`Enumerates`), and the counts for timers 0..=8 are also kept as a
    sequence of nine numbers (`Day`, `After`), which is what every
    enumeration of the map computes. */
module Lanternfish {

  // ---------------------------------------------------------------------------
  // Counts by timer

  /** The number of fish the nine counts stand for. */
  function Total(c: seq<nat>): nat
    requires |c| == 9
  {
    c[0] + c[1] + c[2] + c[3] + c[4] + c[5] + c[6] + c[7] + c[8]
  }

  /** One day on the nine counts for timers 0..=8. */
  function Day(c: seq<nat>): (r: seq<nat>)
    requires |c| == 9
    ensures |r| == 9
  {
    [c[1], c[2], c[3], c[4], c[5], c[6], c[7] + c[0], c[8], c[0]]
  }

  /** The counts after `days` days. */
  function After(c: seq<nat>, days: nat): (r: seq<nat>)
    requires |c| == 9
    ensures |r| == 9
  {
    if days == 0 then c else Day(After(c, days - 1))
  }

  /** `simulate` on counts: the number of fish after `days` days. */
  function Simulate(c: seq<nat>, days: nat): nat
    requires |c| == 9
  {
    Total(After(c, days))
  }

  /** The day loop of `simulate`, then the sum of the counts. */
  method SimulateLoop(c: seq<nat>, days: nat) returns (total: nat)
    requires |c| == 9
    ensures total == Simulate(c, days)
  {
    var counts := c;
    for i := 0 to days
      invariant counts == After(c, i)
    {
      counts := Day(counts);
    }
    total := Total(counts);
  }

  /** One day adds exactly one newborn for every fish whose timer is at 0. */
  lemma DayAddsNewborns(c: seq<nat>)
    requires |c| == 9
    ensures Total(Day(c)) == Total(c) + c[0]
  {
  }

  /** The population never shrinks. */
  lemma {:induction false} PopulationGrows(c: seq<nat>, days: nat)
    requires |c| == 9
    ensures Simulate(c, days) >= Total(c)
    decreases days
  {
    if days > 0 {
      PopulationGrows(c, days - 1);
      DayAddsNewborns(After(c, days - 1));
    }
  }

  // ---------------------------------------------------------------------------
  // The map the source keeps

  /** A count in the map; a missing timer counts 0 (`or_default`). */
  function Entry(m: map<nat, nat>, timer: nat): nat {
    if timer in m then m[timer] else 0
  }

  /** The nine counts a map with timers 0..=8 stands for. */
  function CountsOf(m: map<nat, nat>): (c: seq<nat>)
    ensures |c| == 9 && forall t :: 0 <= t < 9 ==> c[t] == Entry(m, t)
  {
    seq(9, t requires 0 <= t < 9 => Entry(m, t))
  }

  predicate Timers(m: map<nat, nat>) {
    forall t :: t in m ==> t <= 8
  }

  /** `entries` lists every entry of `m` exactly once, in some order: what
      iterating a `HashMap` yields. */
  predicate Enumerates(entries: seq<(nat, nat)>, m: map<nat, nat>)
    decreases |entries|
  {
    if |entries| == 0 then m == map[]
    else
      && entries[0].0 in m && m[entries[0].0] == entries[0].1
      && Enumerates(entries[1..], m - {entries[0].0})
  }

  /** The body of the day loop over the entries in iteration order: a timer
      at 0 first inserts its number at 8 (replacing what is there) and then
      counts as a 7; every entry then adds its number at its timer minus 1. */
  function NextDay(entries: seq<(nat, nat)>, next: map<nat, nat>): map<nat, nat>
    decreases |entries|
  {
    if |entries| == 0 then next
    else
      var (timer, number) := entries[0];
      var spawned := if timer == 0 then next[8 := number] else next;
      var counted := if timer == 0 then 7 else timer;
      NextDay(entries[1..], spawned[counted - 1 := Entry(spawned, counted - 1) + number])
  }

  /** What the entries of `m` add at timer `t` over a day. */
  function Received(m: map<nat, nat>, t: nat): nat {
    Entry(m, t + 1) + (if t == 6 || t == 8 then Entry(m, 0) else 0)
  }

  /** Whatever the iteration order, each count of the next day is the count
      already there plus what the entries send to it. The insertion at 8
      adds rather than replaces, because nothing else reaches 8 and only one
      entry has timer 0. */
  lemma {:induction false} NextDayEntry(entries: seq<(nat, nat)>, m: map<nat, nat>, next: map<nat, nat>, t: nat)
    requires Enumerates(entries, m) && Timers(m)
    requires 0 in m ==> Entry(next, 8) == 0
    ensures Entry(NextDay(entries, next), t) == Entry(next, t) + Received(m, t)
    decreases |entries|
  {
    if |entries| == 0 {
      assert m == map[];
    } else {
      var (timer, number) := entries[0];
      var rest := m - {timer};
      var spawned := if timer == 0 then next[8 := number] else next;
      var counted := if timer == 0 then 7 else timer;
      var next' := spawned[counted - 1 := Entry(spawned, counted - 1) + number];
      assert timer <= 8;
      assert Timers(rest);
      assert 0 in rest ==> Entry(next', 8) == 0;
      NextDayEntry(entries[1..], rest, next', t);
      assert Entry(m, timer) == number;
      assert forall u :: u != timer ==> Entry(m, u) == Entry(rest, u);
      assert Entry(rest, timer) == 0;
    }
  }

  /** The map only ever holds timers 0..=8. */
  lemma {:induction false} NextDayTimers(entries: seq<(nat, nat)>, m: map<nat, nat>, next: map<nat, nat>)
    requires Enumerates(entries, m) && Timers(m) && Timers(next)
    ensures Timers(NextDay(entries, next))
    decreases |entries|
  {
    if |entries| > 0 {
      var (timer, number) := entries[0];
      var spawned := if timer == 0 then next[8 := number] else next;
      var counted := if timer == 0 then 7 else timer;
      NextDayTimers(entries[1..], m - {timer}, spawned[counted - 1 := Entry(spawned, counted - 1) + number]);
    }
  }

  /** One iteration of the day loop on a map, in any iteration order,
      computes `Day` on the counts and keeps the timers in 0..=8: a timer at
      0 resets to 6 and spawns the same number at 8, every other timer
      counts down. */
  lemma DayOnMap(entries: seq<(nat, nat)>, m: map<nat, nat>)
    requires Enumerates(entries, m) && Timers(m)
    ensures CountsOf(NextDay(entries, map[])) == Day(CountsOf(m))
    ensures Timers(NextDay(entries, map[]))
  {
    forall t | 0 <= t < 9
      ensures Entry(NextDay(entries, map[]), t) == Received(m, t)
    {
      NextDayEntry(entries, m, map[], t);
    }
    ReceivedDay(NextDay(entries, map[]), m);
    NextDayTimers(entries, m, map[]);
  }

  /** Counts that received what the entries of `m` send are `Day` of the
      counts of `m`. */
  lemma ReceivedDay(next: map<nat, nat>, m: map<nat, nat>)
    requires Timers(m) && forall t :: 0 <= t < 9 ==> Entry(next, t) == Received(m, t)
    ensures CountsOf(next) == Day(CountsOf(m))
  {
    assert Entry(m, 9) == 0;
  }

  /** Why the timers must stay in 0..=8: with a timer of 9 the insertion
      at 8 can overwrite what that timer sent there, so the next day depends
      on the iteration order. */
  lemma OrderMattersPastEight()
    ensures Entry(NextDay([(9, 1), (0, 2)], map[]), 8) == 2
    ensures Entry(NextDay([(0, 2), (9, 1)], map[]), 8) == 3
  {
  }

  /** `values().sum()` over an enumeration of the map. */
  function SumValues(entries: seq<(nat, nat)>): nat
    decreases |entries|
  {
    if |entries| == 0 then 0 else entries[0].1 + SumValues(entries[1..])
  }

  /** The sum of the map's values is the total of its counts. */
  lemma {:induction false} SumValuesTotal(entries: seq<(nat, nat)>, m: map<nat, nat>)
    requires Enumerates(entries, m) && Timers(m)
    ensures SumValues(entries) == Total(CountsOf(m))
    decreases |entries|
  {
    if |entries| > 0 {
      var (timer, number) := entries[0];
      var rest := m - {timer};
      SumValuesTotal(entries[1..], rest);
      forall t | 0 <= t < 9
        ensures Entry(m, t) == Entry(rest, t) + (if t == timer then number else 0)
      {
      }
    }
  }

  // ---------------------------------------------------------------------------
  // Individual fish

  /** How many fish have timer `t`. */
  function CountFish(fish: seq<nat>, t: nat): nat
    decreases |fish|
  {
    if |fish| == 0 then 0 else (if fish[0] == t then 1 else 0) + CountFish(fish[1..], t)
  }

  /** The counting loop of `main`: `entry(age).or_insert(0) += 1` for each
      fish in turn. */
  function BuildCounts(fish: seq<nat>, m: map<nat, nat>): map<nat, nat>
    decreases |fish|
  {
    if |fish| == 0 then m else BuildCounts(fish[1..], m[fish[0] := Entry(m, fish[0]) + 1])
  }

  /** The map `main` builds counts every timer among the fish, and holds
      no other timer. */
  lemma {:induction false} BuildCountsCounts(fish: seq<nat>, m: map<nat, nat>, t: nat)
    ensures Entry(BuildCounts(fish, m), t) == Entry(m, t) + CountFish(fish, t)
    ensures t in BuildCounts(fish, m) ==> t in m || CountFish(fish, t) > 0
    decreases |fish|
  {
    if |fish| > 0 {
      BuildCountsCounts(fish[1..], m[fish[0] := Entry(m, fish[0]) + 1], t);
    }
  }

  /** One day for each fish on its own: a fish at 0 goes to 6 and a new
      fish at 8 joins at the end; every other fish counts down. */
  function DayFish(fish: seq<nat>): (r: seq<nat>)
    decreases |fish|
  {
    if |fish| == 0 then []
    else if fish[0] == 0 then [6] + DayFish(fish[1..]) + [8]
    else [fish[0] - 1] + DayFish(fish[1..])
  }

  function FishAfter(fish: seq<nat>, days: nat): seq<nat> {
    if days == 0 then fish else DayFish(FishAfter(fish, days - 1))
  }

  predicate FishTimers(fish: seq<nat>) {
    forall i :: 0 <= i < |fish| ==> fish[i] <= 8
  }

  function CountsOfFish(fish: seq<nat>): (c: seq<nat>)
    ensures |c| == 9 && forall t :: 0 <= t < 9 ==> c[t] == CountFish(fish, t)
  {
    seq(9, t requires 0 <= t < 9 => CountFish(fish, t))
  }

  lemma {:induction false} CountFishConcat(a: seq<nat>, b: seq<nat>, t: nat)
    ensures CountFish(a + b, t) == CountFish(a, t) + CountFish(b, t)
    decreases |a|
  {
    if |a| == 0 {
      assert a + b == b;
    } else {
      assert (a + b)[1..] == a[1..] + b;
      CountFishConcat(a[1..], b, t);
    }
  }

  /** Counting the fish after one day of each fish gives `Day` of the
      counts, and the timers stay in 0..=8. */
  lemma {:induction false} DayFishCounts(fish: seq<nat>, t: nat)
    requires FishTimers(fish) && t < 9
    ensures CountFish(DayFish(fish), t) == Day(CountsOfFish(fish))[t]
    ensures FishTimers(DayFish(fish))
    decreases |fish|
  {
    if |fish| > 0 {
      TimersTail(fish);
      DayFishCounts(fish[1..], t);
      if fish[0] == 0 {
        DayFishSpawns(fish, t);
      } else {
        DayFishCountsDown(fish, t);
      }
    }
  }

  /** The first fish is at 0: it counts at 6 and its newborn at 8. */
  lemma DayFishSpawns(fish: seq<nat>, t: nat)
    requires |fish| > 0 && fish[0] == 0
    ensures CountFish(DayFish(fish), t)
         == CountFish(DayFish(fish[1..]), t) + (if t == 6 then 1 else 0) + (if t == 8 then 1 else 0)
    ensures FishTimers(DayFish(fish[1..])) ==> FishTimers(DayFish(fish))
  {
    var tail := DayFish(fish[1..]);
    CountFishConcat([6] + tail, [8], t);
    CountFishConcat([6], tail, t);
    assert DayFish(fish) == [6] + tail + [8];
  }

  /** The first fish is past 0: it counts one timer lower. */
  lemma DayFishCountsDown(fish: seq<nat>, t: nat)
    requires |fish| > 0 && fish[0] > 0
    ensures CountFish(DayFish(fish), t) == CountFish(DayFish(fish[1..]), t) + (if t == fish[0] - 1 then 1 else 0)
    ensures FishTimers(DayFish(fish[1..])) && fish[0] <= 8 ==> FishTimers(DayFish(fish))
  {
    var tail := DayFish(fish[1..]);
    assert DayFish(fish) == [fish[0] - 1] + tail;
    assert ([fish[0] - 1] + tail)[1..] == tail;
  }

  /** Each fish's timer is counted at exactly one of 0..=8. */
  lemma {:induction false} FishTotal(fish: seq<nat>)
    requires FishTimers(fish)
    ensures Total(CountsOfFish(fish)) == |fish|
    decreases |fish|
  {
    if |fish| > 0 {
      TimersTail(fish);
      FishTotal(fish[1..]);
    }
  }

  lemma TimersTail(fish: seq<nat>)
    requires FishTimers(fish) && |fish| > 0
    ensures FishTimers(fish[1..]) && fish[0] <= 8
  {
    forall i | 0 <= i < |fish| - 1 ensures fish[1..][i] <= 8 {
      assert fish[1..][i] == fish[i + 1];
    }
  }

  /** Counting by timer loses nothing: after any number of days the counts
      are those of the fish simulated one by one. */
  lemma {:induction false} AfterCountsFish(fish: seq<nat>, days: nat)
    requires FishTimers(fish)
    ensures After(CountsOfFish(fish), days) == CountsOfFish(FishAfter(fish, days))
    ensures FishTimers(FishAfter(fish, days))
    decreases days
  {
    if days > 0 {
      AfterCountsFish(fish, days - 1);
      var before := FishAfter(fish, days - 1);
      forall t | 0 <= t < 9
        ensures CountFish(DayFish(before), t) == Day(CountsOfFish(before))[t]
      {
        DayFishCounts(before, t);
      }
      DayFishCounts(before, 0);
    }
  }

  /** `simulate` on the counts of a school of fish is the number of fish
      the school grows to. */
  lemma SimulateCountsFish(fish: seq<nat>, days: nat)
    requires FishTimers(fish)
    ensures Simulate(CountsOfFish(fish), days) == |FishAfter(fish, days)|
  {
    AfterCountsFish(fish, days);
    FishTotal(FishAfter(fish, days));
  }
}
