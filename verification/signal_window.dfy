/** Finding the start-of-packet marker (`src/y2022/d06/mod.rs`): the first
    position after which the last `n` characters are pairwise distinct. The
    source slides a window over the input, keeping a count per character and
    the number of characters seen twice or more in the window. */
module SignalWindow {
  import opened Wrappers

  predicate Distinct(s: seq<char>) {
    forall i, j :: 0 <= i < j < |s| ==> s[i] != s[j]
  }

  /** The window of `n` characters that ends just before position `end`. */
  predicate MarkerAt(input: seq<char>, n: nat, end: nat)
    requires n <= end <= |input|
  {
    Distinct(input[end - n..end])
  }

  /** The count map's value for `c`, 0 when absent (`or_default`). */
  function Get(counts: map<char, nat>, c: char): nat {
    if c in counts then counts[c] else 0
  }

  /** The characters the window holds at least twice. */
  function Doubled(counts: map<char, nat>): set<char> {
    set c | c in counts && counts[c] >= 2
  }

  /** `counts` holds, for every character, how often it occurs in
      `window`. */
  predicate Counts(counts: map<char, nat>, window: seq<char>) {
    forall c :: Get(counts, c) == multiset(window)[c]
  }

  /** What the loop knows before position `i`: the counts are those of the
      window (the last `n - 1` characters, fewer at the start), `dupes` is
      the number of doubled characters, and no marker ends at or before
      `i`. */
  predicate Scanned(input: seq<char>, n: nat, i: nat, counts: map<char, nat>, dupes: nat)
    requires 0 < n && i <= |input|
  {
    && Counts(counts, input[Low(i, n - 1)..i])
    && dupes == |Doubled(counts)|
    && forall end :: n <= end <= i ==> !MarkerAt(input, n, end)
  }

  /** The same after position `i` has been counted into the window. */
  predicate Counted(input: seq<char>, n: nat, i: nat, counts: map<char, nat>, dupes: nat)
    requires 0 < n && i < |input|
  {
    && Counts(counts, input[Low(i, n - 1)..i + 1])
    && dupes == |Doubled(counts)|
    && forall end :: n <= end <= i ==> !MarkerAt(input, n, end)
  }

  /** `find_pos`: the end of the first window of `n` distinct characters,
      or 0 when there is none. `n - 1` underflows for `n == 0` and panics. */
  method FindPos(input: seq<char>, n: nat) returns (r: Option<nat>)
    ensures r.None? <==> n == 0
    ensures r.Some? && r.value == 0 ==>
      forall end :: n <= end <= |input| ==> !MarkerAt(input, n, end)
    ensures r.Some? && r.value != 0 ==>
      && n <= r.value <= |input|
      && MarkerAt(input, n, r.value)
      && forall end :: n <= end < r.value ==> !MarkerAt(input, n, end)
  {
    if n == 0 {
      return None;
    }
    var offset := n - 1;
    var counts: map<char, nat> := map[];
    var dupes := 0;
    assert Doubled(counts) == {};
    for i := 0 to |input|
      invariant Scanned(input, n, i, counts, dupes)
    {
      var letter := input[i];
      var added := counts[letter := Get(counts, letter) + 1];
      var addedDupes := dupes + if Get(counts, letter) + 1 == 2 then 1 else 0;
      AddStep(input, n, i, counts, dupes, added, addedDupes);
      counts, dupes := added, addedDupes;
      if i < offset {
        WarmingUp(input, n, i, counts, dupes);
        continue;
      }
      WindowIsMarker(counts, input, n, i);
      if dupes == 0 {
        return Some(i + 1);
      }
      var old_letter := input[i - offset];
      var dropped := counts[old_letter := Get(counts, old_letter) - 1];
      var droppedDupes := dupes - if Get(counts, old_letter) - 1 == 1 then 1 else 0;
      DropStep(input, n, i, counts, dupes, dropped, droppedDupes);
      counts, dupes := dropped, droppedDupes;
    }
    return Some(0);
  }

  /** Counting position `i`: its count goes up by one, and it becomes a
      doubled character when that count reaches 2. */
  lemma AddStep(input: seq<char>, n: nat, i: nat, counts: map<char, nat>, dupes: nat, added: map<char, nat>, addedDupes: nat)
    requires 0 < n && i < |input| && Scanned(input, n, i, counts, dupes)
    requires added == counts[input[i] := Get(counts, input[i]) + 1]
    requires addedDupes == dupes + if Get(counts, input[i]) + 1 == 2 then 1 else 0
    ensures Counted(input, n, i, added, addedDupes)
  {
    AddLetter(counts, input, Low(i, n - 1), i);
  }

  /** While fewer than `n` characters have been read the window keeps them
      all. */
  lemma WarmingUp(input: seq<char>, n: nat, i: nat, counts: map<char, nat>, dupes: nat)
    requires 0 < n && i + 1 < n && i < |input| && Counted(input, n, i, counts, dupes)
    ensures Scanned(input, n, i + 1, counts, dupes)
  {
    assert Low(i + 1, n - 1) == Low(i, n - 1) == 0;
  }

  /** With no marker ending after position `i`, the window's oldest
      character is uncounted; it stops being doubled when its count falls
      to 1. */
  lemma DropStep(input: seq<char>, n: nat, i: nat, counts: map<char, nat>, dupes: nat, dropped: map<char, nat>, droppedDupes: nat)
    requires 0 < n <= i + 1 <= |input| && Counted(input, n, i, counts, dupes)
    requires !MarkerAt(input, n, i + 1)
    requires dropped == counts[input[i + 1 - n] := Get(counts, input[i + 1 - n]) - 1]
    requires droppedDupes == dupes - if Get(counts, input[i + 1 - n]) - 1 == 1 then 1 else 0
    ensures Scanned(input, n, i + 1, dropped, droppedDupes)
  {
    assert Low(i, n - 1) == i + 1 - n;
    assert Low(i + 1, n - 1) == i + 2 - n;
    DropLetter(counts, input, i + 1 - n, i + 1);
  }

  /** Counting the next character extends the window by it; the doubled
      characters gain it exactly when its count reaches 2. */
  lemma AddLetter(counts: map<char, nat>, input: seq<char>, lo: nat, i: nat)
    requires lo <= i < |input| && Counts(counts, input[lo..i])
    ensures Counts(counts[input[i] := Get(counts, input[i]) + 1], input[lo..i + 1])
    ensures |Doubled(counts[input[i] := Get(counts, input[i]) + 1])|
         == |Doubled(counts)| + if Get(counts, input[i]) + 1 == 2 then 1 else 0
  {
    var c := input[i];
    assert input[lo..i + 1] == input[lo..i] + [c];
    var after := counts[c := Get(counts, c) + 1];
    forall d ensures Get(after, d) == multiset(input[lo..i + 1])[d] {
      assert multiset(input[lo..i + 1])[d] == multiset(input[lo..i])[d] + if d == c then 1 else 0;
    }
    AddOne(counts, c);
  }

  /** Uncounting the window's first character drops it from the window; the
      doubled characters lose it exactly when its count falls to 1. */
  lemma DropLetter(counts: map<char, nat>, input: seq<char>, lo: nat, end: nat)
    requires lo < end <= |input| && Counts(counts, input[lo..end])
    ensures Get(counts, input[lo]) >= 1
    ensures Counts(counts[input[lo] := Get(counts, input[lo]) - 1], input[lo + 1..end])
    ensures |Doubled(counts[input[lo] := Get(counts, input[lo]) - 1])|
         == |Doubled(counts)| - if Get(counts, input[lo]) - 1 == 1 then 1 else 0
  {
    var c := input[lo];
    assert input[lo..end] == [c] + input[lo + 1..end];
    var after := counts[c := Get(counts, c) - 1];
    forall d ensures Get(after, d) == multiset(input[lo + 1..end])[d] {
      assert multiset(input[lo..end])[d] == multiset(input[lo + 1..end])[d] + if d == c then 1 else 0;
    }
    RemoveOne(counts, c);
  }

  /** Where the window starts before position `i` is added: the last
      `offset` characters, or all of them while there are fewer. */
  function Low(i: nat, offset: nat): nat {
    if i <= offset then 0 else i - offset
  }

  /** Counting one more `c` adds `c` to the doubled characters exactly when
      its count reaches 2. */
  lemma AddOne(counts: map<char, nat>, c: char)
    ensures |Doubled(counts[c := Get(counts, c) + 1])|
         == |Doubled(counts)| + if Get(counts, c) + 1 == 2 then 1 else 0
  {
    var after := counts[c := Get(counts, c) + 1];
    if Get(counts, c) + 1 == 2 {
      assert Doubled(after) == Doubled(counts) + {c};
    } else {
      assert Doubled(after) == Doubled(counts);
    }
  }

  /** Counting one `c` fewer removes `c` from the doubled characters exactly
      when its count drops to 1. */
  lemma RemoveOne(counts: map<char, nat>, c: char)
    requires Get(counts, c) >= 1
    ensures |Doubled(counts[c := Get(counts, c) - 1])|
         == |Doubled(counts)| - if Get(counts, c) - 1 == 1 then 1 else 0
  {
    var after := counts[c := Get(counts, c) - 1];
    if Get(counts, c) - 1 == 1 {
      assert Doubled(counts) == Doubled(after) + {c};
    } else {
      assert Doubled(after) == Doubled(counts);
    }
  }

  /** Once the window is `n` long, nothing counted twice means a marker
      ends after position `i`. */
  lemma WindowIsMarker(counts: map<char, nat>, input: seq<char>, n: nat, i: nat)
    requires 0 < n <= i + 1 <= |input| && Counts(counts, input[Low(i, n - 1)..i + 1])
    ensures |Doubled(counts)| == 0 <==> MarkerAt(input, n, i + 1)
  {
    assert Low(i, n - 1) == i + 1 - n;
    WindowDistinct(counts, input[i + 1 - n..i + 1]);
  }

  /** No character counted twice means the window is pairwise distinct. */
  lemma WindowDistinct(counts: map<char, nat>, window: seq<char>)
    requires forall c :: Get(counts, c) == multiset(window)[c]
    ensures |Doubled(counts)| == 0 <==> Distinct(window)
  {
    DistinctCounts(window);
    if |Doubled(counts)| == 0 {
      forall c ensures multiset(window)[c] <= 1 {
        assert c !in Doubled(counts);
      }
    } else {
      var c :| c in Doubled(counts);
      assert multiset(window)[c] >= 2;
    }
  }

  /** A sequence is pairwise distinct exactly when no element occurs in it
      twice. */
  lemma DistinctCounts(s: seq<char>)
    ensures Distinct(s) <==> forall c :: multiset(s)[c] <= 1
  {
    if Distinct(s) {
      DistinctOnce(s);
    } else {
      var i, j :| 0 <= i < j < |s| && s[i] == s[j];
      TwiceInMultiset(s, i, j);
    }
  }

  /** In a pairwise distinct sequence every element occurs once. */
  lemma {:induction false} DistinctOnce(s: seq<char>)
    requires Distinct(s)
    ensures forall c :: multiset(s)[c] <= 1
    decreases |s|
  {
    if |s| > 0 {
      var x, t := s[0], s[1..];
      assert s == [x] + t;
      assert Distinct(t) by {
        forall i, j | 0 <= i < j < |t| ensures t[i] != t[j] {
          assert t[i] == s[i + 1] && t[j] == s[j + 1];
        }
      }
      DistinctOnce(t);
      forall k | 0 <= k < |t| ensures t[k] != x {
        assert t[k] == s[k + 1];
      }
      assert multiset(t)[x] == 0;
    }
  }

  /** Two equal elements at different places occur at least twice. */
  lemma TwiceInMultiset(s: seq<char>, i: nat, j: nat)
    requires i < j < |s| && s[i] == s[j]
    ensures multiset(s)[s[i]] >= 2
  {
    var c := s[i];
    assert s == s[..i] + [c] + s[i + 1..j] + [c] + s[j + 1..];
  }
}
