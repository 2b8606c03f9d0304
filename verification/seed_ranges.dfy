/** Seed ranges through the almanac's maps (`y2023/src/d05/mod.rs`). A map
    section is a list of source ranges, each shifted to its own destination
    start; `split_range` cuts an input range into the pieces that fall in
    one map range (shifted) or in none (kept as they are). Ranges are
    half-open `start..end` of `u64`. */
module SeedRanges {
  import opened Wrappers

  const U64Max: int := 0xFFFF_FFFF_FFFF_FFFF

  /** `Range<u64>`: empty when `start >= end`. */
  datatype Span = Span(start: nat, end: nat)

  function Len(s: Span): nat {
    if s.start < s.end then s.end - s.start else 0
  }

  /** `RangeInfo`: the source range and where its first number goes. */
  datatype RangeInfo = RangeInfo(src: Span, dst: nat)

  predicate Contains(t: RangeInfo, x: int) {
    t.src.start <= x < t.src.end
  }

  /** The whole destination range is representable, so no translation
      through this range can overflow. */
  predicate Fits(t: RangeInfo) {
    t.dst + (t.src.end - t.src.start) <= U64Max
  }

  /** `main` sorts each section by source start (then end). */
  predicate SortedByStart(maps: seq<RangeInfo>) {
    forall i, j :: 0 <= i < j < |maps| ==> maps[i].src.start <= maps[j].src.start
  }

  function SumLen(pieces: seq<Span>): nat
    decreases |pieces|
  {
    if |pieces| == 0 then 0 else SumLen(pieces[..|pieces| - 1]) + Len(pieces[|pieces| - 1])
  }

  /** No map range holds a number of `lo..mid`. */
  predicate Uncovered(maps: seq<RangeInfo>, lo: nat, mid: nat) {
    forall j :: 0 <= j < |maps| ==>
      maps[j].src.end <= lo || mid <= maps[j].src.start || maps[j].src.end <= maps[j].src.start
  }

  /** `p` is what becomes of `lo..mid`: the first map range holding `lo`
      holds all of it and shifts it, or no map range touches it and it stays
      as it is. */
  predicate Piece(maps: seq<RangeInfo>, lo: nat, mid: nat, p: Span) {
    || (Uncovered(maps, lo, mid) && p == Span(lo, mid))
    || exists j :: 0 <= j < |maps| && FirstHolding(maps, lo, j) && mid <= maps[j].src.end
         && p.start == maps[j].dst + (lo - maps[j].src.start)
  }

  predicate FirstHolding(maps: seq<RangeInfo>, x: nat, j: nat) {
    j < |maps| && Contains(maps[j], x) && forall k :: 0 <= k < j ==> !Contains(maps[k], x)
  }

  /** The pieces, in order, are what becomes of consecutive non-empty cuts
      of `lo..hi`: each piece is as long as its cut. */
  predicate Translates(maps: seq<RangeInfo>, lo: nat, hi: nat, pieces: seq<Span>)
    decreases |pieces|
  {
    if |pieces| == 0 then lo == hi
    else
      var p := pieces[|pieces| - 1];
      && p.start < p.end
      && lo + (p.end - p.start) <= hi
      && Piece(maps, hi - (p.end - p.start), hi, p)
      && Translates(maps, lo, hi - (p.end - p.start), pieces[..|pieces| - 1])
  }

  /** Cut pieces cover the range exactly: their lengths add up to its
      length. */
  lemma {:induction false} TranslatesLength(maps: seq<RangeInfo>, lo: nat, hi: nat, pieces: seq<Span>)
    requires Translates(maps, lo, hi, pieces)
    ensures SumLen(pieces) == hi - lo
    decreases |pieces|
  {
    if |pieces| > 0 {
      var p := pieces[|pieces| - 1];
      TranslatesLength(maps, lo, hi - (p.end - p.start), pieces[..|pieces| - 1]);
    }
  }

  /** `split_range`. With the maps sorted by source start the pieces are
      the translation of the range; a translation past `u64::MAX` panics,
      which happens only through a map whose destination does not fit. */
  method SplitRange(maps: seq<RangeInfo>, range: Span) returns (r: Option<seq<Span>>)
    ensures range.start >= range.end ==> r == Some([])
    ensures r.Some? ==> SumLen(r.value) == Len(range)
    ensures r.Some? && range.start < range.end && SortedByStart(maps) ==>
      Translates(maps, range.start, range.end, r.value)
    ensures r.None? ==> exists j :: 0 <= j < |maps| && !Fits(maps[j])
    ensures (forall j :: 0 <= j < |maps| ==> Fits(maps[j])) ==> r.Some?
  {
    var results := [];
    var start := range.start;
    var idx := 0;
    while start < range.end
      invariant Cut(maps, range, idx, start, results)
      decreases range.end - start
    {
      while idx < |maps| && maps[idx].src.end <= start
        invariant idx <= |maps|
        invariant forall k :: 0 <= k < idx ==> maps[k].src.end <= start
      {
        idx := idx + 1;
      }
      var piece, next := NextPiece(maps, idx, start, range.end);
      if piece.None? {
        return None;
      }
      Extend(maps, range, idx, start, results, piece.value, next);
      results := results + [piece.value];
      start := next;
    }
    return Some(results);
  }

  /** What the loop knows: `results` are the pieces of `range.start..start`,
      and every map range before `idx` ends by `start`. */
  ghost predicate Cut(maps: seq<RangeInfo>, range: Span, idx: nat, start: nat, results: seq<Span>) {
    && range.start <= start
    && (range.start < range.end ==> start <= range.end)
    && (range.start >= range.end ==> results == [])
    && idx <= |maps|
    && (forall k :: 0 <= k < idx ==> maps[k].src.end <= start)
    && SumLen(results) == start - range.start
    && (SortedByStart(maps) ==> Translates(maps, range.start, start, results))
  }

  lemma Extend(maps: seq<RangeInfo>, range: Span, idx: nat, start: nat, results: seq<Span>, p: Span, next: nat)
    requires idx <= |maps| && (forall k :: 0 <= k < idx ==> maps[k].src.end <= start)
    requires Cut(maps, range, 0, start, results) && start < range.end
    requires start < next <= range.end && p.start < p.end && p.end - p.start == next - start
    requires SortedByStart(maps) ==> Piece(maps, start, next, p)
    ensures Cut(maps, range, idx, next, results + [p])
  {
    var r := results + [p];
    assert r[..|r| - 1] == results;
  }

  /** One cut: through the current map range when it holds `start`, up to
      the earlier of the range's end and that map range's end; otherwise
      unchanged up to the earlier of the range's end and the current map
      range's start. */
  method NextPiece(maps: seq<RangeInfo>, idx: nat, start: nat, rangeEnd: nat) returns (r: Option<Span>, next: nat)
    requires start < rangeEnd && idx <= |maps|
    requires forall k :: 0 <= k < idx ==> maps[k].src.end <= start
    requires idx < |maps| ==> maps[idx].src.end > start
    ensures r.Some? ==> start < next <= rangeEnd && r.value.start < r.value.end && r.value.end - r.value.start == next - start
    ensures r.Some? && SortedByStart(maps) ==> Piece(maps, start, next, r.value)
    ensures r.None? ==> exists j :: 0 <= j < |maps| && !Fits(maps[j])
    ensures (forall j :: 0 <= j < |maps| ==> Fits(maps[j])) ==> r.Some?
  {
    if idx < |maps| && Contains(maps[idx], start) {
      var t := maps[idx];
      var offset := start - t.src.start;
      var translatedStart := t.dst + offset;
      var end := Min(rangeEnd, t.src.end);
      var len := end - start;
      var translatedEnd := translatedStart + len;
      if translatedEnd > U64Max {
        return None, start;
      }
      r := Some(Span(translatedStart, translatedEnd));
      next := end;
      Translated(maps, idx, start, end, r.value);
    } else {
      var end := if idx < |maps| then Min(rangeEnd, maps[idx].src.start) else rangeEnd;
      r := Some(Span(start, end));
      next := end;
      if SortedByStart(maps) {
        Untranslated(maps, idx, start, end);
      }
    }
  }

  function Min(a: nat, b: nat): (m: nat)
    ensures m <= a && m <= b && (m == a || m == b)
  {
    if a <= b then a else b
  }

  /** The current map range holds `start`: the piece is its shift. */
  lemma Translated(maps: seq<RangeInfo>, idx: nat, start: nat, end: nat, p: Span)
    requires idx < |maps| && Contains(maps[idx], start) && start < end <= maps[idx].src.end
    requires forall k :: 0 <= k < idx ==> maps[k].src.end <= start
    requires p == Span(maps[idx].dst + (start - maps[idx].src.start), maps[idx].dst + (start - maps[idx].src.start) + (end - start))
    ensures Piece(maps, start, end, p)
  {
    assert FirstHolding(maps, start, idx);
  }

  /** No map range holds `start`: with the maps sorted, none reaches into
      the piece either. */
  lemma Untranslated(maps: seq<RangeInfo>, idx: nat, start: nat, end: nat)
    requires SortedByStart(maps) && idx <= |maps|
    requires forall k :: 0 <= k < idx ==> maps[k].src.end <= start
    requires idx < |maps| ==> maps[idx].src.end > start && !Contains(maps[idx], start) && end <= maps[idx].src.start
    ensures Uncovered(maps, start, end)
  {
  }
}
