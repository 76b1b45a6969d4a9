/** When a frame's prefetches are not listed by slot: plan_supply queues their
    patterns in list order (tools/pattern_supply.py), sourced_transfer_runs
    writes their slots in slot order (tools/pack_stream.py). */
module PrefetchOrder {
  import opened Arith
  import opened PatternRuns
  import opened WordRing
  import opened Delivery
  import opened Movie
  import opened SupplyPlan
  import opened PackedMovie
  import opened Sorting

  /** Slots paired with the patterns of the Prg queue, in turn. */
  function Paired<P>(ps: seq<Prefetch>, qs: seq<P>): (takes: seq<Take<P>>)
    requires |ps| == |qs|
    ensures |takes| == |ps|
  {
    seq(|ps|, k requires 0 <= k < |ps| => Take(ps[k].slot, PRG, qs[k]))
  }

  ghost predicate DistinctSlots(ps: seq<Prefetch>) {
    forall i, j :: 0 <= i < j < |ps| ==> ps[i].slot != ps[j].slot
  }

  lemma {:induction false} ColdOnlyAll(ps: seq<Prefetch>)
    requires forall k :: 0 <= k < |ps| ==> ps[k].cold
    ensures ColdOnly(ps) == ps
  {
    if ps != [] {
      ColdOnlyAll(ps[..|ps| - 1]);
      assert ps == ps[..|ps| - 1] + [ps[|ps| - 1]];
    }
  }

  lemma SortedColdIs(ps: seq<Prefetch>)
    requires forall k :: 0 <= k < |ps| ==> ps[k].cold
    ensures Ascending(SortedCold(ps)) && |SortedCold(ps)| == |ps|
    ensures multiset(SortedCold(ps)) == multiset(ps)
  {
    hide ColdOnly, SortBy;
    ColdOnlyAll(ps);
    SortSorts(ps, BySlot);
    assert forall i, j :: 0 <= i < j < |SortedCold(ps)| ==>
      !KeyBefore(BySlot(SortedCold(ps)[j]), BySlot(SortedCold(ps)[i]));
  }

  /** With distinct slots, every take ends up in its slot. */
  lemma {:induction false} ApplyAt<P>(tile: map<int, P>, ps: seq<Prefetch>, qs: seq<P>, k: nat)
    requires |ps| == |qs| && DistinctSlots(ps) && k < |ps|
    ensures var tiles := Apply(tile, Paired(ps, qs)); ps[k].slot + BASE in tiles && tiles[ps[k].slot + BASE] == qs[k]
  {
    var n := |ps| - 1;
    assert Paired(ps, qs)[..n] == Paired(ps[..n], qs[..n]);
    if k < n { ApplyAt(tile, ps[..n], qs[..n], k); }
  }

  ghost predicate AllCold(ps: seq<Prefetch>, pool: int) {
    forall k :: 0 <= k < |ps| ==> ps[k].cold && 0 <= ps[k].slot < pool
  }

  /** What the replay does with the prefetches: slots by slot, patterns by list. */
  lemma ReplaysSorted<P>(pl: Player<P>, ps: seq<Prefetch>, qs: seq<P>, words: seq<(int, int)>, dic: seq<P>, pool: int,
                         capacity: nat, cursor: nat)
    requires |ps| == |qs| && AllCold(ps, pool) && cursor < capacity && qs <= pl.prg
    requires Encodes(words, Split(SourceRuns(PrefetchItems(SortedCold(ps))), capacity, cursor))
    ensures |SortedCold(ps)| == |ps|
    ensures PlayWords(pl, words, dic, pool)
         == Ok(pl.(prg := pl.prg[|qs|..], tile := Apply(pl.tile, Paired(SortedCold(ps), qs))))
  {
    hide SortedCold, SourceRuns, Split, Encodes, PlayWords, Drawn, Apply;
    SortedColdIs(ps);
    var sorted := SortedCold(ps);
    var takes := Paired(sorted, qs);
    forall k | 0 <= k < |sorted| ensures sorted[k] in ps {
      assert sorted[k] in multiset(sorted);
      assert sorted[k] in multiset(ps);
    }
    assert ItemsOf(takes, dic) == PrefetchItems(sorted);
    AllDrawn(takes, PRG);
    assert Drawn(takes, PRG) == qs && Drawn(takes, WR) == [];
    FrameDelivers(pl, takes, words, dic, pool, capacity, cursor);
    assert pl.word[0..] == pl.word;
  }

  /** The exact condition: for prefetches of different patterns into different
      slots, the replay gives every slot the pattern that was queued for it if
      and only if the list is in slot order. */
  lemma PrefetchOrderExact<P>(tile: map<int, P>, ps: seq<Prefetch>, qs: seq<P>, pool: int)
    requires |ps| == |qs| && AllCold(ps, pool) && DistinctSlots(ps)
    requires forall i, j :: 0 <= i < j < |qs| ==> qs[i] != qs[j]
    ensures |SortedCold(ps)| == |ps|
    ensures Apply(tile, Paired(SortedCold(ps), qs)) == Apply(tile, Paired(ps, qs)) <==> Ascending(ps)
  {
    hide Apply, SortedCold, ColdOnly;
    SortedColdIs(ps);
    var sorted := SortedCold(ps);
    if Ascending(ps) {
      SortedIsFiltered(ps);
      ColdOnlyAll(ps);
    } else {
      var k :| 0 <= k < |ps| && sorted[k] != ps[k];
      assert sorted[k] in multiset(sorted);
      assert sorted[k] in multiset(ps);
      var m :| 0 <= m < |ps| && ps[m] == sorted[k];
      StillDistinct(ps, sorted);
      ApplyAt(tile, sorted, qs, k);
      ApplyAt(tile, ps, qs, m);
    }
  }

  lemma StillDistinct(ps: seq<Prefetch>, sorted: seq<Prefetch>)
    requires DistinctSlots(ps) && multiset(sorted) == multiset(ps)
    ensures DistinctSlots(sorted)
  {
    StaysDistinct(ps, sorted);
    forall i, j | 0 <= i < j < |sorted| ensures sorted[i].slot != sorted[j].slot {
      assert sorted[i] in multiset(ps) && sorted[j] in multiset(ps);
      var a :| 0 <= a < |ps| && ps[a] == sorted[i];
      var b :| 0 <= b < |ps| && ps[b] == sorted[j];
    }
  }
}
