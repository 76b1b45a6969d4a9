/** _black_runs and _drop_overlapping_one_sided of tools/fade_frames.py. */
module FadeRuns {
  import opened FadeGroups
  import opened Sorting

  // _black_runs

  predicate InRun(f: int, r: BlackRun) { r.start <= f <= r.end }

  /** Runs in order with at least one bright frame between neighbours. */
  predicate Separated(runs: seq<BlackRun>) {
    forall i, j :: 0 <= i < j < |runs| ==> runs[i].end + 1 < runs[j].start
  }

  predicate RunOf(mask: seq<bool>, r: BlackRun) {
    0 <= r.start <= r.end < |mask| && forall f :: r.start <= f <= r.end ==> mask[f]
  }

  /** The maximal runs of black frames: they hold every black frame and no other,
      and no two of them touch. */
  predicate AreRuns(mask: seq<bool>, runs: seq<BlackRun>) {
    && Separated(runs)
    && (forall i :: 0 <= i < |runs| ==> RunOf(mask, runs[i]))
    && forall f :: 0 <= f < |mask| && mask[f] ==> exists i :: 0 <= i < |runs| && InRun(f, runs[i])
  }

  /** np.flatnonzero. */
  function Hits(mask: seq<bool>, n: nat): (h: seq<nat>)
    requires n <= |mask|
    ensures forall f: nat :: f in h <==> f < n && mask[f]
    ensures forall k :: 0 <= k < |h| ==> h[k] < n
    ensures forall i, j :: 0 <= i < j < |h| ==> h[i] < h[j]
  {
    if n == 0 then [] else Hits(mask, n - 1) + if mask[n - 1] then [n - 1] else []
  }

  ghost predicate InSome(f: int, runs: seq<BlackRun>) { exists i :: 0 <= i < |runs| && InRun(f, runs[i]) }

  ghost predicate Collected(hits: seq<nat>, k: nat, runs: seq<BlackRun>) {
    forall n :: 0 <= n < k && n < |hits| ==> InSome(hits[n], runs)
  }

  /** The runs of the first k black frames. */
  ghost predicate Gathered(mask: seq<bool>, hits: seq<nat>, k: nat, runs: seq<BlackRun>) {
    && Separated(runs) && Collected(hits, k, runs)
    && forall i :: 0 <= i < |runs| ==> RunOf(mask, runs[i])
  }

  function Joined(runs: seq<BlackRun>, start: int, end: int): seq<BlackRun> { runs + [BlackRun(start, end)] }

  method BlackRuns(mask: seq<bool>) returns (runs: seq<BlackRun>)
    ensures AreRuns(mask, runs)
  {
    hide Gathered, Hits, Separated, RunOf;
    var hits := Hits(mask, |mask|);
    runs := [];
    if hits == [] {
      NoRuns(mask, hits);
      return;
    }
    var start, previous := hits[0], hits[0];
    FirstRun(mask, hits);
    for k := 1 to |hits|
      invariant previous == hits[k - 1]
      invariant Gathered(mask, hits, k, Joined(runs, start, previous))
    {
      var frame := hits[k];
      if frame == previous + 1 {
        GrownRuns(mask, hits, k, runs, start, previous);
        previous := frame;
      } else {
        NewRun(mask, hits, k, Joined(runs, start, previous), previous);
        runs := Joined(runs, start, previous);
        start, previous := frame, frame;
      }
    }
    runs := Joined(runs, start, previous);
    AllGathered(mask, hits, runs);
  }

  lemma NoRuns(mask: seq<bool>, hits: seq<nat>)
    requires hits == [] && forall f: nat :: f in hits <==> f < |mask| && mask[f]
    ensures AreRuns(mask, [])
  {
    assert forall f: nat :: f < |mask| ==> !mask[f];
  }

  lemma AllGathered(mask: seq<bool>, hits: seq<nat>, runs: seq<BlackRun>)
    requires Gathered(mask, hits, |hits|, runs) && forall f: nat :: f in hits <==> f < |mask| && mask[f]
    ensures AreRuns(mask, runs)
  {
    forall f | 0 <= f < |mask| && mask[f] ensures exists i :: 0 <= i < |runs| && InRun(f, runs[i]) {
      var n: nat := f;
      assert n in hits;
      var k :| 0 <= k < |hits| && hits[k] == f;
      assert InSome(hits[k], runs);
    }
  }

  lemma FirstRun(mask: seq<bool>, hits: seq<nat>)
    requires hits != [] && hits[0] < |mask| && mask[hits[0]]
    ensures Gathered(mask, hits, 1, Joined([], hits[0], hits[0]))
  {
    assert InRun(hits[0], Joined([], hits[0], hits[0])[0]);
  }

  lemma GrownRuns(mask: seq<bool>, hits: seq<nat>, k: nat, runs: seq<BlackRun>, start: int, previous: int)
    requires k < |hits| && hits[k] == previous + 1 < |mask| && mask[hits[k]]
    requires Gathered(mask, hits, k, Joined(runs, start, previous))
    ensures Gathered(mask, hits, k + 1, Joined(runs, start, previous + 1))
  {
    var was, now := Joined(runs, start, previous), Joined(runs, start, previous + 1);
    assert was[|runs|] == BlackRun(start, previous) && RunOf(mask, was[|runs|]);
    assert forall i :: 0 <= i < |runs| ==> was[i] == now[i];
    forall i | 0 <= i < |now| ensures RunOf(mask, now[i]) { assert RunOf(mask, was[i]); }
    assert Separated(now) by {
      forall i, j | 0 <= i < j < |now| ensures now[i].end + 1 < now[j].start {
        assert was[i].end + 1 < was[j].start;
      }
    }
    hide Separated, RunOf, Joined;
    forall n | 0 <= n < k + 1 ensures InSome(hits[n], now) {
      if n < k {
        assert InSome(hits[n], was);
        var i :| 0 <= i < |was| && InRun(hits[n], was[i]);
        assert InRun(hits[n], now[i]);
      } else {
        assert InRun(hits[n], now[|runs|]);
      }
    }
  }

  lemma NewRun(mask: seq<bool>, hits: seq<nat>, k: nat, was: seq<BlackRun>, previous: int)
    requires 1 <= k < |hits| && was != [] && was[|was| - 1].end == previous == hits[k - 1]
    requires hits[k - 1] < hits[k] != previous + 1 && hits[k] < |mask| && mask[hits[k]]
    requires Gathered(mask, hits, k, was)
    ensures Gathered(mask, hits, k + 1, Joined(was, hits[k], hits[k]))
  {
    var now := Joined(was, hits[k], hits[k]);
    assert now == was + [BlackRun(hits[k], hits[k])];
    assert Separated(now) by {
      assert RunOf(mask, was[|was| - 1]);
      forall i, j | 0 <= i < j < |now| ensures now[i].end + 1 < now[j].start {
        if j == |was| && i < |was| - 1 { assert was[i].end + 1 < was[|was| - 1].start; }
      }
    }
    forall i | 0 <= i < |now| ensures RunOf(mask, now[i]) {
      if i < |was| { assert RunOf(mask, was[i]); }
    }
    hide Separated, RunOf, Joined;
    forall n | 0 <= n < k + 1 ensures InSome(hits[n], now) {
      if n < k {
        assert InSome(hits[n], was);
        var i :| 0 <= i < |was| && InRun(hits[n], was[i]);
        assert InRun(hits[n], now[i]);
      } else {
        assert InRun(hits[n], now[|was|]);
      }
    }
  }

  // _drop_overlapping_one_sided

  predicate Overlap(a: FadeShot, b: FadeShot) { a.start <= b.end && b.start <= a.end }

  function Enumerated(shots: seq<FadeShot>): (e: seq<(nat, FadeShot)>)
    ensures |e| == |shots| && forall i :: 0 <= i < |e| ==> e[i] == (i, shots[i])
  {
    seq(|shots|, i requires 0 <= i < |shots| => (i, shots[i]))
  }

  function StartOfItem(item: (nat, FadeShot)): (int, int) { (item.1.start, 0) }

  predicate Conflicts(shots: seq<FadeShot>, i: nat)
    requires i < |shots|
  {
    exists j :: 0 <= j < |shots| && j != i && Overlap(shots[i], shots[j])
  }

  function Unconflicted(shots: seq<FadeShot>, n: nat): seq<FadeShot>
    requires n <= |shots|
  {
    if n == 0 then []
    else Unconflicted(shots, n - 1) + if Conflicts(shots, n - 1) then [] else [shots[n - 1]]
  }

  /** The items of the list by start, each with its place in the list. */
  ghost predicate ByStarts(shots: seq<FadeShot>, ordered: seq<(nat, FadeShot)>) {
    && |ordered| == |shots|
    && (forall a, b :: 0 <= a < b < |ordered| ==>
          ordered[a].1.start <= ordered[b].1.start && ordered[a].0 != ordered[b].0)
    && (forall a :: 0 <= a < |ordered| ==> ordered[a].0 < |shots| && shots[ordered[a].0] == ordered[a].1)
    && forall i :: 0 <= i < |shots| ==> (i, shots[i]) in ordered
  }

  lemma SortedItems(shots: seq<FadeShot>)
    ensures ByStarts(shots, SortBy(Enumerated(shots), StartOfItem))
  {
    hide SortBy;
    var items := Enumerated(shots);
    var ordered := SortBy(items, StartOfItem);
    SortSorts(items, StartOfItem);
    SortMembers(items, StartOfItem);
    StaysDistinct(items, ordered);
    forall a | 0 <= a < |ordered| ensures ordered[a].0 < |shots| && shots[ordered[a].0] == ordered[a].1 {
      assert ordered[a] in items;
    }
    forall a, b | 0 <= a < b < |ordered|
      ensures ordered[a].1.start <= ordered[b].1.start && ordered[a].0 != ordered[b].0
    {
      assert !KeyBefore(StartOfItem(ordered[b]), StartOfItem(ordered[a]));
    }
    forall i | 0 <= i < |shots| ensures (i, shots[i]) in ordered { assert items[i] in items; }
  }

  /** A later item starts before an earlier one ends. */
  predicate Clash(ordered: seq<(nat, FadeShot)>, a: nat, b: nat)
    requires a < |ordered| && b < |ordered|
  {
    ordered[b].1.start <= ordered[a].1.end
  }

  ghost predicate Noted(ordered: seq<(nat, FadeShot)>, conflicted: set<nat>, a: nat, to: nat)
    requires a < |ordered|
  {
    forall b :: a < b < to && b < |ordered| && Clash(ordered, a, b) ==>
      ordered[a].0 in conflicted && ordered[b].0 in conflicted
  }

  ghost predicate OnlyConflicts(shots: seq<FadeShot>, conflicted: set<nat>) {
    forall c :: c in conflicted ==> c < |shots| && Conflicts(shots, c)
  }

  ghost predicate NotedBelow(ordered: seq<(nat, FadeShot)>, conflicted: set<nat>, n: nat) {
    forall a :: 0 <= a < n && a < |ordered| ==> Noted(ordered, conflicted, a, |ordered|)
  }

  ghost predicate Rightful(shots: seq<FadeShot>) { forall i :: 0 <= i < |shots| ==> shots[i].start <= shots[i].end }

  method DropOverlapping(shots: seq<FadeShot>) returns (kept: seq<FadeShot>)
    requires Rightful(shots)
    ensures kept == Unconflicted(shots, |shots|)
  {
    hide SortBy, Conflicts, ByStarts, Noted, NotedBelow, OnlyConflicts, Rightful;
    var conflicted: set<nat> := {};
    var ordered := SortBy(Enumerated(shots), StartOfItem);
    SortedItems(shots);
    NothingNoted(shots, ordered);
    for position := 0 to |ordered|
      invariant OnlyConflicts(shots, conflicted) && NotedBelow(ordered, conflicted, position)
    {
      var item, q := ordered[position], position + 1;
      NothingBetween(ordered, conflicted, position);
      while q < |ordered| && ordered[q].1.start <= item.1.end
        invariant position < q <= |ordered| && OnlyConflicts(shots, conflicted)
        invariant NotedBelow(ordered, conflicted, position) && Noted(ordered, conflicted, position, q)
      {
        ConflictNoted(shots, ordered, conflicted, position, q);
        conflicted := conflicted + {item.0, ordered[q].0};
        q := q + 1;
      }
      NotedRest(shots, ordered, conflicted, position, q);
    }
    AllNoted(shots, ordered, conflicted);
    kept := [];
    for i := 0 to |shots|
      invariant kept == Unconflicted(shots, i)
    {
      if i !in conflicted { kept := kept + [shots[i]]; }
    }
  }

  lemma NothingNoted(shots: seq<FadeShot>, ordered: seq<(nat, FadeShot)>)
    ensures OnlyConflicts(shots, {}) && NotedBelow(ordered, {}, 0)
  {
  }

  lemma NothingBetween(ordered: seq<(nat, FadeShot)>, conflicted: set<nat>, a: nat)
    requires a < |ordered|
    ensures Noted(ordered, conflicted, a, a + 1)
  {
  }

  lemma ConflictNoted(shots: seq<FadeShot>, ordered: seq<(nat, FadeShot)>, was: set<nat>, a: nat, b: nat)
    requires ByStarts(shots, ordered) && a < b < |ordered| && Clash(ordered, a, b) && Rightful(shots)
    requires OnlyConflicts(shots, was) && NotedBelow(ordered, was, a) && Noted(ordered, was, a, b)
    ensures var now := was + {ordered[a].0, ordered[b].0};
            OnlyConflicts(shots, now) && NotedBelow(ordered, now, a) && Noted(ordered, now, a, b + 1)
  {
    BothConflict(shots, ordered, a, b);
    hide ByStarts, Conflicts, Clash, Rightful;
    var now := was + {ordered[a].0, ordered[b].0};
    forall c | 0 <= c < a ensures Noted(ordered, now, c, |ordered|) {
      assert Noted(ordered, was, c, |ordered|);
      NotedMore(ordered, was, now, c);
    }
  }

  lemma NotedMore(ordered: seq<(nat, FadeShot)>, was: set<nat>, now: set<nat>, a: nat)
    requires a < |ordered| && Noted(ordered, was, a, |ordered|) && was <= now
    ensures Noted(ordered, now, a, |ordered|)
  {
    hide Clash;
  }

  /** The scan may stop at the first later start. */
  lemma NotedRest(shots: seq<FadeShot>, ordered: seq<(nat, FadeShot)>, conflicted: set<nat>, a: nat, q: nat)
    requires ByStarts(shots, ordered) && a < q <= |ordered| && NotedBelow(ordered, conflicted, a)
    requires Noted(ordered, conflicted, a, q) && (q < |ordered| ==> !Clash(ordered, a, q))
    ensures NotedBelow(ordered, conflicted, a + 1)
  {
    assert Noted(ordered, conflicted, a, |ordered|) by {
      forall b | a < b < |ordered| ensures b < q || !Clash(ordered, a, b) {
        if q < b { assert ordered[q].1.start <= ordered[b].1.start; }
      }
    }
    hide Noted;
  }

  lemma BothConflict(shots: seq<FadeShot>, ordered: seq<(nat, FadeShot)>, a: nat, b: nat)
    requires ByStarts(shots, ordered) && a < b < |ordered| && Clash(ordered, a, b) && Rightful(shots)
    ensures ordered[a].0 < |shots| && Conflicts(shots, ordered[a].0)
    ensures ordered[b].0 < |shots| && Conflicts(shots, ordered[b].0)
  {
    var i, j := ordered[a].0, ordered[b].0;
    assert Overlap(shots[i], shots[j]) && Overlap(shots[j], shots[i]);
  }

  lemma AllNoted(shots: seq<FadeShot>, ordered: seq<(nat, FadeShot)>, conflicted: set<nat>)
    requires ByStarts(shots, ordered) && OnlyConflicts(shots, conflicted)
    requires NotedBelow(ordered, conflicted, |ordered|)
    ensures forall i :: 0 <= i < |shots| ==> (i in conflicted <==> Conflicts(shots, i))
  {
    forall i | 0 <= i < |shots| && Conflicts(shots, i) ensures i in conflicted {
      var j :| 0 <= j < |shots| && j != i && Overlap(shots[i], shots[j]);
      assert (i, shots[i]) in ordered && (j, shots[j]) in ordered;
      var a :| 0 <= a < |ordered| && ordered[a] == (i, shots[i]);
      var b :| 0 <= b < |ordered| && ordered[b] == (j, shots[j]);
      hide ByStarts;
      if a < b { NotedPair(ordered, conflicted, a, b); } else { NotedPair(ordered, conflicted, b, a); }
    }
  }

  lemma NotedPair(ordered: seq<(nat, FadeShot)>, conflicted: set<nat>, a: nat, b: nat)
    requires NotedBelow(ordered, conflicted, |ordered|) && a < b < |ordered|
    requires Overlap(ordered[a].1, ordered[b].1) || Overlap(ordered[b].1, ordered[a].1)
    ensures ordered[a].0 in conflicted && ordered[b].0 in conflicted
  {
    assert Noted(ordered, conflicted, a, |ordered|) && Clash(ordered, a, b);
  }
}
