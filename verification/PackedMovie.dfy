/**
  From the resolver's decisions to a replayed disc: the run suffixes of the
  control blocks (tools/pack_stream.py, sourced_transfer_runs, build_control),
  and the theorem that packing and replaying delivers every pattern.
*/
module PackedMovie {
  import opened Arith
  import opened PatternRuns
  import opened WordRing
  import opened Delivery
  import opened Movie
  import opened SupplyPlan
  import opened Sorting
  import opened Timing
  import opened RingReplay

  // sourced_transfer_runs

  function ColdOnly(ps: seq<Prefetch>): seq<Prefetch> {
    if ps == [] then [] else ColdOnly(ps[..|ps| - 1]) + if ps[|ps| - 1].cold then [ps[|ps| - 1]] else []
  }

  function BySlot(p: Prefetch): (int, int) { (p.slot, 0) }

  /** The cold prefetches, stably sorted by slot. */
  function SortedCold(ps: seq<Prefetch>): seq<Prefetch> { SortBy(ColdOnly(ps), BySlot) }

  function OrderItems(d: Decision, indices: seq<int>, n: nat): (r: seq<Item>)
    requires InOrder(d) && |indices| == |d.entries| && n <= |d.order|
    ensures |r| == n
  {
    seq(n, k requires 0 <= k < n =>
      Item(SlotOf(d.entries[d.order[k]]), d.sources[d.order[k]], indices[d.order[k]]))
  }

  function PrefetchItems(ps: seq<Prefetch>): (r: seq<Item>)
    ensures |r| == |ps|
  {
    seq(|ps|, k requires 0 <= k < |ps| => Item(ps[k].slot, PRG, -1))
  }

  /** The runs of one frame: updates in transfer order, then prefetches by slot. */
  method TransferRuns(d: Decision, prefetch: seq<Prefetch>, indices: seq<int>) returns (r: Result<seq<Run>>)
    requires Shaped(d) && |d.sources| == |d.entries| && |indices| == |d.entries|
    ensures r.Ok? <==> OrderCovers(d) && forall k :: 0 <= k < |d.order| ==> KnownSource(d.sources[d.order[k]])
    ensures r.Ok? ==> InOrder(d)
                      && r.value == SourceRuns(OrderItems(d, indices, |d.order|) + PrefetchItems(SortedCold(prefetch)))
  {
    if !OrderCovers(d) { return Err("transfer order must cover every cold update exactly once"); }
    hide OrderCovers, SourceRuns, SortedCold, SlotOf, KnownSource;
    var cold := SortedCold(prefetch);
    var n := |d.order|;
    var slots := seq(n, k requires 0 <= k < n => SlotOf(d.entries[d.order[k]]))
                 + seq(|cold|, k requires 0 <= k < |cold| => cold[k].slot);
    var sources := seq(n, k requires 0 <= k < n => d.sources[d.order[k]]) + seq(|cold|, _ => PRG);
    var dics := seq(n, k requires 0 <= k < n => indices[d.order[k]]) + seq(|cold|, _ => -1);
    r := GroupRuns(slots, sources, Some(dics));
    assert Items(slots, sources, dics) == OrderItems(d, indices, n) + PrefetchItems(cold);
    assert forall k :: 0 <= k < n ==> sources[k] == d.sources[d.order[k]];
    assert KnownSource(PRG);
  }

  // The runs are those of the frame's takes

  predicate Ascending(ps: seq<Prefetch>) {
    forall i, j :: 0 <= i < j < |ps| ==> ps[i].slot <= ps[j].slot
  }

  lemma {:induction false} ColdOnlyAscends(ps: seq<Prefetch>)
    requires Ascending(ps)
    ensures Ascending(ColdOnly(ps)) && forall x :: x in ColdOnly(ps) ==> x in ps
  {
    if ps != [] {
      var front, last := ps[..|ps| - 1], ps[|ps| - 1];
      ColdOnlyAscends(front);
      assert ps == front + [last];
      forall i | 0 <= i < |ColdOnly(front)| ensures ColdOnly(front)[i].slot <= last.slot {
        assert ColdOnly(front)[i] in front;
      }
    }
  }

  /** Sorting a list in slot order changes nothing. */
  lemma SortedIsFiltered(ps: seq<Prefetch>)
    requires Ascending(ps)
    ensures SortedCold(ps) == ColdOnly(ps)
  {
    hide ColdOnly, SortBy;
    ColdOnlyAscends(ps);
    SortedStays(ColdOnly(ps), BySlot);
  }

  lemma {:induction false} PrefetchMatches<P>(ps: seq<Prefetch>, patterns: seq<P>, at: nat, n: nat, dic: seq<P>)
    requires n <= |ps| && at + ColdCount(ps[..n]) <= |patterns|
    ensures ItemsOf(PrefetchTakes(ps, patterns, at, n), dic) == PrefetchItems(ColdOnly(ps[..n]))
  {
    hide IndexIn, ColdCount;
    if n > 0 {
      PrefetchNext(ps, patterns, at, n - 1);
      PrefetchMatches(ps, patterns, at, n - 1, dic);
      assert ps[..n][..n - 1] == ps[..n - 1];
      if ps[n - 1].cold {
        var t := Take(ps[n - 1].slot, PRG, patterns[at + ColdCount(ps[..n - 1])]);
        ItemsConcat(PrefetchTakes(ps, patterns, at, n - 1), [t], dic);
        assert ItemsOf([t], dic) == [Item(t.slot, PRG, -1)];
        assert PrefetchItems(ColdOnly(ps[..n - 1]) + [ps[n - 1]])
            == PrefetchItems(ColdOnly(ps[..n - 1])) + [Item(ps[n - 1].slot, PRG, -1)];
      } else {
        assert ColdOnly(ps[..n]) == ColdOnly(ps[..n - 1]);
      }
    }
  }

  lemma UpdatesMatch<P>(d: Decision, takes: seq<Take<P>>, patterns: seq<P>, at: nat, dic: seq<P>, indices: seq<int>)
    requires BeginsWithUpdates(d, takes, patterns, at) && IndicesAt(d, takes, dic, indices)
    ensures ItemsOf(takes[..|d.order|], dic) == OrderItems(d, indices, |d.order|)
  {
    hide IndexIn;
  }

  /** With prefetches in slot order, the grouped items are the frame's takes,
      without the sidecar part that `inline` leaves out. */
  lemma ItemsAreTakes<P>(d: Decision, takes: seq<Take<P>>, patterns: seq<P>, at: nat, dic: seq<P>, indices: seq<int>,
                         inline: nat)
    requires BeginsWithUpdates(d, takes, patterns, at) && GoesOnWithPrefetch(d, takes, patterns, at)
    requires IndicesAt(d, takes, dic, indices) && Ascending(d.prefetch) && inline <= |d.prefetch|
    ensures var n := |d.order| + ColdCount(d.prefetch[..inline]);
            && n <= |takes|
            && OrderItems(d, indices, |d.order|) + PrefetchItems(SortedCold(d.prefetch[..inline]))
            == ItemsOf(takes[..n], dic)
  {
    hide UpdateTakes, ColdCount, IndicesOf, SortedCold, ColdOnly, IndexIn;
    ColdCountMono(d.prefetch, inline);
    SortedIsFiltered(d.prefetch[..inline]);
    UpdatesMatch(d, takes, patterns, at, dic, indices);
    var base := at + |d.order|;
    PrefetchMatches(d.prefetch, patterns, base, inline, dic);
    PrefetchPrefix(d.prefetch, patterns, base, inline);
    var n := |d.order| + ColdCount(d.prefetch[..inline]);
    assert takes[|d.order|..][..ColdCount(d.prefetch[..inline])] == PrefetchTakes(d.prefetch, patterns, base, inline);
    assert takes[..n] == takes[..|d.order|] + takes[|d.order|..][..ColdCount(d.prefetch[..inline])];
    ItemsConcat(takes[..|d.order|], PrefetchTakes(d.prefetch, patterns, base, inline), dic);
  }

  lemma ItemsConcat<P>(a: seq<Take<P>>, b: seq<Take<P>>, dic: seq<P>)
    ensures ItemsOf(a + b, dic) == ItemsOf(a, dic) + ItemsOf(b, dic)
  {
    hide IndexIn;
  }

  lemma PrefetchPrefix<P>(ps: seq<Prefetch>, patterns: seq<P>, at: nat, n: nat)
    requires n <= |ps| && at + ColdCount(ps) <= |patterns|
    ensures ColdCount(ps[..n]) <= ColdCount(ps) && ps[..|ps|] == ps
    ensures PrefetchTakes(ps, patterns, at, n) <= PrefetchTakes(ps, patterns, at, |ps|)
  {
    assert ps[..|ps|] == ps;
    ColdCountMono(ps, n);
    PrefetchGrows(ps, patterns, at, n, |ps|);
  }

  lemma {:induction false} PrefetchGrows<P>(ps: seq<Prefetch>, patterns: seq<P>, at: nat, n: nat, m: nat)
    requires n <= m <= |ps| && at + ColdCount(ps[..m]) <= |patterns|
    ensures ColdCount(ps[..n]) <= ColdCount(ps[..m])
    ensures PrefetchTakes(ps, patterns, at, n) <= PrefetchTakes(ps, patterns, at, m)
  {
    if n < m {
      PrefetchNext(ps, patterns, at, m - 1);
      PrefetchGrows(ps, patterns, at, n, m - 1);
    }
  }

  // Every split run has a descriptor

  ghost predicate Encodable(runs: seq<Run>) {
    forall i :: 0 <= i < |runs| ==> EncodeDescriptor(runs[i]).Ok?
  }

  /** A run whose last slot still has a descriptor slot. */
  ghost predicate Spans(r: Run, pool: int) {
    EncodeDescriptor(r).Ok? && r.slot + r.count <= pool
  }

  lemma {:induction false} SplitOneEncodes(slot: int, n: nat, capacity: nat, cursor: nat, pool: int)
    requires cursor < capacity && 0 <= slot && slot + n <= pool <= 2048 - BASE
    ensures Encodable(SplitOne(slot, n, capacity, cursor))
    decreases n
  {
    if n > 0 {
      var k := Min(n, capacity - cursor);
      SplitOneEncodes(slot + k, n - k, capacity, Wrap(cursor + k, capacity), pool);
    }
  }

  lemma {:induction false} SplitEncodes(runs: seq<Run>, capacity: nat, cursor: nat, pool: int)
    requires cursor < capacity && pool <= 2048 - BASE
    requires forall i :: 0 <= i < |runs| ==> Spans(runs[i], pool)
    ensures Encodable(Split(runs, capacity, cursor))
  {
    hide SplitOne, Advance;
    if runs != [] {
      var init, r := runs[..|runs| - 1], runs[|runs| - 1];
      SplitEncodes(init, capacity, cursor, pool);
      assert Spans(r, pool);
      if r.source == WR {
        SplitOneEncodes(r.slot, WordCount(r), capacity, Advance(cursor, WordTotal(init), capacity), pool);
      }
    }
  }

  lemma RunSpans(items: seq<Item>, pool: int, i: nat)
    requires InPool(items, pool) && pool <= 2048 - BASE && i < |SourceRuns(items)|
    ensures Spans(SourceRuns(items)[i], pool)
  {
    hide SourceRuns, EncodeDescriptor, ExpandAll, Normal;
    var rs := SourceRuns(items);
    PoolRunsEncode(items, pool, i);
    RunsExpand(items);
    var r := rs[i];
    assert Legal(r);
    var b := ExpandAllAt(rs, i, r.count - 1);
    NormalAt(items, b);
    assert Expand(r)[r.count - 1].slot == r.slot + r.count - 1;
  }

  lemma ServableInPool<P>(takes: seq<Take<P>>, dic: seq<P>, pool: int)
    requires Servable(takes, dic, pool) && |dic| <= DIC_BUF_PATTERNS
    ensures InPool(ItemsOf(takes, dic), pool)
  {
  }

  /** Every record of a servable frame fits the two-word form. */
  lemma FrameEncodes<P>(takes: seq<Take<P>>, dic: seq<P>, pool: int, capacity: nat, cursor: nat)
    requires Servable(takes, dic, pool) && |dic| <= DIC_BUF_PATTERNS && pool <= 2048 - BASE && cursor < capacity
    ensures Encodable(FrameRuns(takes, dic, capacity, cursor))
  {
    hide SourceRuns, Split, ItemsOf, EncodeDescriptor, Servable;
    var items := ItemsOf(takes, dic);
    ServableInPool(takes, dic, pool);
    forall i | 0 <= i < |SourceRuns(items)| ensures Spans(SourceRuns(items)[i], pool) {
      RunSpans(items, pool, i);
    }
    SplitEncodes(SourceRuns(items), capacity, cursor, pool);
  }

  method EncodeRuns(runs: seq<Run>) returns (words: seq<(int, int)>)
    requires Encodable(runs)
    ensures Encodes(words, runs)
  {
    hide EncodeDescriptor;
    words := [];
    for i := 0 to |runs|
      invariant Encodes(words, runs[..i])
    {
      words := words + [EncodeDescriptor(runs[i]).value];
    }
    assert runs[..|runs|] == runs;
  }

  // The control suffixes of a whole movie

  /** What the resolver and the allocator guarantee: slots in the pool, prefetches
      in slot order, and a frame-0 prefetch list that is all cold and whose
      sidecar part, behind the first `inline` requests, uses slots of its own. */
  ghost predicate Resolved<P>(ds: seq<Decision>, frames: Frames<P>, pool: int, inline: nat) {
    && |ds| == |frames| && ds != [] && pool <= 2048 - BASE
    && (forall i :: 0 <= i < |ds| ==> Shaped(ds[i]) && Ascending(ds[i].prefetch) && InSlots(frames[i], pool))
    && inline <= |ds[0].prefetch| && (forall k :: 0 <= k < |ds[0].prefetch| ==> ds[0].prefetch[k].cold)
    && (forall a, b :: 0 <= a < |ds[0].order| + inline <= b < |frames[0]| ==> frames[0][a].slot != frames[0][b].slot)
  }

  ghost predicate InSlots<P>(takes: seq<Take<P>>, pool: int) {
    forall k :: 0 <= k < |takes| ==> 0 <= takes[k].slot < pool
  }

  lemma {:induction false} AllCold(ps: seq<Prefetch>, n: nat)
    requires n <= |ps| && forall k :: 0 <= k < |ps| ==> ps[k].cold
    ensures ColdCount(ps[..n]) == n
  {
    if n > 0 {
      AllCold(ps, n - 1);
      assert ps[..n][..n - 1] == ps[..n - 1];
    }
  }

  function InlinePrefetch(ds: seq<Decision>, i: nat, inline: nat): (r: nat)
    requires i < |ds| && (i == 0 ==> inline <= |ds[0].prefetch|)
    ensures r <= |ds[i].prefetch|
  {
    if i == 0 then inline else |ds[i].prefetch|
  }

  /** The part of a frame that its descriptors carry is the part grouped from its
      inline prefetches. */
  lemma CarriedPart<P>(ds: seq<Decision>, frames: Frames<P>, patterns: seq<P>, pool: int, inline: nat, i: nat)
    requires Counted(ds, patterns) && frames == FramesOf(ds, patterns) && Resolved(ds, frames, pool, inline) && i < |ds|
    ensures |frames[0]| == |ds[0].order| + |ds[0].prefetch|
    ensures var n := |ds[i].order| + ColdCount(ds[i].prefetch[..InlinePrefetch(ds, i, inline)]);
            n <= |frames[i]| && Carried(frames, |ds[0].prefetch| - inline, i) == frames[i][..n]
  {
    hide UpdateTakes, PrefetchTakes, FrameStart, BeginsWithUpdates;
    FrameTakes(ds, patterns, 0);
    FrameTakes(ds, patterns, i);
    AllCold(ds[0].prefetch, inline);
    AllCold(ds[0].prefetch, |ds[0].prefetch|);
    assert ds[0].prefetch[..|ds[0].prefetch|] == ds[0].prefetch;
    assert ds[i].prefetch[..|ds[i].prefetch|] == ds[i].prefetch;
    assert frames[i][..|frames[i]|] == frames[i];
  }

  lemma FrameServable<P>(ds: seq<Decision>, frames: Frames<P>, patterns: seq<P>, dic: seq<P>, pool: int, i: nat)
    requires Counted(ds, patterns) && frames == FramesOf(ds, patterns) && i < |ds|
    requires Shaped(ds[i]) && OrderCovers(ds[i]) && SourcesFrozen(ds[i], i) && InSlots(frames[i], pool)
    requires AllInDictionary(frames[i], dic, |frames[i]|)
    ensures Servable(frames[i], dic, pool)
    ensures i == 0 ==> forall k :: 0 <= k < |frames[0]| ==> frames[0][k].source == PRG
  {
    hide UpdateTakes, PrefetchTakes, FrameStart, ColdCount, OrderCovers, SourcesFrozen, FramesOf;
    FrameTakes(ds, patterns, i);
    WithinTakes(ds[i], frames[i], patterns, FrameStart(ds, i));
    PrefetchIsPrg(ds[i], frames[i], patterns, FrameStart(ds, i), dic);
    forall k | 0 <= k < |frames[i]|
      ensures KnownSource(frames[i][k].source) && (i == 0 ==> frames[i][k].source == PRG)
    {
      if k < |ds[i].order| { ColdSource(ds[i], i, k); }
    }
  }

  /** The frame's record list equals the one its takes call for. */
  lemma RunsOfFrame<P>(ds: seq<Decision>, frames: Frames<P>, patterns: seq<P>, dic: seq<P>, indices: seq<int>,
                       pool: int, inline: nat, i: nat)
    requires Counted(ds, patterns) && frames == FramesOf(ds, patterns) && Resolved(ds, frames, pool, inline) && i < |ds|
    requires IndicesAt(ds[i], frames[i], dic, indices)
    ensures inline <= |ds[0].prefetch| && |ds[0].prefetch| - inline <= |frames[0]|
    ensures OrderItems(ds[i], indices, |ds[i].order|)
            + PrefetchItems(SortedCold(ds[i].prefetch[..InlinePrefetch(ds, i, inline)]))
         == ItemsOf(Carried(frames, |ds[0].prefetch| - inline, i), dic)
  {
    hide FramesOf, FrameStart, BeginsWithUpdates, GoesOnWithPrefetch, OrderItems, PrefetchItems, SortedCold, ItemsOf,
         ColdCount;
    CarriedPart(ds, frames, patterns, pool, inline, i);
    FrameTakes(ds, patterns, i);
    ItemsAreTakes(ds[i], frames[i], patterns, FrameStart(ds, i), dic, indices, InlinePrefetch(ds, i, inline));
  }

  /** One frame's words encode its carried takes at the cursor. */
  ghost predicate WordsAt<P>(frames: Frames<P>, sidecar: nat, dic: seq<P>, capacity: seq<nat>, words: seq<(int, int)>,
                             cursor: nat, i: nat)
    requires i < |frames| && sidecar <= |frames[0]| && |capacity| == 2
  {
    cursor < capacity[i % 2] && Encodes(words, FrameRuns(Carried(frames, sidecar, i), dic, capacity[i % 2], cursor))
  }

  lemma CarriedServable<P>(frames: Frames<P>, sidecar: nat, dic: seq<P>, pool: int, i: nat)
    requires i < |frames| && sidecar <= |frames[0]| && Servable(frames[i], dic, pool)
    ensures Servable(Carried(frames, sidecar, i), dic, pool)
  {
  }

  /** The run suffixes of all frames: each frame's records are split at the cursor
      that its parity's earlier frames have left behind. */
  method BuildControl<P(==)>(ds: seq<Decision>, patterns: seq<P>, dic: seq<P>, dics: seq<seq<int>>, capacity: seq<nat>,
                             inline: nat, ghost frames: Frames<P>, ghost pool: int)
    returns (words: seq<seq<(int, int)>>)
    requires Counted(ds, patterns) && frames == FramesOf(ds, patterns) && Resolved(ds, frames, pool, inline)
    requires forall i :: 0 <= i < |ds| ==> OrderCovers(ds[i]) && SourcesFrozen(ds[i], i)
    requires AllIndices(ds, frames, dic, dics, |ds|) && DictionaryCovers(frames, dic, |ds|)
    requires TwoRings(capacity) && |dic| <= DIC_BUF_PATTERNS
    ensures |words| == |ds| && |ds[0].prefetch| - inline <= |frames[0]|
    ensures forall i :: 0 <= i < |ds| ==>
              WordsAt(frames, |ds[0].prefetch| - inline, dic, capacity, words[i], Cursors(frames, capacity)[i], i)
  {
    hide FramesOf, OrderCovers, SourcesFrozen, AllInDictionary, Servable, ItemsOf, SourceRuns, Split, SortedCold,
         OrderItems, PrefetchItems, Carried, Encodes, Encodable, WordTotal, Advance, Positive, RingCursor, Ascending,
         InSlots;
    ghost var sidecar := |ds[0].prefetch| - inline;
    CarriedPart(ds, frames, patterns, pool, inline, 0);
    words := [];
    var cursor0: nat, cursor1: nat := 0, 0;
    CursorsBegin(frames, capacity);
    for i := 0 to |ds|
      invariant |words| == i
      invariant cursor0 == RingCursor(frames, capacity[0], i, 0) && cursor1 == RingCursor(frames, capacity[1], i, 1)
      invariant forall k :: 0 <= k < i ==>
        WordsAt(frames, sidecar, dic, capacity, words[k], Cursors(frames, capacity)[k], k)
    {
      var p := i % 2;
      var cursor := if p == 0 then cursor0 else cursor1;
      var record, next := BuildFrame(ds, patterns, dic, dics[i], capacity, inline, frames, pool, i, cursor);
      CursorMoves(frames, capacity[p], i);
      CursorMoves(frames, capacity[1 - p], i);
      words := words + [record];
      if p == 0 { cursor0 := next; } else { cursor1 := next; }
    }
  }

  lemma CursorsBegin<P>(frames: Frames<P>, capacity: seq<nat>)
    requires TwoRings(capacity)
    ensures RingCursor(frames, capacity[0], 0, 0) == 0 == RingCursor(frames, capacity[1], 0, 1)
  {
    AdvanceNone(0, capacity[0]);
    AdvanceNone(0, capacity[1]);
  }

  /** One frame of build_control: its words and its parity's next cursor. */
  method BuildFrame<P(==)>(ds: seq<Decision>, patterns: seq<P>, dic: seq<P>, indices: seq<int>, capacity: seq<nat>,
                           inline: nat, ghost frames: Frames<P>, ghost pool: int, i: nat, cursor: nat)
    returns (record: seq<(int, int)>, next: nat)
    requires Counted(ds, patterns) && frames == FramesOf(ds, patterns) && Resolved(ds, frames, pool, inline) && i < |ds|
    requires OrderCovers(ds[i]) && SourcesFrozen(ds[i], i) && AllInDictionary(frames[i], dic, |frames[i]|)
    requires IndicesAt(ds[i], frames[i], dic, indices)
    requires TwoRings(capacity) && |dic| <= DIC_BUF_PATTERNS && cursor < capacity[i % 2]
    ensures |ds[0].prefetch| - inline <= |frames[0]|
    ensures WordsAt(frames, |ds[0].prefetch| - inline, dic, capacity, record, cursor, i)
    ensures next == Advance(cursor, |Drawn(frames[i], WR)|, capacity[i % 2])
  {
    hide FramesOf, OrderCovers, SourcesFrozen, AllInDictionary, Servable, ItemsOf, SourceRuns, Split, SortedCold,
         OrderItems, PrefetchItems, Carried, Encodes, Encodable, WordTotal, Advance, Positive, Drawn;
    ghost var sidecar := |ds[0].prefetch| - inline;
    var d := ds[i];
    CarriedPart(ds, frames, patterns, pool, inline, 0);
    FrameServable(ds, frames, patterns, dic, pool, i);
    CarriedServable(frames, sidecar, dic, pool, i);
    RunsOfFrame(ds, frames, patterns, dic, indices, pool, inline, i);
    KnownSources(d, i);
    ghost var takes := Carried(frames, sidecar, i);
    var grouped := TransferRuns(d, d.prefetch[..InlinePrefetch(ds, i, inline)], indices);
    GroupedPositive(takes, dic);
    CarriedWords(frames, sidecar, dic, capacity[i % 2], i);
    var split := SplitWordRingRuns(grouped.value, capacity[i % 2], cursor);
    FrameEncodes(takes, dic, pool, capacity[i % 2], cursor);
    record := EncodeRuns(split.value.0);
    next := split.value.1;
  }

  /** The records a frame carries take as much from the ring as the frame does. */
  lemma CarriedWords<P>(frames: Frames<P>, sidecar: nat, dic: seq<P>, capacity: nat, i: nat)
    requires i < |frames| && (i == 0 ==> sidecar <= |frames[0]|) && capacity > 0
    requires i == 0 ==> forall k :: 0 <= k < |frames[0]| ==> frames[0][k].source == PRG
    ensures WordTotal(SourceRuns(ItemsOf(Carried(frames, sidecar, i), dic))) == |Drawn(frames[i], WR)|
  {
    hide SourceRuns, ItemsOf, WordTotal;
    var takes := Carried(frames, sidecar, i);
    FrameTotals(takes, dic, capacity, 0, WR);
    WordTotalIs(SourceRuns(ItemsOf(takes, dic)));
    if i == 0 {
      AllDrawn(frames[0], PRG);
      AllDrawn(takes, PRG);
    }
  }

  lemma KnownSources(d: Decision, i: nat)
    requires Shaped(d) && OrderCovers(d) && SourcesFrozen(d, i)
    ensures |d.sources| == |d.entries| && InOrder(d)
    ensures forall k :: 0 <= k < |d.order| ==> KnownSource(d.sources[d.order[k]])
  {
    forall k | 0 <= k < |d.order| ensures KnownSource(d.sources[d.order[k]]) {
      ColdSource(d, i, k);
    }
  }

  lemma GroupedPositive<P>(takes: seq<Take<P>>, dic: seq<P>)
    ensures Positive(SourceRuns(ItemsOf(takes, dic)))
  {
    hide SourceRuns, ItemsOf, ExpandAll, Normal;
    RunsExpand(ItemsOf(takes, dic));
  }

  // The whole chain

  lemma {:induction false} StageInPatterns(stage: seq<nat>, n: nat, p: nat)
    requires n <= |stage|
    ensures StageThrough(InPatterns(stage), n, p) == StageThrough(stage, n, p) * PATTERNS_PER_SECTOR
  {
    if n > 0 { StageInPatterns(stage, n - 1, p); }
  }

  lemma SidecarMatches<P>(ds: seq<Decision>, frames: Frames<P>, patterns: seq<P>, pool: int, inline: nat, k: nat)
    requires Counted(ds, patterns) && frames == FramesOf(ds, patterns) && Resolved(ds, frames, pool, inline)
    requires inline <= k < |ds[0].prefetch|
    ensures |ds[0].order| + k < |frames[0]| && frames[0][|ds[0].order| + k].slot == ds[0].prefetch[k].slot
  {
    hide UpdateTakes, FrameStart, BeginsWithUpdates, PrefetchTakes, ColdCount;
    FrameTakes(ds, patterns, 0);
    CarriedPart(ds, frames, patterns, pool, inline, 0);
    var base := FrameStart(ds, 0) + |ds[0].order|;
    ColdSlots(ds[0].prefetch, patterns, base, |ds[0].prefetch|, k);
    assert ds[0].prefetch[..|ds[0].prefetch|] == ds[0].prefetch;
    assert frames[0][|ds[0].order| + k] == frames[0][|ds[0].order|..][k];
  }

  lemma {:induction false} ColdSlots<P>(ps: seq<Prefetch>, patterns: seq<P>, at: nat, n: nat, k: nat)
    requires k < n <= |ps| && (forall j :: 0 <= j < |ps| ==> ps[j].cold) && at + ColdCount(ps[..n]) <= |patterns|
    ensures ColdCount(ps[..n]) == n && PrefetchTakes(ps, patterns, at, n)[k].slot == ps[k].slot
  {
    AllCold(ps, n);
    PrefetchNext(ps, patterns, at, n - 1);
    AllCold(ps, n - 1);
    if k < n - 1 { ColdSlots(ps, patterns, at, n - 1, k); }
  }

  function InPatterns(sectors: seq<nat>): (s: seq<nat>)
    ensures |s| == |sectors|
  {
    seq(|sectors|, i requires 0 <= i < |sectors| => sectors[i] * PATTERNS_PER_SECTOR)
  }

  /** The disc holds what was planned, and arrives as the inputs say. */
  ghost predicate Packed<P>(disc: Disc<P>, frames: Frames<P>, dic: seq<P>, ring: Option<Ring>, prebuffer: nat,
                            add: seq<nat>)
    requires frames != []
  {
    && disc.Valid() && |disc.words| == |frames| && disc.dic == dic
    && disc.f0 == |frames[0]| && disc.prebuffer == prebuffer && disc.add == add
    && disc.stage == InPatterns(StageTrace(ring, |frames|))
    && |disc.boot0| == BootCount(ring, 0, |WordStream(frames, |frames|, 0)|)
    && |disc.boot1| == BootCount(ring, 1, |WordStream(frames, |frames|, 1)|)
  }

  /** Every pattern arrives before its frame pops it, by the inputs alone. */
  ghost predicate ArrivesInTime<P>(frames: Frames<P>, ring: Option<Ring>, prebuffer: nat, add: seq<nat>)
    requires frames != [] && |add| == |frames| && (ring.Some? ==> |ring.value.stageSectors| == |frames|)
  {
    && (forall n :: 1 <= n <= |frames| ==> |PrgStream(frames, n)| <= |frames[0]| + prebuffer + AddThrough(add, n))
    && (forall n, p :: 0 <= n <= |frames| && 0 <= p < 2 ==> WordInTime(frames, ring, n, p))
  }

  ghost predicate WordInTime<P>(frames: Frames<P>, ring: Option<Ring>, n: nat, p: nat)
    requires n <= |frames| && (ring.Some? ==> |ring.value.stageSectors| == |frames|)
  {
    |WordStream(frames, n, p)| <= BootCount(ring, p, |WordStream(frames, |frames|, p)|)
                                  + StageThrough(InPatterns(StageTrace(ring, |frames|)), n, p)
  }

  lemma TimingOfInputs<P>(disc: Disc<P>, frames: Frames<P>, dic: seq<P>, ring: Option<Ring>, prebuffer: nat,
                          add: seq<nat>)
    requires frames != [] && |add| == |frames| && (ring.Some? ==> |ring.value.stageSectors| == |frames|)
    requires Packed(disc, frames, dic, ring, prebuffer, add)
    ensures OnTime(disc, frames) <==> ArrivesInTime(frames, ring, prebuffer, add)
  {
    hide PrgStream, WordStream, StageThrough, AddThrough, BootCount, StageTrace;
    forall n, p | 0 <= n <= |frames| && 0 <= p < 2
      ensures WordDue(disc, frames, n, p) == WordInTime(frames, ring, n, p)
    {}
    if ArrivesInTime(frames, ring, prebuffer, add) {
      forall n | 1 <= n <= |frames| ensures PrgDue(disc, frames, n) {}
    }
    if OnTime(disc, frames) {
      forall n | 1 <= n <= |frames| ensures |PrgStream(frames, n)| <= |frames[0]| + prebuffer + AddThrough(add, n) {
        assert PrgDue(disc, frames, n);
      }
    }
  }

  /** What the replay says about a disc. */
  function Replayed<P>(disc: Disc<P>, pool: int): Result<Verdict<P>>
    requires disc.Valid()
  {
    var end := Movie.After(disc, pool, |disc.words|);
    if end.Err? then Err(end.message) else Close(disc, end.value)
  }

  /** A clean replay: no error, nothing popped from an empty queue, nothing left. */
  predicate Clean<P>(r: Result<Verdict<P>>) { r.Ok? && r.value.bad == 0 }

  /** Packing then replaying: an acceptable movie is packed onto a disc that
      carries it at the carried ring cursors, the verdict is the replay of that
      disc, and it is clean if and only if every pattern arrives in time; then every
      slot holds the pattern the resolver assigned and every queue is empty. */
  method PackAndReplay<P(==, !new)>(ds: seq<Decision>, patterns: seq<P>, dic: seq<P>, capacity: seq<nat>,
                                    ring: Option<Ring>, inline: nat, prebuffer: nat, add: seq<nat>, pool: int,
                                    ghost frames: Frames<P>)
    returns (r: Result<Verdict<P>>, ghost disc: Disc<P>)
    requires Counted(ds, patterns) && frames == FramesOf(ds, patterns) && Resolved(ds, frames, pool, inline)
    requires TwoRings(capacity) && |add| == |ds|
    ensures !Plannable(ds, patterns, dic, capacity[0], capacity[1], DIC_BUF_PATTERNS, ring) ==> r.Err?
    ensures Plannable(ds, patterns, dic, capacity[0], capacity[1], DIC_BUF_PATTERNS, ring) ==>
              && Packed(disc, frames, dic, ring, prebuffer, add)
              && Carries(disc, frames, pool, capacity, Cursors(frames, capacity))
    ensures Plannable(ds, patterns, dic, capacity[0], capacity[1], DIC_BUF_PATTERNS, ring) ==>
              (if Replayed(disc, pool).Ok? then r == Replayed(disc, pool) else r.Err?)
    ensures Plannable(ds, patterns, dic, capacity[0], capacity[1], DIC_BUF_PATTERNS, ring) ==>
              && (ring.Some? ==> |ring.value.stageSectors| == |frames|)
              && (Clean(r) <==> ArrivesInTime(frames, ring, prebuffer, add))
              && (Clean(r) ==> r == Ok(Verdict(TileAfter(frames, |ds|), [], 0)))
  {
    hide FramesOf, TileAfter, AllIndices, OrderCovers, SourcesFrozen, DictionaryCovers, Movie.After, Close, WordsAt,
         PrgStream, WordStream, StageThrough, AddThrough, ArrivesInTime, InTime, OnTime, Carries, Ascending, InSlots,
         Cursors;
    disc := Disc([], [], [], [], [], [], [], [], 0, 0, [], []);
    var planned := PlanSupply(ds, patterns, dic, capacity[0], capacity[1], DIC_BUF_PATTERNS, ring);
    if planned.Err? { return Err(planned.message), disc; }
    var plan := planned.value;
    var words := BuildControl(ds, patterns, dic, plan.dics, capacity, inline, frames, pool);
    var sidecar := seq(|ds[0].prefetch| - inline,
                       k requires 0 <= k < |ds[0].prefetch| - inline => ds[0].prefetch[inline + k].slot);
    var f0 := |ds[0].order| + |ds[0].prefetch|;
    var d := Disc(plan.prg, plan.boot0, plan.boot1, plan.refill0, plan.refill1, dic, words, sidecar, f0, prebuffer, add,
                  InPatterns(plan.stageSectors));
    disc := d;
    PlanCarries(ds, frames, patterns, pool, inline, dic, capacity, plan, d, Cursors(frames, capacity));
    CarriedPart(ds, frames, patterns, pool, inline, 0);
    StagedInFullByPlan(plan, d, frames, ds, dic);
    TimingOfInputs(d, frames, dic, ring, prebuffer, add);
    CleanIffInTime(d, frames, pool, capacity, Cursors(frames, capacity));
    r := DecodeVerify(d, pool);
    if OnTime(d, frames) {
      MovieDelivered(d, frames, pool, capacity, Cursors(frames, capacity));
    }
  }

  /** A laid-out plan stages its refills in full, so timing is all that is left. */
  lemma StagedInFullByPlan<P>(plan: Plan<P>, d: Disc<P>, frames: Frames<P>, ds: seq<Decision>, dic: seq<P>)
    requires |ds| == |frames| == |d.words| && d.Valid() && LaysOut(plan, ds, frames, dic)
    requires d.refill0 == plan.refill0 && d.refill1 == plan.refill1 && d.stage == InPatterns(plan.stageSectors)
    ensures OnTime(d, frames) <==> InTime(d, frames)
  {
    hide PrgStream, WordStream, AllIndices, StageThrough, OnTime;
    StageInPatterns(plan.stageSectors, |frames|, 0);
    StageInPatterns(plan.stageSectors, |frames|, 1);
  }

  lemma PlanCarries<P(!new)>(ds: seq<Decision>, frames: Frames<P>, patterns: seq<P>, pool: int, inline: nat,
                             dic: seq<P>, capacity: seq<nat>, plan: Plan<P>, d: Disc<P>, cursors: seq<nat>)
    requires Counted(ds, patterns) && frames == FramesOf(ds, patterns) && Resolved(ds, frames, pool, inline)
    requires forall i :: 0 <= i < |ds| ==> OrderCovers(ds[i]) && SourcesFrozen(ds[i], i)
    requires |capacity| == 2 && DictionaryCovers(frames, dic, |ds|) && LaysOut(plan, ds, frames, dic)
    requires d.Valid() && |d.words| == |cursors| == |ds| && |ds[0].prefetch| - inline <= |frames[0]|
    requires d.prg == plan.prg && d.boot0 == plan.boot0 && d.boot1 == plan.boot1
    requires d.refill0 == plan.refill0 && d.refill1 == plan.refill1 && d.dic == dic
    requires d.f0 == |ds[0].order| + |ds[0].prefetch| && |d.sidecar| == |ds[0].prefetch| - inline
    requires forall k :: 0 <= k < |d.sidecar| ==> d.sidecar[k] == ds[0].prefetch[inline + k].slot
    requires forall i :: 0 <= i < |ds| ==> WordsAt(frames, |d.sidecar|, dic, capacity, d.words[i], cursors[i], i)
    ensures Carries(d, frames, pool, capacity, cursors)
  {
    hide FramesOf, OrderCovers, SourcesFrozen, PrgStream, WordStream, AllIndices, AllInDictionary, Servable, Encodes,
         Carried;
    CarriedPart(ds, frames, patterns, pool, inline, 0);
    forall i | 0 <= i < |d.sidecar| ensures d.sidecar[i] == frames[0][d.f0 - |d.sidecar| + i].slot {
      SidecarMatches(ds, frames, patterns, pool, inline, inline + i);
    }
    FrameServable(ds, frames, patterns, dic, pool, 0);
    assert BootCarries(d, frames);
    forall i | 0 <= i < |frames| ensures FrameCarried(d, frames, pool, capacity, cursors, i) {
      FrameServable(ds, frames, patterns, dic, pool, i);
      assert WordsAt(frames, |d.sidecar|, dic, capacity, d.words[i], cursors[i], i);
    }
  }
}
