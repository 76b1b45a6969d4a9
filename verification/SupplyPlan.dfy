/**
  Laying out the four pattern sources and the descriptors of a movie
  (tools/pattern_supply.py, plan_supply with frozen sources and a dictionary;
  tools/pack_stream.py, sourced_transfer_runs and the run suffix of
  build_control), up to the end-to-end delivery theorem.
*/
module SupplyPlan {
  import opened Arith
  import opened PatternRuns
  import opened Delivery
  import opened Movie

  datatype Prefetch = Prefetch(slot: int, cold: bool)

  /** What the resolver decided for one frame. */
  datatype Decision = Decision(
    entries: seq<int>, colds: seq<bool>, sources: seq<int>, order: seq<int>, prefetch: seq<Prefetch>)

  predicate Shaped(d: Decision) { |d.colds| == |d.entries| }

  function ColdCount(ps: seq<Prefetch>): nat {
    if ps == [] then 0 else ColdCount(ps[..|ps| - 1]) + if ps[|ps| - 1].cold then 1 else 0
  }

  function ColdUpdates(colds: seq<bool>): set<int> {
    set i | 0 <= i < |colds| && colds[i]
  }

  /** The transfer order names every cold update exactly once. */
  predicate OrderCovers(d: Decision) {
    && |d.order| == |ColdUpdates(d.colds)|
    && (set k | 0 <= k < |d.order| :: d.order[k]) == ColdUpdates(d.colds)
    && forall k :: 0 <= k < |d.order| ==> 0 <= d.order[k] < |d.entries|
  }

  /** _frozen_sources: known sources, preloads only for cold updates, none in frame 0. */
  predicate SourcesFrozen(d: Decision, frame: nat) {
    && |d.sources| == |d.entries|
    && forall i :: 0 <= i < |d.sources| && i < |d.colds| ==>
         && KnownSource(d.sources[i])
         && (!d.colds[i] || frame == 0 ==> d.sources[i] == PRG)
  }

  /** Where a frame's patterns start in the chronological stream. */
  function FrameStart(ds: seq<Decision>, n: nat): nat
    requires n <= |ds|
  {
    if n == 0 then 0 else FrameStart(ds, n - 1) + |ds[n - 1].order| + ColdCount(ds[n - 1].prefetch)
  }

  lemma {:induction false} FrameStartMono(ds: seq<Decision>, n: nat, m: nat)
    requires n <= m <= |ds|
    ensures FrameStart(ds, n) <= FrameStart(ds, m)
  {
    if n < m { FrameStartMono(ds, n, m - 1); }
  }

  predicate InOrder(d: Decision) {
    |d.sources| == |d.entries| && forall k :: 0 <= k < |d.order| ==> 0 <= d.order[k] < |d.entries|
  }

  /** The first n updates in transfer order, with their patterns. */
  function UpdateTakes<P>(d: Decision, patterns: seq<P>, at: nat, n: nat): (r: seq<Take<P>>)
    requires InOrder(d) && n <= |d.order| && at + n <= |patterns|
    ensures |r| == n
  {
    if n == 0 then []
    else UpdateTakes(d, patterns, at, n - 1)
         + [Take(SlotOf(d.entries[d.order[n - 1]]), d.sources[d.order[n - 1]], patterns[at + n - 1])]
  }

  /** The cold ones among the first n prefetches, all from Prg. */
  function PrefetchTakes<P>(ps: seq<Prefetch>, patterns: seq<P>, at: nat, n: nat): (r: seq<Take<P>>)
    requires n <= |ps| && at + ColdCount(ps[..n]) <= |patterns|
    ensures |r| == ColdCount(ps[..n])
  {
    if n == 0 then []
    else
      assert ps[..n][..n - 1] == ps[..n - 1];
      PrefetchTakes(ps, patterns, at, n - 1)
      + if ps[n - 1].cold then [Take(ps[n - 1].slot, PRG, patterns[at + ColdCount(ps[..n - 1])])] else []
  }

  function TakesOf<P>(d: Decision, patterns: seq<P>, at: nat): (r: seq<Take<P>>)
    requires InOrder(d) && at + |d.order| + ColdCount(d.prefetch) <= |patterns|
    ensures |r| == |d.order| + ColdCount(d.prefetch)
  {
    assert d.prefetch[..|d.prefetch|] == d.prefetch;
    UpdateTakes(d, patterns, at, |d.order|) + PrefetchTakes(d.prefetch, patterns, at + |d.order|, |d.prefetch|)
  }

  ghost predicate Counted<P>(ds: seq<Decision>, patterns: seq<P>) {
    && (forall i :: 0 <= i < |ds| ==> InOrder(ds[i]))
    && FrameStart(ds, |ds|) == |patterns|
  }

  /** The movie as assigned: every cold pattern with its slot and source. */
  ghost function FramesOf<P>(ds: seq<Decision>, patterns: seq<P>): (r: Frames<P>)
    requires Counted(ds, patterns)
    ensures |r| == |ds|
  {
    seq(|ds|, i requires 0 <= i < |ds| =>
      FrameStartMono(ds, i + 1, |ds|); TakesOf(ds[i], patterns, FrameStart(ds, i)))
  }

  /** The physical sources: Prg stream, WordBuf streams by parity, and each
      update's dictionary index, -1 where there is none. */
  datatype Sources<P> = Sources(prg: seq<P>, word0: seq<P>, word1: seq<P>, dics: seq<seq<int>>)

  /** The dictionary indices of a frame's updates: those of its Dic takes. */
  ghost predicate IndicesOf<P>(d: Decision, takes: seq<Take<P>>, dic: seq<P>, n: nat, indices: seq<int>)
    requires n <= |d.order| && n <= |takes| && InOrder(d)
  {
    && |indices| == |d.entries|
    && forall k :: 0 <= k < n ==>
         indices[d.order[k]] == if takes[k].source == DIC then IndexIn(dic, takes[k].pattern) else -1
  }

  predicate Distinct(order: seq<int>) {
    forall i, j :: 0 <= i < j < |order| ==> order[i] != order[j]
  }

  /** A list as long as the set of its elements has no duplicates. */
  lemma {:induction false} CoverIsDistinct(order: seq<int>)
    requires |order| == |set k | 0 <= k < |order| :: order[k]|
    ensures Distinct(order)
  {
    if order != [] {
      var n := |order| - 1;
      var init := order[..n];
      var small, all := set k | 0 <= k < |init| :: init[k], set k | 0 <= k < |order| :: order[k];
      assert all == small + {order[n]} by {
        forall x | x in all ensures x in small + {order[n]} {
          var k :| 0 <= k < |order| && order[k] == x;
          if k < n { assert init[k] == x; }
        }
        forall x | x in small ensures x in all {
          var k :| 0 <= k < |init| && init[k] == x;
          assert order[k] == x;
        }
        assert order[n] in all;
      }
      SetOfSeqSize(init);
      assert order[n] !in small;
      CoverIsDistinct(init);
      forall i | 0 <= i < n ensures order[i] != order[n] {
        assert init[i] in small;
      }
    }
  }

  lemma {:induction false} SetOfSeqSize(s: seq<int>)
    ensures |set k | 0 <= k < |s| :: s[k]| <= |s|
  {
    if s != [] {
      var init := s[..|s| - 1];
      SetOfSeqSize(init);
      var small, all := set k | 0 <= k < |init| :: init[k], set k | 0 <= k < |s| :: s[k];
      assert all <= small + {s[|s| - 1]} by {
        forall x | x in all ensures x in small + {s[|s| - 1]} {
          var k :| 0 <= k < |s| && s[k] == x;
          if k < |init| { assert init[k] == x; }
        }
      }
      SubsetSize(all, small + {s[|s| - 1]});
    }
  }

  lemma SubsetSize(a: set<int>, b: set<int>)
    requires a <= b
    ensures |a| <= |b|
  {
    assert b == a + (b - a);
  }

  // plan_supply

  /** A frozen WordBuf ring plan: the boot share of each parity's stream; the
      rest is staged later, in whole sectors. */
  datatype Ring = Ring(boot0: nat, boot1: nat, stageSectors: seq<nat>)

  datatype Plan<P> = Plan(
    prg: seq<P>, boot0: seq<P>, boot1: seq<P>, refill0: seq<P>, refill1: seq<P>, dics: seq<seq<int>>,
    stageSectors: seq<nat>)

  /** The state of the consume loop after some takes of frame f. */
  ghost predicate Consumed<P>(s: Sources<P>, frames: Frames<P>, f: nat, takes: seq<Take<P>>)
    requires f <= |frames|
  {
    && s.prg == PrgStream(frames, f) + Drawn(takes, PRG)
    && s.word0 == WordStream(frames, f, 0) + (if f % 2 == 0 then Drawn(takes, WR) else [])
    && s.word1 == WordStream(frames, f, 1) + (if f % 2 == 1 then Drawn(takes, WR) else [])
  }

  lemma DrawnAppend<P>(takes: seq<Take<P>>, t: Take<P>, source: int)
    ensures Drawn(takes + [t], source) == Drawn(takes, source) + if t.source == source then [t.pattern] else []
  {
    assert (takes + [t])[..|takes|] == takes;
  }

  /** consume_pattern: one pattern goes to the queue of its source. */
  function Consume<P>(s: Sources<P>, frame: nat, source: int, pattern: P): Sources<P> {
    if frame == 0 || source == PRG then s.(prg := s.prg + [pattern])
    else if source == WR then
      if frame % 2 == 1 then s.(word1 := s.word1 + [pattern]) else s.(word0 := s.word0 + [pattern])
    else s
  }

  lemma ConsumeStep<P>(s: Sources<P>, frames: Frames<P>, f: nat, takes: seq<Take<P>>, t: Take<P>)
    requires f <= |frames| && Consumed(s, frames, f, takes)
    requires KnownSource(t.source) && (f == 0 ==> t.source == PRG)
    ensures Consumed(Consume(s, f, t.source, t.pattern), frames, f, takes + [t])
    ensures Consume(s, f, t.source, t.pattern).dics == s.dics
  {
    hide Drawn, PrgStream, WordStream;
    DrawnAppend(takes, t, PRG);
    DrawnAppend(takes, t, WR);
  }

  lemma ConsumeFrame<P>(s: Sources<P>, frames: Frames<P>, f: nat)
    requires f < |frames| && Consumed(s, frames, f, frames[f])
    ensures Consumed(s, frames, f + 1, [])
  {
    hide Drawn;
    NothingDrawn<P>();
  }

  lemma NothingDrawn<P>()
    ensures Drawn<P>([], PRG) == [] && Drawn<P>([], WR) == []
  {
  }

  lemma {:induction false} UpdateTakesAt<P>(d: Decision, patterns: seq<P>, at: nat, n: nat, k: nat)
    requires InOrder(d) && k < n <= |d.order| && at + n <= |patterns|
    ensures UpdateTakes(d, patterns, at, n)[k]
         == Take(SlotOf(d.entries[d.order[k]]), d.sources[d.order[k]], patterns[at + k])
  {
    if k < n - 1 { UpdateTakesAt(d, patterns, at, n - 1, k); }
  }

  /** takes begins with the frame's updates in transfer order. */
  ghost predicate BeginsWithUpdates<P>(d: Decision, takes: seq<Take<P>>, patterns: seq<P>, at: nat) {
    && InOrder(d) && |d.order| <= |takes| && at + |d.order| <= |patterns|
    && forall k :: 0 <= k < |d.order| ==>
         takes[k] == Take(SlotOf(d.entries[d.order[k]]), d.sources[d.order[k]], patterns[at + k])
  }

  /** No Dic take among the first n is missing from the dictionary. */
  ghost predicate AllInDictionary<P>(takes: seq<Take<P>>, dic: seq<P>, n: nat)
    requires n <= |takes|
  {
    forall k :: 0 <= k < n && takes[k].source == DIC ==> takes[k].pattern in dic
  }

  /** The indices written so far, and -1 for the updates still to come. */
  ghost predicate IndicesSoFar<P>(d: Decision, takes: seq<Take<P>>, dic: seq<P>, n: nat, indices: seq<int>)
    requires InOrder(d) && n <= |d.order| <= |takes|
  {
    && IndicesOf(d, takes, dic, n, indices)
    && forall k :: n <= k < |d.order| ==> indices[d.order[k]] == -1
  }

  lemma IndicesNext<P>(d: Decision, takes: seq<Take<P>>, dic: seq<P>, n: nat, indices: seq<int>)
    requires InOrder(d) && n < |d.order| <= |takes| && Distinct(d.order)
    requires IndicesSoFar(d, takes, dic, n, indices)
    ensures takes[n].source != DIC ==> IndicesSoFar(d, takes, dic, n + 1, indices)
    ensures takes[n].source == DIC ==>
              IndicesSoFar(d, takes, dic, n + 1, indices[d.order[n] := IndexIn(dic, takes[n].pattern)])
  {
    hide IndexIn;
  }

  /** The updates of one frame, consumed in transfer order. */
  method ConsumeUpdates<P(==)>(d: Decision, f: nat, patterns: seq<P>, at: nat, dic: seq<P>, start: Sources<P>,
                               ghost frames: Frames<P>, ghost takes: seq<Take<P>>)
    returns (r: Result<Sources<P>>)
    requires OrderCovers(d) && SourcesFrozen(d, f) && Shaped(d)
    requires BeginsWithUpdates(d, takes, patterns, at)
    requires f <= |frames| && Consumed(start, frames, f, [])
    ensures r.Ok? <==> AllInDictionary(takes, dic, |d.order|)
    ensures r.Ok? ==> Consumed(r.value, frames, f, takes[..|d.order|])
    ensures r.Ok? ==> |r.value.dics| == |start.dics| + 1 && r.value.dics[..|start.dics|] == start.dics
    ensures r.Ok? ==> IndicesOf(d, takes, dic, |d.order|, r.value.dics[|start.dics|])
  {
    CoverIsDistinct(d.order);
    hide Consumed, IndexIn, Consume, IndicesOf, OrderCovers, Distinct;
    var indices: seq<int> := seq(|d.entries|, _ => -1);
    var s := start;
    assert takes[..0] == [];
    IndicesNone(d, takes, dic, indices);
    for k := 0 to |d.order|
      invariant s.dics == start.dics && |indices| == |d.entries|
      invariant Consumed(s, frames, f, takes[..k])
      invariant AllInDictionary(takes, dic, k)
      invariant IndicesSoFar(d, takes, dic, k, indices)
    {
      var update := d.order[k];
      var source, pattern := d.sources[update], patterns[at + k];
      ColdSource(d, f, k);
      assert takes[..k + 1] == takes[..k] + [takes[k]];
      ConsumeStep(s, frames, f, takes[..k], takes[k]);
      IndicesNext(d, takes, dic, k, indices);
      if f > 0 && source == DIC {
        var index := IndexIn(dic, pattern);
        InDictionary(dic, pattern);
        if index < 0 { return Err("Dic source pattern is absent from dictionary"); }
        indices := indices[update := index];
      }
      s := Consume(s, f, source, pattern);
    }
    KeepsDics(s, frames, f, takes[..|d.order|], s.dics + [indices]);
    r := Ok(s.(dics := s.dics + [indices]));
  }

  lemma IndicesNone<P>(d: Decision, takes: seq<Take<P>>, dic: seq<P>, indices: seq<int>)
    requires InOrder(d) && |d.order| <= |takes| && |indices| == |d.entries|
    requires forall i :: 0 <= i < |indices| ==> indices[i] == -1
    ensures IndicesSoFar(d, takes, dic, 0, indices)
  {
  }

  lemma KeepsDics<P>(s: Sources<P>, frames: Frames<P>, f: nat, takes: seq<Take<P>>, dics: seq<seq<int>>)
    requires f <= |frames| && Consumed(s, frames, f, takes)
    ensures Consumed(s.(dics := dics), frames, f, takes)
  {
  }

  lemma InDictionary<P>(dic: seq<P>, p: P)
    ensures IndexIn(dic, p) >= 0 <==> p in dic
  {
  }

  lemma ColdSource(d: Decision, f: nat, k: nat)
    requires OrderCovers(d) && SourcesFrozen(d, f) && Shaped(d) && k < |d.order|
    ensures KnownSource(d.sources[d.order[k]]) && (f == 0 ==> d.sources[d.order[k]] == PRG)
  {
  }

  /** takes goes on with the frame's cold prefetches. */
  ghost predicate GoesOnWithPrefetch<P>(d: Decision, takes: seq<Take<P>>, patterns: seq<P>, at: nat) {
    && |takes| == |d.order| + ColdCount(d.prefetch) && at + |takes| <= |patterns|
    && takes[|d.order|..] == PrefetchPart(d, patterns, at + |d.order|)
  }

  ghost function PrefetchPart<P>(d: Decision, patterns: seq<P>, at: nat): seq<Take<P>>
    requires at + ColdCount(d.prefetch) <= |patterns|
  {
    assert d.prefetch[..|d.prefetch|] == d.prefetch;
    PrefetchTakes(d.prefetch, patterns, at, |d.prefetch|)
  }

  lemma PrefetchNext<P>(ps: seq<Prefetch>, patterns: seq<P>, at: nat, n: nat)
    requires n < |ps| && at + ColdCount(ps[..n + 1]) <= |patterns|
    ensures ColdCount(ps[..n + 1]) == ColdCount(ps[..n]) + if ps[n].cold then 1 else 0
    ensures PrefetchTakes(ps, patterns, at, n + 1) == PrefetchTakes(ps, patterns, at, n)
              + if ps[n].cold then [Take(ps[n].slot, PRG, patterns[at + ColdCount(ps[..n])])] else []
  {
    assert ps[..n + 1][..n] == ps[..n];
  }

  lemma {:induction false} ColdCountMono(ps: seq<Prefetch>, n: nat)
    requires n <= |ps|
    ensures ColdCount(ps[..n]) <= ColdCount(ps)
  {
    if n < |ps| {
      ColdCountMono(ps[..|ps| - 1], n);
      assert ps[..|ps| - 1][..n] == ps[..n];
    } else {
      assert ps[..n] == ps;
    }
  }

  /** The cold prefetches of one frame, consumed in list order. */
  method ConsumePrefetch<P>(d: Decision, f: nat, patterns: seq<P>, at: nat, start: Sources<P>,
                            ghost frames: Frames<P>, ghost takes: seq<Take<P>>)
    returns (s: Sources<P>)
    requires f <= |frames| && GoesOnWithPrefetch(d, takes, patterns, at)
    requires Consumed(start, frames, f, takes[..|d.order|])
    ensures Consumed(s, frames, f, takes) && s.dics == start.dics
  {
    hide Consumed, Consume, PrefetchTakes, ColdCount;
    s := start;
    var next := at + |d.order|;
    ghost var base, updates := next, takes[..|d.order|];
    PrefetchNone(d, patterns, base);
    assert updates + [] == updates;
    for k := 0 to |d.prefetch|
      invariant ColdCount(d.prefetch[..k]) <= ColdCount(d.prefetch)
      invariant next == base + ColdCount(d.prefetch[..k]) && s.dics == start.dics
      invariant Consumed(s, frames, f, updates + PrefetchTakes(d.prefetch, patterns, base, k))
    {
      ColdCountMono(d.prefetch, k + 1);
      PrefetchNext(d.prefetch, patterns, base, k);
      ghost var seen := PrefetchTakes(d.prefetch, patterns, base, k);
      assert seen + [] == seen;
      if d.prefetch[k].cold {
        ghost var t := Take(d.prefetch[k].slot, PRG, patterns[next]);
        ConsumeStep(s, frames, f, updates + seen, t);
        assert updates + (seen + [t]) == (updates + seen) + [t];
        s := Consume(s, f, PRG, patterns[next]);
        next := next + 1;
      }
    }
    assert d.prefetch[..|d.prefetch|] == d.prefetch;
    assert updates + takes[|d.order|..] == takes;
  }

  lemma PrefetchNone<P>(d: Decision, patterns: seq<P>, at: nat)
    requires at <= |patterns|
    ensures d.prefetch[..0] == [] && ColdCount(d.prefetch[..0]) == 0
    ensures PrefetchTakes(d.prefetch, patterns, at, 0) == []
  {
  }

  lemma FrameTakes<P>(ds: seq<Decision>, patterns: seq<P>, f: nat)
    requires Counted(ds, patterns) && f < |ds|
    ensures BeginsWithUpdates(ds[f], FramesOf(ds, patterns)[f], patterns, FrameStart(ds, f))
    ensures GoesOnWithPrefetch(ds[f], FramesOf(ds, patterns)[f], patterns, FrameStart(ds, f))
    ensures FrameStart(ds, f + 1) == FrameStart(ds, f) + |FramesOf(ds, patterns)[f]|
  {
    hide UpdateTakes, PrefetchTakes, ColdCount, FrameStart;
    var d, at := ds[f], FrameStart(ds, f);
    FrameStartNext(ds, f);
    FrameStartMono(ds, f + 1, |ds|);
    forall k | 0 <= k < |d.order|
      ensures UpdateTakes(d, patterns, at, |d.order|)[k]
           == Take(SlotOf(d.entries[d.order[k]]), d.sources[d.order[k]], patterns[at + k])
    {
      UpdateTakesAt(d, patterns, at, |d.order|, k);
    }
  }

  lemma FrameStartNext(ds: seq<Decision>, f: nat)
    requires f < |ds|
    ensures FrameStart(ds, f + 1) == FrameStart(ds, f) + |ds[f].order| + ColdCount(ds[f].prefetch)
  {
  }

  /** Every Dic take of the movie is in the dictionary. */
  ghost predicate DictionaryCovers<P>(frames: Frames<P>, dic: seq<P>, n: nat)
    requires n <= |frames|
  {
    forall f :: 0 <= f < n ==> AllInDictionary(frames[f], dic, |frames[f]|)
  }

  /** The indices of all updates of the first n frames. */
  ghost predicate AllIndices<P>(ds: seq<Decision>, frames: Frames<P>, dic: seq<P>, dics: seq<seq<int>>, n: nat)
    requires n <= |ds| == |frames|
  {
    |dics| == n && forall f :: 0 <= f < n ==> IndicesAt(ds[f], frames[f], dic, dics[f])
  }

  ghost predicate IndicesAt<P>(d: Decision, takes: seq<Take<P>>, dic: seq<P>, indices: seq<int>) {
    InOrder(d) && |d.order| <= |takes| && IndicesOf(d, takes, dic, |d.order|, indices)
  }

  lemma PrefetchIsPrg<P>(d: Decision, takes: seq<Take<P>>, patterns: seq<P>, at: nat, dic: seq<P>)
    requires |d.order| <= |takes| && GoesOnWithPrefetch(d, takes, patterns, at)
    ensures forall k :: |d.order| <= k < |takes| ==> takes[k].source == PRG
    ensures AllInDictionary(takes, dic, |takes|) <==> AllInDictionary(takes, dic, |d.order|)
  {
    hide PrefetchTakes, ColdCount;
    PrefetchSources(d.prefetch, patterns, at + |d.order|, |d.prefetch|);
    assert d.prefetch[..|d.prefetch|] == d.prefetch;
    forall k | |d.order| <= k < |takes| ensures takes[k].source == PRG {
      assert takes[k] == takes[|d.order|..][k - |d.order|];
    }
  }

  lemma {:induction false} PrefetchSources<P>(ps: seq<Prefetch>, patterns: seq<P>, at: nat, n: nat)
    requires n <= |ps| && at + ColdCount(ps[..n]) <= |patterns|
    ensures forall k :: 0 <= k < |PrefetchTakes(ps, patterns, at, n)| ==>
              PrefetchTakes(ps, patterns, at, n)[k].source == PRG
  {
    if n > 0 {
      PrefetchNext(ps, patterns, at, n - 1);
      PrefetchSources(ps, patterns, at, n - 1);
    }
  }

  /** The consume loop over the whole movie. */
  method ConsumeMovie<P(==)>(ds: seq<Decision>, patterns: seq<P>, dic: seq<P>) returns (r: Result<Sources<P>>)
    requires forall i :: 0 <= i < |ds| ==> Shaped(ds[i]) && OrderCovers(ds[i]) && SourcesFrozen(ds[i], i)
    requires Counted(ds, patterns)
    ensures var frames := FramesOf(ds, patterns);
            && (r.Ok? <==> DictionaryCovers(frames, dic, |ds|))
            && (r.Ok? ==> r.value.prg == PrgStream(frames, |ds|))
            && (r.Ok? ==> r.value.word0 == WordStream(frames, |ds|, 0) && r.value.word1 == WordStream(frames, |ds|, 1))
            && (r.Ok? ==> AllIndices(ds, frames, dic, r.value.dics, |ds|))
  {
    hide Consumed, IndicesOf, OrderCovers, AllInDictionary, SourcesFrozen, FrameStart, ColdCount, BeginsWithUpdates,
         GoesOnWithPrefetch, FramesOf;
    ghost var frames := FramesOf(ds, patterns);
    var s: Sources<P> := Sources([], [], [], []);
    var at := 0;
    ConsumeStart(s, ds, frames);
    for f := 0 to |ds|
      invariant at == FrameStart(ds, f)
      invariant Consumed(s, frames, f, []) && DictionaryCovers(frames, dic, f)
      invariant AllIndices(ds, frames, dic, s.dics, f)
    {
      FrameTakes(ds, patterns, f);
      WithinTakes(ds[f], frames[f], patterns, at);
      PrefetchIsPrg(ds[f], frames[f], patterns, at, dic);
      var updated := ConsumeUpdates(ds[f], f, patterns, at, dic, s, frames, frames[f]);
      if updated.Err? { return Err(updated.message); }
      var next := ConsumePrefetch(ds[f], f, patterns, at, updated.value, frames, frames[f]);
      ConsumeFrame(next, frames, f);
      s := next;
      at := at + |ds[f].order| + ColdCount(ds[f].prefetch);
      assert s.dics == s.dics[..f] + [s.dics[f]];
    }
    ConsumeEnd(s, frames);
    r := Ok(s);
  }

  lemma WithinTakes<P>(d: Decision, takes: seq<Take<P>>, patterns: seq<P>, at: nat)
    requires BeginsWithUpdates(d, takes, patterns, at) && GoesOnWithPrefetch(d, takes, patterns, at)
    ensures InOrder(d) && |d.order| <= |takes| == |d.order| + ColdCount(d.prefetch)
  {
  }

  lemma ConsumeStart<P>(s: Sources<P>, ds: seq<Decision>, frames: Frames<P>)
    requires s == Sources([], [], [], [])
    ensures Consumed(s, frames, 0, []) && FrameStart(ds, 0) == 0
  {
  }

  lemma ConsumeEnd<P>(s: Sources<P>, frames: Frames<P>)
    requires Consumed(s, frames, |frames|, [])
    ensures s.prg == PrgStream(frames, |frames|)
    ensures s.word0 == WordStream(frames, |frames|, 0) && s.word1 == WordStream(frames, |frames|, 1)
  {
    NothingDrawn<P>();
  }

  // Conservation

  function DicStream<P>(frames: Frames<P>, n: nat): seq<P>
    requires n <= |frames|
  {
    if n == 0 then [] else DicStream(frames, n - 1) + Drawn(frames[n - 1], DIC)
  }

  function TakeCount<P>(frames: Frames<P>, n: nat): nat
    requires n <= |frames|
  {
    if n == 0 then 0 else TakeCount(frames, n - 1) + |frames[n - 1]|
  }

  lemma {:induction false} DrawnPartition<P>(takes: seq<Take<P>>)
    requires forall k :: 0 <= k < |takes| ==> KnownSource(takes[k].source)
    ensures |Drawn(takes, PRG)| + |Drawn(takes, WR)| + |Drawn(takes, DIC)| == |takes|
  {
    if takes != [] { DrawnPartition(takes[..|takes| - 1]); }
  }

  /** The four sources partition the stream: plan_supply's final count, which
      guards against lost or duplicated patterns, always agrees. */
  lemma {:induction false} SourcesPartition<P>(frames: Frames<P>, n: nat)
    requires n <= |frames|
    requires forall f, k :: 0 <= f < |frames| && 0 <= k < |frames[f]| ==> KnownSource(frames[f][k].source)
    ensures |PrgStream(frames, n)| + |WordStream(frames, n, 0)| + |WordStream(frames, n, 1)| + |DicStream(frames, n)|
         == TakeCount(frames, n)
  {
    if n > 0 {
      hide Drawn;
      SourcesPartition(frames, n - 1);
      DrawnPartition(frames[n - 1]);
    }
  }

  /** Sectors staged to one parity, in patterns. */
  function Staged(stage: seq<nat>, p: nat): nat { StageThrough(stage, |stage|, p) * PATTERNS_PER_SECTOR }

  /** Sectors staged frame by frame: the ring's own trace, or none without a ring. */
  function StageTrace(ring: Option<Ring>, frames: nat): seq<nat> {
    if ring.Some? then ring.value.stageSectors else NoStage(frames)
  }

  function NoStage(n: nat): (stage: seq<nat>)
    ensures |stage| == n
  {
    seq(n, _ => 0)
  }

  /** Patterns of a parity that are in Word-RAM at boot: all of them without a ring. */
  function BootCount(ring: Option<Ring>, p: nat, total: nat): nat {
    if ring.None? then total else if p == 0 then ring.value.boot0 else ring.value.boot1
  }

  /** The conditions under which plan_supply accepts the WordBuf split. */
  ghost predicate RingFits(word0: nat, word1: nat, frames: nat, dic: nat, capacity0: int, capacity1: int,
                           dicCapacity: int, ring: Option<Ring>)
  {
    && dic <= dicCapacity
    && match ring
       case None => word0 <= capacity0 && word1 <= capacity1
       case Some(Ring(boot0, boot1, stage)) =>
         && |stage| == frames
         && boot0 <= capacity0 && boot1 <= capacity1 && boot0 <= word0 && boot1 <= word1
         && Staged(stage, 0) == word0 - boot0 && Staged(stage, 1) == word1 - boot1
  }

  /** All that plan_supply requires of its inputs. */
  ghost predicate Plannable<P>(ds: seq<Decision>, patterns: seq<P>, dic: seq<P>, capacity0: int, capacity1: int,
                               dicCapacity: int, ring: Option<Ring>) {
    && capacity0 >= 0 && capacity1 >= 0
    && (forall i :: 0 <= i < |ds| ==> OrderCovers(ds[i]) && SourcesFrozen(ds[i], i))
    && FrameStart(ds, |ds|) == |patterns|
    && |dic| <= dicCapacity && NoDuplicates(dic)
    && DictionaryCovers(FramesOf(ds, patterns), dic, |ds|)
    && RingFits(|WordStream(FramesOf(ds, patterns), |ds|, 0)|, |WordStream(FramesOf(ds, patterns), |ds|, 1)|,
                |ds|, |dic|, capacity0, capacity1, dicCapacity, ring)
  }

  predicate NoDuplicates<P(==)>(s: seq<P>) {
    forall i, j :: 0 <= i < j < |s| ==> s[i] != s[j]
  }

  /** No pattern twice: as many different patterns as patterns. */
  lemma {:induction false} NoDuplicatesIs<P>(s: seq<P>)
    ensures NoDuplicates(s) <==> |set p | p in s| == |s|
    ensures |set p | p in s| <= |s|
  {
    if s != [] {
      var n := |s| - 1;
      NoDuplicatesIs(s[..n]);
      assert s == s[..n] + [s[n]];
      assert (set p | p in s) == (set p | p in s[..n]) + {s[n]};
    }
  }

  /** The order names every cold update once, and nothing else. */
  lemma OrderCoversIs(d: Decision)
    requires Shaped(d)
    ensures OrderCovers(d) <==>
              && (forall i :: 0 <= i < |d.colds| && d.colds[i] ==> i in d.order)
              && (forall i :: i in d.order ==> 0 <= i < |d.colds| && d.colds[i])
              && forall j, k :: 0 <= j < k < |d.order| ==> d.order[j] != d.order[k]
  {
    var named, cold := set k | 0 <= k < |d.order| :: d.order[k], ColdUpdates(d.colds);
    assert named == set i | i in d.order;
    NoDuplicatesIs(d.order);
    assert named == cold <==> (forall i :: i in cold ==> i in named) && forall i :: i in named ==> i in cold;
    assert forall i :: i in cold <==> 0 <= i < |d.colds| && d.colds[i];
    if named == cold {
      forall k | 0 <= k < |d.order| ensures 0 <= d.order[k] < |d.entries| { assert d.order[k] in cold; }
    }
  }

  /** Sources are the three known ones, and Prg for whatever is not preloaded: all of
      frame 0 and every update that is not cold. */
  lemma SourcesFrozenIs(d: Decision, frame: nat)
    requires Shaped(d)
    ensures SourcesFrozen(d, frame) <==>
              && |d.sources| == |d.entries| && (forall i :: 0 <= i < |d.sources| ==> d.sources[i] in {PRG, WR, DIC})
              && forall i :: 0 <= i < |d.sources| && d.sources[i] != PRG ==> d.colds[i] && frame > 0
  {
  }

  /** The plan lays the movie out: every stream in chronological order, each
      parity cut into boot and refill. */
  ghost predicate LaysOut<P>(plan: Plan<P>, ds: seq<Decision>, frames: Frames<P>, dic: seq<P>)
    requires |ds| == |frames|
  {
    && plan.prg == PrgStream(frames, |frames|)
    && plan.boot0 + plan.refill0 == WordStream(frames, |frames|, 0)
    && plan.boot1 + plan.refill1 == WordStream(frames, |frames|, 1)
    && AllIndices(ds, frames, dic, plan.dics, |ds|)
    && |plan.stageSectors| == |ds|
    && Staged(plan.stageSectors, 0) == |plan.refill0| && Staged(plan.stageSectors, 1) == |plan.refill1|
  }

  lemma OrdersAreCounted<P>(ds: seq<Decision>, patterns: seq<P>)
    requires forall i :: 0 <= i < |ds| ==> OrderCovers(ds[i]) && SourcesFrozen(ds[i], i)
    requires FrameStart(ds, |ds|) == |patterns|
    ensures Counted(ds, patterns)
  {
  }

  lemma {:induction false} NothingStaged(n: nat, p: nat)
    ensures StageThrough(seq(n, _ => 0), n, p) == 0
  {
    if n > 0 {
      NothingStaged(n - 1, p);
      StageSame(seq(n, _ => 0), seq(n - 1, _ => 0), n - 1, p);
    }
  }

  lemma {:induction false} StageSame(a: seq<nat>, b: seq<nat>, n: nat, p: nat)
    requires n <= |a| && n <= |b| && forall i :: 0 <= i < n ==> a[i] == b[i]
    ensures StageThrough(a, n, p) == StageThrough(b, n, p)
  {
    if n > 0 { StageSame(a, b, n - 1, p); }
  }

  /** The two cases of the check as one. */
  lemma FitsAsCut(word0: nat, word1: nat, frames: nat, dic: nat, capacity0: int, capacity1: int, dicCapacity: int,
                  ring: Option<Ring>)
    ensures var boot0, boot1 := BootCount(ring, 0, word0), BootCount(ring, 1, word1);
            var stage := StageTrace(ring, frames);
            RingFits(word0, word1, frames, dic, capacity0, capacity1, dicCapacity, ring) <==>
              && |stage| == frames && dic <= dicCapacity
              && boot0 <= capacity0 && boot1 <= capacity1 && boot0 <= word0 && boot1 <= word1
              && Staged(stage, 0) == word0 - boot0 && Staged(stage, 1) == word1 - boot1
  {
    NothingStaged(frames, 0);
    NothingStaged(frames, 1);
  }

  /** Each parity's stream is cut at its boot count; the rest is staged by sectors. */
  method CutStreams<P>(s: Sources<P>, frames: nat, dic: nat, capacity0: int, capacity1: int, dicCapacity: int,
                       ring: Option<Ring>) returns (r: Result<Plan<P>>)
    ensures r.Ok? <==> RingFits(|s.word0|, |s.word1|, frames, dic, capacity0, capacity1, dicCapacity, ring)
    ensures r.Ok? ==> r.value.prg == s.prg && r.value.dics == s.dics
    ensures r.Ok? ==> r.value.boot0 + r.value.refill0 == s.word0 && r.value.boot1 + r.value.refill1 == s.word1
    ensures r.Ok? ==> |r.value.stageSectors| == frames
                      && Staged(r.value.stageSectors, 0) == |r.value.refill0|
                      && Staged(r.value.stageSectors, 1) == |r.value.refill1|
    ensures r.Ok? ==> r.value.stageSectors == StageTrace(ring, frames)
    ensures r.Ok? ==>
      |r.value.boot0| == BootCount(ring, 0, |s.word0|) && |r.value.boot1| == BootCount(ring, 1, |s.word1|)
  {
    hide Staged, RingFits;
    FitsAsCut(|s.word0|, |s.word1|, frames, dic, capacity0, capacity1, dicCapacity, ring);
    var boot0, boot1, stage := |s.word0|, |s.word1|, NoStage(frames);
    if ring.Some? {
      boot0, boot1, stage := ring.value.boot0, ring.value.boot1, ring.value.stageSectors;
      if |stage| != frames { return Err("frozen WordBuf stage-sector trace is invalid"); }
    }
    assert boot0 == BootCount(ring, 0, |s.word0|) && boot1 == BootCount(ring, 1, |s.word1|);
    assert stage == StageTrace(ring, frames);
    hide BootCount, StageTrace, NoStage;
    if boot0 > capacity0 || boot1 > capacity1 || boot0 > |s.word0| || boot1 > |s.word1| || dic > dicCapacity {
      return Err("pattern supply planner exceeded a physical preload capacity");
    }
    if Staged(stage, 0) != |s.word0| - boot0 || Staged(stage, 1) != |s.word1| - boot1 {
      return Err("frozen WordBuf refill stream differs from stage sectors");
    }
    r := Ok(Plan(s.prg, s.word0[..boot0], s.word1[..boot1], s.word0[boot0..], s.word1[boot1..], s.dics, stage));
  }

  /** plan_supply with sources frozen by the simulation. */
  method PlanSupply<P(==)>(ds: seq<Decision>, patterns: seq<P>, dic: seq<P>, capacity0: int, capacity1: int,
                           dicCapacity: int, ring: Option<Ring>) returns (r: Result<Plan<P>>)
    requires forall i :: 0 <= i < |ds| ==> Shaped(ds[i])
    ensures r.Ok? <==> Plannable(ds, patterns, dic, capacity0, capacity1, dicCapacity, ring)
    ensures r.Ok? ==> Counted(ds, patterns) && LaysOut(r.value, ds, FramesOf(ds, patterns), dic)
    ensures r.Ok? ==> r.value.stageSectors == StageTrace(ring, |ds|)
    ensures r.Ok? ==> |r.value.boot0| == BootCount(ring, 0, |r.value.boot0| + |r.value.refill0|)
                      && |r.value.boot1| == BootCount(ring, 1, |r.value.boot1| + |r.value.refill1|)
  {
    hide FrameStart, FramesOf, PrgStream, WordStream, StageThrough, AllIndices, DictionaryCovers, SourcesFrozen,
         OrderCovers, NoDuplicates;
    if capacity0 < 0 || capacity1 < 0 { return Err("WordBuf capacities must be non-negative"); }
    for i := 0 to |ds|
      invariant forall k :: 0 <= k < i ==> OrderCovers(ds[k])
    {
      if !OrderCovers(ds[i]) { return Err("transfer order does not cover each cold update"); }
    }
    if FrameStart(ds, |ds|) != |patterns| { return Err("cold pattern stream mismatch"); }
    for i := 0 to |ds|
      invariant forall k :: 0 <= k < i ==> SourcesFrozen(ds[k], k)
    {
      if !SourcesFrozen(ds[i], i) { return Err("invalid frozen pattern source"); }
    }
    if |dic| > dicCapacity || !NoDuplicates(dic) { return Err("invalid DicBuf dictionary"); }
    OrdersAreCounted(ds, patterns);
    var consumed := ConsumeMovie(ds, patterns, dic);
    if consumed.Err? { return Err(consumed.message); }
    r := CutStreams(consumed.value, |ds|, |dic|, capacity0, capacity1, dicCapacity, ring);
  }
}
