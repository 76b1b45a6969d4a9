/** What a name-table entry shows after a replay (tools/pack_stream.py): the tile
    an entry names holds the pattern that was assigned to it, until a later
    transfer writes that tile. */
module TileContents {
  import opened PatternRuns
  import opened Delivery
  import opened Movie
  import opened SupplyPlan
  import opened RingReplay

  /** A tile that none of the takes writes keeps what it holds. */
  lemma {:induction false} ApplyMisses<P>(tile: map<int, P>, takes: seq<Take<P>>, t: int)
    requires t in tile && forall j :: 0 <= j < |takes| ==> takes[j].slot + 1 != t
    ensures t in Apply(tile, takes) && Apply(tile, takes)[t] == tile[t]
  {
    if takes != [] { ApplyMisses(tile, takes[..|takes| - 1], t); }
  }

  /** The last take that writes a tile decides it. */
  lemma {:induction false} ApplyHits<P>(tile: map<int, P>, takes: seq<Take<P>>, k: nat)
    requires k < |takes| && forall j :: k < j < |takes| ==> takes[j].slot != takes[k].slot
    ensures takes[k].slot + 1 in Apply(tile, takes) && Apply(tile, takes)[takes[k].slot + 1] == takes[k].pattern
  {
    if k < |takes| - 1 { ApplyHits(tile, takes[..|takes| - 1], k); }
  }

  /** No take after take k of frame i, up to frame n, writes the tile. */
  ghost predicate Undisturbed<P>(frames: Frames<P>, i: nat, k: nat, n: nat, t: int) {
    && i < n <= |frames|
    && (forall j :: k < j < |frames[i]| ==> frames[i][j].slot + 1 != t)
    && forall m :: i < m < n ==> NotWritten(frames[m], t)
  }

  ghost predicate NotWritten<P>(takes: seq<Take<P>>, t: int) { forall j :: 0 <= j < |takes| ==> takes[j].slot + 1 != t }

  lemma {:induction false} TileKept<P>(frames: Frames<P>, i: nat, k: nat, n: nat, t: int)
    requires i < n <= |frames| && k < |frames[i]| && t == frames[i][k].slot + 1 && Undisturbed(frames, i, k, n, t)
    ensures t in TileAfter(frames, n) && TileAfter(frames, n)[t] == frames[i][k].pattern
    decreases n
  {
    hide Apply;
    if n == i + 1 {
      ApplyHits(TileAfter(frames, i), frames[i], k);
    } else {
      TileKept(frames, i, k, n - 1, t);
      assert NotWritten(frames[n - 1], t);
      ApplyMisses(TileAfter(frames, n - 1), frames[n - 1], t);
    }
  }

  /** An entry's low eleven bits name the tile its pattern is transferred to. */
  lemma EntryNamesTile<P>(ds: seq<Decision>, patterns: seq<P>, i: nat, k: nat)
    requires Counted(ds, patterns) && i < |ds| && k < |ds[i].order|
    ensures FrameStart(ds, i) + k < |patterns| && k < |FramesOf(ds, patterns)[i]| && InOrder(ds[i])
    ensures FramesOf(ds, patterns)[i][k].slot + 1 == ds[i].entries[ds[i].order[k]] % 2048
    ensures FramesOf(ds, patterns)[i][k].pattern == patterns[FrameStart(ds, i) + k]
  {
    hide FramesOf, FrameStart, UpdateTakes, PrefetchTakes;
    FrameTakes(ds, patterns, i);
  }

  /** Main result: after any later frame of a replay in time, the tile named by a cold
      update's entry holds the pattern assigned to that update, unless a later
      transfer has written the tile. */
  lemma EntryShowsPattern<P(!new)>(ds: seq<Decision>, patterns: seq<P>, frames: Frames<P>, d: Disc<P>, pool: int,
                                   capacity: seq<nat>, i: nat, k: nat, n: nat)
    requires Counted(ds, patterns) && frames == FramesOf(ds, patterns) && TwoRings(capacity)
    requires Carries(d, frames, pool, capacity, Cursors(frames, capacity)) && InTime(d, frames)
    requires i < n <= |ds| && k < |ds[i].order| && InOrder(ds[i])
    requires Undisturbed(frames, i, k, n, ds[i].entries[ds[i].order[k]] % 2048)
    ensures After(d, pool, n).Ok? && FrameStart(ds, i) + k < |patterns|
    ensures var t := ds[i].entries[ds[i].order[k]] % 2048;
            t in After(d, pool, n).value.tile && After(d, pool, n).value.tile[t] == patterns[FrameStart(ds, i) + k]
  {
    hide FramesOf, FrameStart, FrameCarried, BootCarries, PrgStream, WordStream, InTime, TileAfter, After;
    EntryNamesTile(ds, patterns, i, k);
    TileKept(frames, i, k, n, frames[i][k].slot + 1);
    EveryFrameDelivered(d, frames, pool, capacity, Cursors(frames, capacity), n);
  }

  /** So does the tile of a cold prefetch, until a later transfer writes it. */
  lemma PrefetchWaits<P(!new)>(ds: seq<Decision>, patterns: seq<P>, frames: Frames<P>, d: Disc<P>, pool: int,
                               capacity: seq<nat>, i: nat, m: nat, n: nat)
    requires Counted(ds, patterns) && frames == FramesOf(ds, patterns) && TwoRings(capacity)
    requires Carries(d, frames, pool, capacity, Cursors(frames, capacity)) && InTime(d, frames)
    requires i < n <= |ds| && m < |ds[i].prefetch| && ds[i].prefetch[m].cold
    requires Undisturbed(frames, i, |ds[i].order| + ColdCount(ds[i].prefetch[..m]), n, ds[i].prefetch[m].slot + 1)
    ensures After(d, pool, n).Ok?
    ensures var at, t := FrameStart(ds, i) + |ds[i].order| + ColdCount(ds[i].prefetch[..m]), ds[i].prefetch[m].slot + 1;
            at < |patterns| && t in After(d, pool, n).value.tile && After(d, pool, n).value.tile[t] == patterns[at]
  {
    hide FramesOf, FrameStart, FrameCarried, BootCarries, PrgStream, WordStream, InTime, TileAfter, After, UpdateTakes,
         PrefetchTakes, ColdCount;
    FrameTakes(ds, patterns, i);
    var ps, base := ds[i].prefetch, FrameStart(ds, i) + |ds[i].order|;
    var k := |ds[i].order| + ColdCount(ps[..m]);
    assert ps[..|ps|] == ps;
    PrefetchAt(ps, patterns, base, |ps|, m);
    assert frames[i][k] == frames[i][|ds[i].order|..][ColdCount(ps[..m])];
    TileKept(frames, i, k, n, ps[m].slot + 1);
    EveryFrameDelivered(d, frames, pool, capacity, Cursors(frames, capacity), n);
  }

  lemma {:induction false} PrefetchAt<P>(ps: seq<Prefetch>, patterns: seq<P>, at: nat, n: nat, m: nat)
    requires m < n <= |ps| && ps[m].cold && at + ColdCount(ps[..n]) <= |patterns|
    ensures ColdCount(ps[..m]) < ColdCount(ps[..n])
    ensures PrefetchTakes(ps, patterns, at, n)[ColdCount(ps[..m])]
         == Take(ps[m].slot, PRG, patterns[at + ColdCount(ps[..m])])
    decreases n
  {
    hide ColdCount, PrefetchTakes;
    PrefixCounts(ps, n - 1);
    PrefetchNext(ps, patterns, at, n - 1);
    if m < n - 1 { PrefetchAt(ps, patterns, at, n - 1, m); }
  }

  lemma PrefixCounts(ps: seq<Prefetch>, n: nat)
    requires n < |ps|
    ensures ColdCount(ps[..n + 1]) == ColdCount(ps[..n]) + if ps[n].cold then 1 else 0
  {
    assert ps[..n + 1][..n] == ps[..n];
  }
}
