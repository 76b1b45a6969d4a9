/** The player's two Word-RAM rings over a whole movie (tools/pack_stream.py,
    build_control and decode_verify; tools/pattern_supply.py,
    split_word_ring_runs): with one cursor carried per parity, reading the ring at
    the written records hands out each frame's WordBuf patterns. */
module RingReplay {
  import opened Arith
  import opened PatternRuns
  import opened WordRing
  import opened Delivery
  import opened Movie
  import opened Timing

  /** Where a parity's ring stands before frame n: past all its earlier patterns. */
  function RingCursor<P>(frames: Frames<P>, capacity: nat, n: nat, p: nat): (c: nat)
    requires capacity > 0 && n <= |frames|
    ensures c < capacity
  {
    Advance(0, |WordStream(frames, n, p)|, capacity)
  }

  predicate TwoRings(capacity: seq<nat>) { |capacity| == 2 && capacity[0] > 0 && capacity[1] > 0 }

  /** The cursor each frame is split at. */
  function Cursors<P>(frames: Frames<P>, capacity: seq<nat>): (cs: seq<nat>)
    requires TwoRings(capacity)
    ensures |cs| == |frames|
  {
    seq(|frames|, i requires 0 <= i < |frames| => RingCursor(frames, capacity[i % 2], i, i % 2))
  }

  /** The cursor moves on by what frame i draws. */
  lemma CursorMoves<P>(frames: Frames<P>, capacity: nat, i: nat)
    requires capacity > 0 && i < |frames|
    ensures RingCursor(frames, capacity, i + 1, i % 2)
         == Advance(RingCursor(frames, capacity, i, i % 2), |Drawn(frames[i], WR)|, capacity)
    ensures RingCursor(frames, capacity, i + 1, 1 - i % 2) == RingCursor(frames, capacity, i, 1 - i % 2)
  {
    hide WordStream, Advance, Drawn;
    StreamsGrow(frames, i);
    AdvanceTwice(0, |WordStream(frames, i, i % 2)|, |Drawn(frames[i], WR)|, capacity);
  }

  /** Frame i's refill as the disc stages it. */
  function StagedTo<P>(d: Disc<P>, i: nat): seq<P>
    requires d.Valid() && i < |d.words|
  {
    var c := StageThrough(d.stage, i, i % 2);
    Slice(d.Refill(i % 2), c, c + d.stage[i])
  }

  /** A parity's ring never has to hold more than it can. */
  ghost predicate HasRoom<P>(d: Disc<P>, frames: Frames<P>, capacity: nat, p: nat)
    requires d.Valid() && |frames| == |d.words|
  {
    && |d.Boot(p)| <= capacity
    && forall n :: 0 <= n < |frames| && n % 2 == p ==> StaysWithin(d, frames, capacity, n)
  }

  ghost predicate StaysWithin<P>(d: Disc<P>, frames: Frames<P>, capacity: nat, n: nat)
    requires d.Valid() && n < |frames| == |d.words|
  {
    |WordQueue(d, frames, n, n % 2)| + d.stage[n] <= capacity
  }

  /** The words in a parity's ring after the arrivals of n frames. */
  ghost function Store<P>(d: Disc<P>, frames: Frames<P>, blank: seq<P>, n: nat, p: nat): (s: seq<P>)
    requires d.Valid() && n <= |frames| == |d.words| && blank != [] && HasRoom(d, frames, |blank|, p)
    ensures |s| == |blank|
  {
    if n == 0 then Refill(blank, 0, 0, d.Boot(p))
    else if (n - 1) % 2 == p then
      assert StaysWithin(d, frames, |blank|, n - 1);
      Refill(Store(d, frames, blank, n - 1, p), RingCursor(frames, |blank|, n - 1, p), |WordQueue(d, frames, n - 1, p)|,
             StagedTo(d, n - 1))
    else Store(d, frames, blank, n - 1, p)
  }

  /** Frame i's records at the carried cursor. */
  ghost function Records<P>(d: Disc<P>, frames: Frames<P>, capacity: seq<nat>, i: nat): seq<Run>
    requires TwoRings(capacity) && i < |frames| && (i == 0 ==> |d.sidecar| <= |frames[0]|)
  {
    FrameRuns(Carried(frames, |d.sidecar|, i), d.dic, capacity[i % 2], Cursors(frames, capacity)[i])
  }

  ghost predicate Rings<P(!new)>(d: Disc<P>, frames: Frames<P>, pool: int, capacity: seq<nat>) {
    && TwoRings(capacity) && frames != [] && Carries(d, frames, pool, capacity, Cursors(frames, capacity))
    && InTime(d, frames)
    && HasRoom(d, frames, capacity[0], 0) && HasRoom(d, frames, capacity[1], 1)
  }

  /** The queue with frame i's refill behind it. */
  lemma StagedJoins<P>(d: Disc<P>, frames: Frames<P>, i: nat)
    requires d.Valid() && i < |frames| == |d.words| && InTime(d, frames)
    ensures var p := i % 2;
            WordQueue(d, frames, i, p) + StagedTo(d, i)
            == Slice(d.Boot(p) + d.Refill(p), |WordStream(frames, i, p)|, |d.Boot(p)| + StageThrough(d.stage, i + 1, p))
    ensures |StagedTo(d, i)| <= d.stage[i]
  {
    hide WordStream, PrgStream, StageThrough, Slice, PrgDue;
    var p := i % 2;
    var c := StageThrough(d.stage, i, p);
    StagedInFull(d, frames, i);
    assert WordDue(d, frames, i, p);
    SliceOfTail(d.Boot(p), d.Refill(p), c, c + d.stage[i]);
    SliceJoin(d.Boot(p) + d.Refill(p), |WordStream(frames, i, p)|, |d.Boot(p)| + c, |d.Boot(p)| + c + d.stage[i]);
    SliceWhole(d.Refill(p), c, d.stage[i]);
  }

  lemma RecordTotals<P(!new)>(d: Disc<P>, frames: Frames<P>, pool: int, capacity: seq<nat>, i: nat)
    requires Rings(d, frames, pool, capacity) && i < |frames|
    ensures |d.sidecar| <= |frames[0]| && Encodes(d.words[i], Records(d, frames, capacity, i))
    ensures WordTotal(SourceRuns(ItemsOf(Carried(frames, |d.sidecar|, i), d.dic))) == |Drawn(frames[i], WR)|
  {
    hide FrameCarried, BootCarries, PrgStream, WordStream, InTime, HasRoom, FrameRuns, SourceRuns, ItemsOf, Drawn,
         Encodes, Carried;
    RecordsOf(d, frames, pool, capacity, Cursors(frames, capacity), i);
    CarriedDraws(d, frames, pool, capacity, Cursors(frames, capacity), i);
    var takes := Carried(frames, |d.sidecar|, i);
    FrameTotals(takes, d.dic, capacity[i % 2], 0, WR);
    WordTotalIs(SourceRuns(ItemsOf(takes, d.dic)));
  }

  /** One frame: its refill lands behind the queue, its records read the front. */
  lemma FrameAtRing<P(!new)>(d: Disc<P>, frames: Frames<P>, pool: int, capacity: seq<nat>, i: nat, was: seq<P>,
                             now: seq<P>)
    requires Rings(d, frames, pool, capacity) && i < |frames| && |was| == capacity[i % 2]
    requires Holds(was, WordQueue(d, frames, i, i % 2), RingCursor(frames, |was|, i, i % 2))
    requires StaysWithin(d, frames, |was|, i) && |StagedTo(d, i)| <= d.stage[i]
    requires now == Refill(was, RingCursor(frames, |was|, i, i % 2), |WordQueue(d, frames, i, i % 2)|, StagedTo(d, i))
    ensures |d.sidecar| <= |frames[0]|
    ensures var records, cursor := Records(d, frames, capacity, i), RingCursor(frames, |was|, i, i % 2);
            Inside(records, |now|, cursor) && ReadRecords(now, records, cursor) == Drawn(frames[i], WR)
    ensures Holds(now, WordQueue(d, frames, i + 1, i % 2), RingCursor(frames, |was|, i + 1, i % 2))
  {
    hide FrameCarried, BootCarries, PrgStream, WordStream, Slice, StageThrough, HasRoom, InTime, WordQueue, Holds,
         ReadRecords, Inside, Split, SourceRuns, ItemsOf, Drawn, Carried, Refill, StagedTo, Advance, RingCursor;
    var p := i % 2;
    var queue, cursor := WordQueue(d, frames, i, p), RingCursor(frames, |was|, i, p);
    RefillAppends(was, queue, cursor, StagedTo(d, i));
    StagedJoins(d, frames, i);
    WordSupplied(d, frames, pool, capacity, Cursors(frames, capacity), i);
    RecordTotals(d, frames, pool, capacity, i);
    var runs := SourceRuns(ItemsOf(Carried(frames, |d.sidecar|, i), d.dic));
    FrameReadsQueue(now, queue + StagedTo(d, i), runs, cursor);
    CursorMoves(frames, |was|, i);
    assert Cursors(frames, capacity)[i] == cursor;
  }

  lemma {:induction false} StoreHolds<P(!new)>(d: Disc<P>, frames: Frames<P>, pool: int, capacity: seq<nat>,
                                               blank: seq<P>, n: nat, p: nat)
    requires Rings(d, frames, pool, capacity) && n <= |frames| && p < 2 && |blank| == capacity[p]
    ensures Holds(Store(d, frames, blank, n, p), WordQueue(d, frames, n, p), RingCursor(frames, |blank|, n, p))
  {
    hide FrameCarried, BootCarries, PrgStream, WordStream, InTime, WordQueue, Holds, Refill, StagedTo, RingCursor;
    if n == 0 {
      StoreBoots(d, frames, pool, capacity, blank, p);
    } else {
      var i := n - 1;
      StoreHolds(d, frames, pool, capacity, blank, i, p);
      if i % 2 == p {
        assert StaysWithin(d, frames, |blank|, i);
        StagedJoins(d, frames, i);
        FrameAtRing(d, frames, pool, capacity, i, Store(d, frames, blank, i, p), Store(d, frames, blank, n, p));
      } else {
        OtherParity(d, frames, i);
        CursorMoves(frames, |blank|, i);
      }
    }
  }

  lemma StoreBoots<P(!new)>(d: Disc<P>, frames: Frames<P>, pool: int, capacity: seq<nat>, blank: seq<P>, p: nat)
    requires Rings(d, frames, pool, capacity) && p < 2 && |blank| == capacity[p]
    ensures Holds(Store(d, frames, blank, 0, p), WordQueue(d, frames, 0, p), RingCursor(frames, |blank|, 0, p))
  {
    hide InTime, FrameCarried, BootCarries, Refill, PrgStream;
    AdvanceNone(0, |blank|);
    RefillAppends(blank, [], 0, d.Boot(p));
    assert [] + d.Boot(p) == d.Boot(p);
    assert Slice(d.Boot(p) + d.Refill(p), 0, |d.Boot(p)|) == d.Boot(p);
  }

  /** Main result for the rings: load the boot contents, stage every refill behind
      the queue, and read each frame's written records at the carried cursor; the
      ring hands out exactly the frame's WordBuf patterns. */
  lemma RingDelivers<P(!new)>(d: Disc<P>, frames: Frames<P>, pool: int, capacity: seq<nat>, blank: seq<P>, i: nat)
    requires Rings(d, frames, pool, capacity) && i < |frames| && |blank| == capacity[i % 2]
    ensures |d.sidecar| <= |frames[0]| && Encodes(d.words[i], Records(d, frames, capacity, i))
    ensures var store, cursor := Store(d, frames, blank, i + 1, i % 2), RingCursor(frames, |blank|, i, i % 2);
            Inside(Records(d, frames, capacity, i), |store|, cursor)
            && ReadRecords(store, Records(d, frames, capacity, i), cursor) == Drawn(frames[i], WR)
  {
    hide FrameCarried, BootCarries, PrgStream, WordStream, InTime, WordQueue, Holds, Refill, StagedTo, RingCursor,
         Records, Encodes, ReadRecords, Inside;
    StoreHolds(d, frames, pool, capacity, blank, i, i % 2);
    assert StaysWithin(d, frames, |blank|, i);
    StagedJoins(d, frames, i);
    RecordTotals(d, frames, pool, capacity, i);
    FrameAtRing(d, frames, pool, capacity, i, Store(d, frames, blank, i, i % 2), Store(d, frames, blank, i + 1, i % 2));
  }
}
