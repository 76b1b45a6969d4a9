/** When the replay is clean (tools/pack_stream.py, decode_verify): counting what
    each frame pops shows that a clean verdict is possible only if every pattern
    arrives before it is popped and every refill is staged. */
module Timing {
  import opened Arith
  import opened PatternRuns
  import opened WordRing
  import opened Delivery
  import opened Movie

  // What a frame's records pop

  /** Destinations of the runs that draw from one source. */
  function SourceTotal(runs: seq<Run>, source: int): nat {
    if runs == [] then 0
    else SourceTotal(runs[..|runs| - 1], source)
         + if runs[|runs| - 1].source == source then Max(0, runs[|runs| - 1].count) else 0
  }

  function ItemCount(items: seq<Item>, source: int): nat {
    if items == [] then 0
    else ItemCount(items[..|items| - 1], source) + if items[|items| - 1].source == source then 1 else 0
  }

  lemma {:induction false} WordTotalIs(runs: seq<Run>)
    ensures WordTotal(runs) == SourceTotal(runs, WR)
  {
    if runs != [] { WordTotalIs(runs[..|runs| - 1]); }
  }

  lemma {:induction false} ItemCountConcat(a: seq<Item>, b: seq<Item>, source: int)
    ensures ItemCount(a + b, source) == ItemCount(a, source) + ItemCount(b, source)
  {
    if b == [] {
      assert a + b == a;
    } else {
      ItemCountConcat(a, b[..|b| - 1], source);
      assert (a + b)[..|a + b| - 1] == a + b[..|b| - 1];
    }
  }

  lemma {:induction false} ItemCountUniform(items: seq<Item>, source: int, of: int)
    requires forall i :: 0 <= i < |items| ==> items[i].source == of
    ensures ItemCount(items, source) == if of == source then |items| else 0
  {
    if items != [] { ItemCountUniform(items[..|items| - 1], source, of); }
  }

  lemma {:induction false} TotalIsCount(runs: seq<Run>, source: int)
    ensures SourceTotal(runs, source) == ItemCount(ExpandAll(runs), source)
  {
    hide Expand;
    if runs != [] {
      var init, last := runs[..|runs| - 1], runs[|runs| - 1];
      TotalIsCount(init, source);
      ItemCountConcat(ExpandAll(init), Expand(last), source);
      RunCount(last, source);
    }
  }

  lemma RunCount(r: Run, source: int)
    ensures ItemCount(Expand(r), source) == if r.source == source then Max(0, r.count) else 0
  {
    ItemCountUniform(Expand(r), source, r.source);
  }

  lemma {:induction false} DrawnCount<P>(takes: seq<Take<P>>, dic: seq<P>, source: int)
    ensures ItemCount(Normal(ItemsOf(takes, dic)), source) == |Drawn(takes, source)|
  {
    hide IndexIn;
    if takes != [] {
      var init := takes[..|takes| - 1];
      DrawnCount(init, dic, source);
      assert Normal(ItemsOf(takes, dic))[..|takes| - 1] == Normal(ItemsOf(init, dic));
    }
  }

  /** A frame's records draw from each source exactly what its takes do, before and
      after the split. */
  lemma FrameTotals<P>(takes: seq<Take<P>>, dic: seq<P>, capacity: nat, cursor: nat, source: int)
    requires cursor < capacity
    ensures SourceTotal(FrameRuns(takes, dic, capacity, cursor), source) == |Drawn(takes, source)|
    ensures SourceTotal(SourceRuns(ItemsOf(takes, dic)), source) == |Drawn(takes, source)|
  {
    hide Split, SourceRuns, ItemsOf, Normal, ExpandAll, SourceTotal, ItemCount, Drawn;
    var runs := SourceRuns(ItemsOf(takes, dic));
    RunsExpand(ItemsOf(takes, dic));
    SplitExpands(runs, capacity, cursor);
    TotalIsCount(runs, source);
    TotalIsCount(Split(runs, capacity, cursor), source);
    DrawnCount(takes, dic, source);
  }

  /** One destination pops one pattern or counts as bad. */
  lemma PlayOneCounts<P>(pl: Player<P>, run: Run, off: nat, dic: seq<P>, pool: int)
    requires PlayOne(pl, run, off, dic, pool).Ok?
    ensures var q := PlayOne(pl, run, off, dic, pool).value;
            && q.bad >= pl.bad
            && (q.bad == pl.bad ==> |q.prg| == |pl.prg| - (if run.source == PRG then 1 else 0)
                                    && |q.word| == |pl.word| - (if run.source == WR then 1 else 0))
  {
  }

  lemma {:induction false} PlayRunCounts<P>(pl: Player<P>, run: Run, n: nat, dic: seq<P>, pool: int)
    requires PlayRun(pl, run, n, dic, pool).Ok?
    ensures var q := PlayRun(pl, run, n, dic, pool).value;
            && q.bad >= pl.bad
            && (q.bad == pl.bad ==> |q.prg| == |pl.prg| - (if run.source == PRG then n else 0)
                                    && |q.word| == |pl.word| - (if run.source == WR then n else 0))
  {
    hide PlayOne;
    if n > 0 {
      PlayRunCounts(pl, run, n - 1, dic, pool);
      PlayOneCounts(PlayRun(pl, run, n - 1, dic, pool).value, run, n - 1, dic, pool);
    }
  }

  lemma {:induction false} PlayWordsCounts<P>(pl: Player<P>, words: seq<(int, int)>, runs: seq<Run>, dic: seq<P>,
                                              pool: int)
    requires Encodes(words, runs) && PlayWords(pl, words, dic, pool).Ok?
    ensures var q := PlayWords(pl, words, dic, pool).value;
            && q.bad >= pl.bad
            && (q.bad == pl.bad ==> |q.prg| == |pl.prg| - SourceTotal(runs, PRG)
                                    && |q.word| == |pl.word| - SourceTotal(runs, WR))
  {
    hide PlayRun, DecodeDescriptor, EncodeDescriptor;
    if runs != [] {
      var n := |runs| - 1;
      PlayWordsCounts(pl, words[..n], runs[..n], dic, pool);
      EncodedRun(runs[n], words[n]);
      PlayRunCounts(PlayWords(pl, words[..n], dic, pool).value, runs[n], runs[n].count, dic, pool);
    }
  }

  // The queues by their lengths

  /** Patterns a clean replay has left after n frames. */
  ghost predicate Tallied<P>(d: Disc<P>, frames: Frames<P>, n: nat, st: Replay<P>)
    requires d.Valid() && n <= |frames| == |d.words|
  {
    && st.pc == d.f0 + d.prebuffer + AddThrough(d.add, n)
    && |st.ring| == Min(st.pc, |d.prg|) - Popped(d, frames, n)
    && |st.word0| == |d.boot0| + StageThrough(d.stage, n, 0) - |WordStream(frames, n, 0)|
    && |st.word1| == |d.boot1| + StageThrough(d.stage, n, 1) - |WordStream(frames, n, 1)|
    && st.cursor0 == StageThrough(d.stage, n, 0) && st.cursor1 == StageThrough(d.stage, n, 1)
  }

  lemma StartCounted<P(!new)>(d: Disc<P>, frames: Frames<P>, pool: int, capacity: seq<nat>, cursors: seq<nat>)
    requires Carries(d, frames, pool, capacity, cursors) && frames != [] && Start(d, pool).Ok?
    ensures Tallied(d, frames, 0, Start(d, pool).value)
  {
    hide FrameCarried, WriteAll;
    PrgBegins(d, frames, pool, capacity, cursors);
  }

  /** What frame i's takes are, as far as its descriptors carry them. */
  lemma CarriedDraws<P(!new)>(d: Disc<P>, frames: Frames<P>, pool: int, capacity: seq<nat>, cursors: seq<nat>, i: nat)
    requires Carries(d, frames, pool, capacity, cursors) && i < |frames|
    ensures |d.sidecar| <= |frames[0]|
    ensures |Drawn(Carried(frames, |d.sidecar|, i), WR)| == |Drawn(frames[i], WR)|
    ensures i == 0 ==> |Drawn(frames[0], PRG)| == d.f0 && |Drawn(frames[0], WR)| == 0
  {
    hide FrameCarried, PrgStream, WordStream;
    if i == 0 {
      AllDrawn(frames[0], PRG);
      AllDrawn(Carried(frames, |d.sidecar|, 0), PRG);
    }
  }

  /** Arrivals by length. */
  lemma ArriveCounted<P>(d: Disc<P>, frames: Frames<P>, i: nat, st: Replay<P>)
    requires d.Valid() && i < |frames| == |d.words| && Tallied(d, frames, i, st) && Arrive(d, st, i).Ok?
    ensures var fed := Arrive(d, st, i).value;
            && fed.pc == d.f0 + d.prebuffer + AddThrough(d.add, i + 1)
            && |fed.ring| == Min(fed.pc, |d.prg|) - Popped(d, frames, i)
            && |fed.word0| == |d.boot0| + StageThrough(d.stage, i + 1, 0) - |WordStream(frames, i, 0)|
            && |fed.word1| == |d.boot1| + StageThrough(d.stage, i + 1, 1) - |WordStream(frames, i, 1)|
            && fed.cursor0 == StageThrough(d.stage, i + 1, 0) && fed.cursor1 == StageThrough(d.stage, i + 1, 1)
            && fed.bad == st.bad
  {
    hide Popped, WordStream;
    var fed := FeedWord(d, st, i).value;
    SliceLength(d.prg, st.pc, st.pc + d.add[i]);
    assert StageThrough(d.stage, i + 1, 0) == StageThrough(d.stage, i, 0) + if i % 2 == 0 then d.stage[i] else 0;
    assert StageThrough(d.stage, i + 1, 1) == StageThrough(d.stage, i, 1) + if i % 2 == 1 then d.stage[i] else 0;
    hide Slice, StageThrough;
  }

  lemma SliceLength<P>(s: seq<P>, a: nat, b: nat)
    requires a <= b
    ensures |Slice(s, a, b)| == Min(b, |s|) - Min(a, |s|)
  {
  }

  lemma StreamsGrow<P>(frames: Frames<P>, i: nat)
    requires i < |frames|
    ensures |PrgStream(frames, i + 1)| == |PrgStream(frames, i)| + |Drawn(frames[i], PRG)|
    ensures |WordStream(frames, i + 1, i % 2)| == |WordStream(frames, i, i % 2)| + |Drawn(frames[i], WR)|
    ensures |WordStream(frames, i + 1, 1 - i % 2)| == |WordStream(frames, i, 1 - i % 2)|
  {
    hide Drawn;
  }

  /** Frame i's records, as the disc carries them. */
  lemma RecordsOf<P(!new)>(d: Disc<P>, frames: Frames<P>, pool: int, capacity: seq<nat>, cursors: seq<nat>, i: nat)
    requires Carries(d, frames, pool, capacity, cursors) && i < |frames|
    ensures |d.sidecar| <= |frames[0]| && cursors[i] < capacity[i % 2]
    ensures Encodes(d.words[i], FrameRuns(Carried(frames, |d.sidecar|, i), d.dic, capacity[i % 2], cursors[i]))
  {
    hide PrgStream, WordStream, FrameRuns, Encodes, Servable;
    assert FrameCarried(d, frames, pool, capacity, cursors, i);
  }

  /** A frame that counts nothing bad pops exactly its share. */
  lemma StepCounted<P(!new)>(d: Disc<P>, frames: Frames<P>, pool: int, capacity: seq<nat>, cursors: seq<nat>, i: nat,
                             st: Replay<P>)
    requires Carries(d, frames, pool, capacity, cursors) && i < |frames| && Tallied(d, frames, i, st)
    requires Step(d, st, i, pool).Ok?
    ensures Step(d, st, i, pool).value.bad >= st.bad
    ensures Step(d, st, i, pool).value.bad == st.bad ==> Tallied(d, frames, i + 1, Step(d, st, i, pool).value)
  {
    hide FrameCarried, BootCarries, FrameRuns, Encodes, PlayWords, PrgStream, WordStream, StageThrough, AddThrough,
         Drawn, Carried, SourceTotal, Arrive, Tallied, Resume, Stand;
    ArriveCounted(d, frames, i, st);
    RecordsOf(d, frames, pool, capacity, cursors, i);
    var fed, takes := Arrive(d, st, i).value, Carried(frames, |d.sidecar|, i);
    FrameTotals(takes, d.dic, capacity[i % 2], cursors[i], PRG);
    FrameTotals(takes, d.dic, capacity[i % 2], cursors[i], WR);
    PlayWordsCounts(Stand(fed, i), d.words[i], FrameRuns(takes, d.dic, capacity[i % 2], cursors[i]), d.dic, pool);
    StandIs(fed, i);
    var q := PlayWords(Stand(fed, i), d.words[i], d.dic, pool).value;
    assert Step(d, st, i, pool).value == Resume(fed, i, q);
    if q.bad == fed.bad {
      CarriedDraws(d, frames, pool, capacity, cursors, i);
      PrgBegins(d, frames, pool, capacity, cursors);
      if i > 0 { WholeCarried(frames, |d.sidecar|, i); }
      ResumeCounted(d, frames, i, fed, q);
    }
  }

  lemma StandIs<P>(st: Replay<P>, i: nat)
    ensures Stand(st, i).bad == st.bad && Stand(st, i).word == st.Word(i % 2) && (i > 0 ==> Stand(st, i).prg == st.ring)
    ensures forall q :: Resume(st, i, q).bad == q.bad
  {
  }

  /** The frame's pops, taken off the arrived lengths. */
  lemma ResumeCounted<P>(d: Disc<P>, frames: Frames<P>, i: nat, fed: Replay<P>, q: Player<P>)
    requires d.Valid() && i < |frames| == |d.words|
    requires fed.pc == d.f0 + d.prebuffer + AddThrough(d.add, i + 1)
    requires |fed.ring| == Min(fed.pc, |d.prg|) - Popped(d, frames, i)
    requires |fed.word0| == |d.boot0| + StageThrough(d.stage, i + 1, 0) - |WordStream(frames, i, 0)|
    requires |fed.word1| == |d.boot1| + StageThrough(d.stage, i + 1, 1) - |WordStream(frames, i, 1)|
    requires fed.cursor0 == StageThrough(d.stage, i + 1, 0) && fed.cursor1 == StageThrough(d.stage, i + 1, 1)
    requires |q.word| == |fed.Word(i % 2)| - |Drawn(frames[i], WR)|
    requires if i == 0 then |PrgStream(frames, 1)| == d.f0 else |q.prg| == |fed.ring| - |Drawn(frames[i], PRG)|
    ensures Tallied(d, frames, i + 1, Resume(fed, i, q))
  {
    StreamsGrow(frames, i);
    hide PrgStream, WordStream, StageThrough, AddThrough, Drawn;
  }

  lemma WholeCarried<P>(frames: Frames<P>, sidecar: nat, i: nat)
    requires 0 < i < |frames|
    ensures Carried(frames, sidecar, i) == frames[i]
  {
  }

  /** Nothing counted as bad is ever taken back. */
  lemma StepBad<P(!new)>(d: Disc<P>, frames: Frames<P>, pool: int, capacity: seq<nat>, cursors: seq<nat>, i: nat,
                         st: Replay<P>)
    requires Carries(d, frames, pool, capacity, cursors) && i < |frames| && Step(d, st, i, pool).Ok?
    ensures Step(d, st, i, pool).value.bad >= st.bad
  {
    hide FrameRuns, Encodes, PlayWords, Carried, SourceTotal, FeedRing, Slice;
    RecordsOf(d, frames, pool, capacity, cursors, i);
    hide Carries;
    var fed := Arrive(d, st, i).value;
    FeedRingKeeps(d, FeedWord(d, st, i).value, i);
    PlayWordsCounts(Stand(fed, i), d.words[i],
                    FrameRuns(Carried(frames, |d.sidecar|, i), d.dic, capacity[i % 2], cursors[i]), d.dic, pool);
  }

  lemma CountedIsDue<P>(d: Disc<P>, frames: Frames<P>, n: nat, st: Replay<P>)
    requires d.Valid() && n <= |frames| == |d.words| && Tallied(d, frames, n, st)
    ensures n >= 1 ==> PrgDue(d, frames, n)
    ensures forall p :: 0 <= p < 2 ==> WordDue(d, frames, n, p)
  {
    hide PrgStream, WordStream, StageThrough, AddThrough;
  }

  /** A replay that has counted nothing bad has found every pattern in time. */
  lemma {:induction false} CleanCounted<P(!new)>(d: Disc<P>, frames: Frames<P>, pool: int, capacity: seq<nat>,
                                                 cursors: seq<nat>, n: nat)
    requires Carries(d, frames, pool, capacity, cursors) && frames != [] && n <= |frames|
    requires After(d, pool, n).Ok? && After(d, pool, n).value.bad == 0
    ensures Tallied(d, frames, n, After(d, pool, n).value)
    ensures forall m :: 1 <= m <= n ==> PrgDue(d, frames, m)
    ensures forall m, p :: 0 <= m <= n && 0 <= p < 2 ==> WordDue(d, frames, m, p)
  {
    hide FrameCarried, BootCarries, PrgStream, WordStream, Tallied, Step, Start, PrgDue, WordDue;
    if n == 0 {
      StartCounted(d, frames, pool, capacity, cursors);
    } else {
      var st := After(d, pool, n - 1).value;
      StepBad(d, frames, pool, capacity, cursors, n - 1, st);
      CleanCounted(d, frames, pool, capacity, cursors, n - 1);
      StepCounted(d, frames, pool, capacity, cursors, n - 1, st);
    }
    CountedIsDue(d, frames, n, After(d, pool, n).value);
  }

  /** The verdict of a disc that carries the movie is clean if and only if every
      pattern arrives before it is popped and every refill is staged. */
  lemma CleanIffInTime<P(!new)>(d: Disc<P>, frames: Frames<P>, pool: int, capacity: seq<nat>, cursors: seq<nat>)
    requires Carries(d, frames, pool, capacity, cursors) && frames != []
    ensures InTime(d, frames) <==>
              && After(d, pool, |frames|).Ok? && Close(d, After(d, pool, |frames|).value).Ok?
              && Close(d, After(d, pool, |frames|).value).value.bad == 0
  {
    hide FrameCarried, BootCarries, PrgStream, WordStream, Step, Start, PrgDue, WordDue, StageThrough, TileAfter, After;
    if InTime(d, frames) { MovieDelivered(d, frames, pool, capacity, cursors); }
    if After(d, pool, |frames|).Ok? && Close(d, After(d, pool, |frames|).value).Ok?
       && Close(d, After(d, pool, |frames|).value).value.bad == 0 {
      CleanCounted(d, frames, pool, capacity, cursors, |frames|);
    }
  }
}
