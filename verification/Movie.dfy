/**
  The whole replay (tools/pack_stream.py, decode_verify): queues that are
  refilled frame by frame while descriptors pop from them, for a movie whose
  streams were laid out in chronological order.
*/
module Movie {
  import opened Arith
  import opened PatternRuns
  import opened Delivery

  /** Everything the player reads: the Prg stream, each parity's boot contents
      and refill stream, the dictionary, each frame's run descriptors, the slots
      written from the boot sidecar, and the arrival schedule in patterns. */
  datatype Disc<P> = Disc(
    prg: seq<P>, boot0: seq<P>, boot1: seq<P>, refill0: seq<P>, refill1: seq<P>, dic: seq<P>,
    words: seq<seq<(int, int)>>, sidecar: seq<int>, f0: nat, prebuffer: nat, add: seq<nat>, stage: seq<nat>)
  {
    predicate Valid() { |words| == |add| == |stage| }

    function Boot(p: nat): seq<P> { if p == 0 then boot0 else boot1 }

    function Refill(p: nat): seq<P> { if p == 0 then refill0 else refill1 }
  }

  datatype Replay<P> = Replay(
    f0: seq<P>, ring: seq<P>, pc: nat, word0: seq<P>, word1: seq<P>, cursor0: nat, cursor1: nat,
    tile: map<int, P>, bad: nat)
  {
    function Word(p: nat): seq<P> { if p == 0 then word0 else word1 }

    function Cursor(p: nat): nat { if p == 0 then cursor0 else cursor1 }
  }

  function WriteAll<P>(tile: map<int, P>, slots: seq<int>, patterns: seq<P>): map<int, P>
    requires |slots| == |patterns|
  {
    if slots == [] then tile
    else
      var n := |slots| - 1;
      WriteAll(tile, slots[..n], patterns[..n])[slots[n] + BASE := patterns[n]]
  }

  /** The boot state: frame 0 pops from its own queue, and sidecar patterns are
      already in their slots. */
  function Start<P>(d: Disc<P>, pool: int): Result<Replay<P>> {
    if d.f0 < |d.sidecar| then Err("boot sidecar exceeds frame-0 pattern payload")
    else
      var inline := d.f0 - |d.sidecar|;
      var patterns := Slice(d.prg, inline, d.f0);
      if |patterns| != |d.sidecar| then Err("boot sidecar pattern stream is truncated")
      else if exists i :: 0 <= i < |d.sidecar| && !(0 <= d.sidecar[i] < pool) then Err("sidecar slot outside the pool")
      else Ok(Replay(Slice(d.prg, 0, inline), Slice(d.prg, d.f0, d.f0 + d.prebuffer), d.f0 + d.prebuffer,
                     d.boot0, d.boot1, 0, 0, WriteAll(map[], d.sidecar, patterns), 0))
  }

  /** Staged WordBuf patterns join the queue of frame i's parity. */
  function FeedWord<P>(d: Disc<P>, st: Replay<P>, i: nat): Result<Replay<P>>
    requires d.Valid() && i < |d.words|
  {
    var p := i % 2;
    var staged := Slice(d.Refill(p), st.Cursor(p), st.Cursor(p) + d.stage[i]);
    if |staged| != d.stage[i] then Err("WordBuf refill stream is truncated")
    else if p == 0 then Ok(st.(word0 := st.word0 + staged, cursor0 := st.cursor0 + d.stage[i]))
    else Ok(st.(word1 := st.word1 + staged, cursor1 := st.cursor1 + d.stage[i]))
  }

  function FeedRing<P>(d: Disc<P>, st: Replay<P>, i: nat): Replay<P>
    requires d.Valid() && i < |d.words|
  {
    st.(ring := st.ring + Slice(d.prg, st.pc, st.pc + d.add[i]), pc := st.pc + d.add[i])
  }

  /** Arrivals before frame i pops: staged patterns first, then Prg payload. */
  function Arrive<P>(d: Disc<P>, st: Replay<P>, i: nat): Result<Replay<P>>
    requires d.Valid() && i < |d.words|
  {
    var fed := FeedWord(d, st, i);
    if fed.Err? then fed else Ok(FeedRing(d, fed.value, i))
  }

  function Stand<P>(st: Replay<P>, i: nat): Player<P> {
    Player(if i == 0 then st.f0 else st.ring, st.Word(i % 2), st.tile, st.bad)
  }

  function Resume<P>(st: Replay<P>, i: nat, pl: Player<P>): Replay<P> {
    var a := if i == 0 then st.(f0 := pl.prg) else st.(ring := pl.prg);
    var b := if i % 2 == 0 then a.(word0 := pl.word) else a.(word1 := pl.word);
    b.(tile := pl.tile, bad := pl.bad)
  }

  function Step<P>(d: Disc<P>, st: Replay<P>, i: nat, pool: int): Result<Replay<P>>
    requires d.Valid() && i < |d.words|
  {
    var fed := Arrive(d, st, i);
    if fed.Err? then fed
    else
      var played := PlayWords(Stand(fed.value, i), d.words[i], d.dic, pool);
      if played.Err? then Err(played.message) else Ok(Resume(fed.value, i, played.value))
  }

  /** The state after n frames. */
  function After<P>(d: Disc<P>, pool: int, n: nat): Result<Replay<P>>
    requires d.Valid() && n <= |d.words|
  {
    if n == 0 then Start(d, pool)
    else
      var before := After(d, pool, n - 1);
      if before.Err? then before else Step(d, before.value, n - 1, pool)
  }

  datatype Verdict<P> = Verdict(tile: map<int, P>, prgLeft: seq<P>, bad: nat)

  /** After the last frame every refill must have been staged, and whatever is
      left in the WordBuf queues counts as bad. */
  function Close<P>(d: Disc<P>, st: Replay<P>): Result<Verdict<P>> {
    if st.cursor0 != |d.refill0| || st.cursor1 != |d.refill1| then Err("refill stream was not fully staged")
    else Ok(Verdict(st.tile, st.ring, st.bad + |st.word0| + |st.word1|))
  }

  /** The verdict needs both refills fully staged, and every WordBuf pattern left over
      counts. */
  lemma CloseIs<P>(d: Disc<P>, st: Replay<P>)
    ensures Close(d, st).Ok? <==> st.cursor0 == |d.refill0| && st.cursor1 == |d.refill1|
    ensures Close(d, st).Ok? ==> Close(d, st).value == Verdict(st.tile, st.ring, st.bad + |st.word0| + |st.word1|)
  {
  }

  /** A replay starts unless the sidecar asks for more patterns than frame 0 has, or
      than the disc has, or for a slot outside the pool. */
  lemma StartIs<P>(d: Disc<P>, pool: int)
    ensures Start(d, pool).Ok? <==>
              && |d.sidecar| <= d.f0 && (|d.sidecar| > 0 ==> d.f0 <= |d.prg|)
              && forall i :: 0 <= i < |d.sidecar| ==> 0 <= d.sidecar[i] < pool
  {
    hide WriteAll;
  }

  /** decode_verify's frame loop. */
  method DecodeVerify<P>(d: Disc<P>, pool: int) returns (r: Result<Verdict<P>>)
    requires d.Valid()
    ensures After(d, pool, |d.words|).Err? ==> r.Err?
    ensures After(d, pool, |d.words|).Ok? ==> r == Close(d, After(d, pool, |d.words|).value)
  {
    hide PlayWords, Start, Arrive, Close;
    var start := Start(d, pool);
    if start.Err? {
      AfterError(d, pool, 0, |d.words|);
      return Err(start.message);
    }
    var st := start.value;
    for i := 0 to |d.words|
      invariant After(d, pool, i) == Ok(st)
    {
      var fed := Arrive(d, st, i);
      if fed.Err? {
        AfterError(d, pool, i + 1, |d.words|);
        return Err(fed.message);
      }
      var played := ReplayRuns(Stand(fed.value, i), d.words[i], d.dic, pool);
      if played.Err? {
        AfterError(d, pool, i + 1, |d.words|);
        return Err(played.message);
      }
      st := Resume(fed.value, i, played.value);
    }
    r := Close(d, st);
  }

  lemma {:induction false} AfterError<P>(d: Disc<P>, pool: int, n: nat, m: nat)
    requires d.Valid() && n <= m <= |d.words| && After(d, pool, n).Err?
    ensures After(d, pool, m).Err?
  {
    hide Start, Step;
    if n < m { AfterError(d, pool, n, m - 1); }
  }

  // The movie as the resolver decided it

  type Frames<P> = seq<seq<Take<P>>>

  /** All Prg patterns of the first n frames, in order. */
  function PrgStream<P>(frames: Frames<P>, n: nat): seq<P>
    requires n <= |frames|
  {
    if n == 0 then [] else PrgStream(frames, n - 1) + Drawn(frames[n - 1], PRG)
  }

  /** All WordBuf patterns of one parity among the first n frames. */
  function WordStream<P>(frames: Frames<P>, n: nat, p: nat): seq<P>
    requires n <= |frames|
  {
    if n == 0 then []
    else WordStream(frames, n - 1, p) + if (n - 1) % 2 == p then Drawn(frames[n - 1], WR) else []
  }

  /** Video RAM after n frames. */
  function TileAfter<P>(frames: Frames<P>, n: nat): map<int, P>
    requires n <= |frames|
  {
    if n == 0 then map[] else Apply(TileAfter(frames, n - 1), frames[n - 1])
  }

  function AddThrough(add: seq<nat>, n: nat): nat
    requires n <= |add|
  {
    if n == 0 then 0 else AddThrough(add, n - 1) + add[n - 1]
  }

  function StageThrough(stage: seq<nat>, n: nat, p: nat): nat
    requires n <= |stage|
  {
    if n == 0 then 0 else StageThrough(stage, n - 1, p) + if (n - 1) % 2 == p then stage[n - 1] else 0
  }

  /** The takes a frame's descriptors carry: the sidecar part of frame 0 travels
      on its own. */
  function Carried<P>(frames: Frames<P>, sidecar: nat, i: nat): seq<Take<P>>
    requires i < |frames| && (i == 0 ==> sidecar <= |frames[0]|)
  {
    if i == 0 then frames[0][..|frames[0]| - sidecar] else frames[i]
  }

  /** The disc carries the movie: streams in chronological order, and descriptors
      that encode each frame's grouped and split runs. */
  ghost predicate Carries<P(!new)>(d: Disc<P>, frames: Frames<P>, pool: int, capacity: seq<nat>, cursors: seq<nat>) {
    && d.Valid() && |d.words| == |frames| == |cursors| && |capacity| == 2
    && d.prg == PrgStream(frames, |frames|)
    && d.boot0 + d.refill0 == WordStream(frames, |frames|, 0)
    && d.boot1 + d.refill1 == WordStream(frames, |frames|, 1)
    && BootCarries(d, frames)
    && (forall i :: 0 <= i < |frames| ==> FrameCarried(d, frames, pool, capacity, cursors, i))
  }

  ghost predicate BootCarries<P>(d: Disc<P>, frames: Frames<P>) {
    && d.f0 == (if frames == [] then 0 else |frames[0]|)
    && |d.sidecar| <= d.f0
    && (frames != [] ==> forall i :: 0 <= i < |frames[0]| ==> frames[0][i].source == PRG)
    && (forall i :: 0 <= i < |d.sidecar| ==> d.sidecar[i] == frames[0][d.f0 - |d.sidecar| + i].slot)
    && (forall i, j :: 0 <= i < d.f0 - |d.sidecar| <= j < d.f0 ==> frames[0][i].slot != frames[0][j].slot)
  }

  ghost predicate FrameCarried<P>(d: Disc<P>, frames: Frames<P>, pool: int, capacity: seq<nat>, cursors: seq<nat>,
                                  i: nat)
    requires d.Valid() && |d.words| == |frames| == |cursors| && |capacity| == 2 && i < |frames|
    requires BootCarries(d, frames)
  {
    && cursors[i] < capacity[i % 2]
    && Servable(frames[i], d.dic, pool)
    && Encodes(d.words[i], FrameRuns(Carried(frames, |d.sidecar|, i), d.dic, capacity[i % 2], cursors[i]))
  }

  /** Prg patterns of the first n frames have arrived with frame n - 1's payload. */
  ghost predicate PrgDue<P>(d: Disc<P>, frames: Frames<P>, n: nat)
    requires d.Valid() && |d.words| == |frames| && n <= |frames|
  {
    |PrgStream(frames, n)| <= d.f0 + d.prebuffer + AddThrough(d.add, n)
  }

  ghost predicate WordDue<P>(d: Disc<P>, frames: Frames<P>, n: nat, p: nat)
    requires d.Valid() && |d.words| == |frames| && n <= |frames|
  {
    |WordStream(frames, n, p)| <= |d.Boot(p)| + StageThrough(d.stage, n, p)
  }

  /** Every frame's patterns have arrived when it pops them. */
  ghost predicate OnTime<P>(d: Disc<P>, frames: Frames<P>)
    requires d.Valid() && |d.words| == |frames|
  {
    && (forall n :: 1 <= n <= |frames| ==> PrgDue(d, frames, n))
    && (forall n, p :: 0 <= n <= |frames| && 0 <= p < 2 ==> WordDue(d, frames, n, p))
  }

  /** ... and all refills are staged by the end. */
  ghost predicate InTime<P>(d: Disc<P>, frames: Frames<P>)
    requires d.Valid() && |d.words| == |frames|
  {
    && OnTime(d, frames)
    && StageThrough(d.stage, |frames|, 0) == |d.refill0| && StageThrough(d.stage, |frames|, 1) == |d.refill1|
  }

  // Streams

  lemma {:induction false} PrgStreamPrefix<P>(frames: Frames<P>, n: nat, m: nat)
    requires n <= m <= |frames|
    ensures PrgStream(frames, n) <= PrgStream(frames, m)
  {
    if n < m { PrgStreamPrefix(frames, n, m - 1); }
  }

  lemma {:induction false} WordStreamPrefix<P>(frames: Frames<P>, n: nat, m: nat, p: nat)
    requires n <= m <= |frames|
    ensures WordStream(frames, n, p) <= WordStream(frames, m, p)
  {
    if n < m { WordStreamPrefix(frames, n, m - 1, p); }
  }

  lemma {:induction false} StageMono(stage: seq<nat>, n: nat, m: nat, p: nat)
    requires n <= m <= |stage|
    ensures StageThrough(stage, n, p) <= StageThrough(stage, m, p)
  {
    if n < m { StageMono(stage, n, m - 1, p); }
  }

  lemma {:induction false} AllDrawn<P>(takes: seq<Take<P>>, source: int)
    requires forall i :: 0 <= i < |takes| ==> takes[i].source == source
    ensures |Drawn(takes, source)| == |takes|
    ensures forall i :: 0 <= i < |takes| ==> Drawn(takes, source)[i] == takes[i].pattern
    ensures forall other: int :: other != source ==> Drawn(takes, other) == []
  {
    if takes != [] { AllDrawn(takes[..|takes| - 1], source); }
  }

  // The state in closed form

  /** Prg patterns popped through frame n - 1; the ring starts after frame 0's. */
  function Popped<P>(d: Disc<P>, frames: Frames<P>, n: nat): nat
    requires n <= |frames|
  {
    if n == 0 then d.f0 else |PrgStream(frames, n)|
  }

  function WordQueue<P>(d: Disc<P>, frames: Frames<P>, n: nat, p: nat): seq<P>
    requires d.Valid() && n <= |frames| == |d.words|
  {
    Slice(d.Boot(p) + d.Refill(p), |WordStream(frames, n, p)|, |d.Boot(p)| + StageThrough(d.stage, n, p))
  }

  /** The replay state after n >= 1 frames. */
  ghost predicate Synced<P>(d: Disc<P>, frames: Frames<P>, n: nat, st: Replay<P>)
    requires d.Valid() && 1 <= n <= |frames| == |d.words|
  {
    && st.pc == d.f0 + d.prebuffer + AddThrough(d.add, n)
    && st.ring == Slice(d.prg, Popped(d, frames, n), st.pc)
    && st.word0 == WordQueue(d, frames, n, 0) && st.word1 == WordQueue(d, frames, n, 1)
    && st.cursor0 == StageThrough(d.stage, n, 0) && st.cursor1 == StageThrough(d.stage, n, 1)
    && st.tile == TileAfter(frames, n)
    && st.bad == 0 && st.f0 == []
  }

  // Slices

  lemma SliceJoin<P>(s: seq<P>, a: nat, b: nat, c: nat)
    requires a <= b <= c
    ensures Slice(s, a, b) + Slice(s, b, c) == Slice(s, a, c)
  {
  }

  lemma SliceOfTail<P>(front: seq<P>, back: seq<P>, a: nat, b: nat)
    requires a <= b
    ensures Slice(front + back, |front| + a, |front| + b) == Slice(back, a, b)
  {
  }

  /** When `more` follows `prefix` in s and has arrived, it is the front of the queue. */
  lemma SliceFront<P>(s: seq<P>, prefix: seq<P>, more: seq<P>, b: nat)
    requires prefix + more <= s && |prefix| + |more| <= b
    ensures more <= Slice(s, |prefix|, b)
    ensures Slice(s, |prefix|, b)[|more|..] == Slice(s, |prefix| + |more|, b)
  {
    assert (prefix + more)[|prefix|..] == more;
  }

  // One step

  lemma StagedInFull<P>(d: Disc<P>, frames: Frames<P>, i: nat)
    requires d.Valid() && |d.words| == |frames| && InTime(d, frames) && i < |frames|
    ensures StageThrough(d.stage, i + 1, i % 2) == StageThrough(d.stage, i, i % 2) + d.stage[i] <= |d.Refill(i % 2)|
  {
    hide WordStream, PrgStream, PrgDue, WordDue;
    StageMono(d.stage, i + 1, |frames|, i % 2);
  }

  /** Staging extends the parity's queue by what is due. */
  lemma FeedWordSynced<P>(d: Disc<P>, frames: Frames<P>, i: nat, st: Replay<P>)
    requires d.Valid() && |d.words| == |frames| && InTime(d, frames) && i < |frames|
    requires st.Word(i % 2) == WordQueue(d, frames, i, i % 2) && st.Cursor(i % 2) == StageThrough(d.stage, i, i % 2)
    ensures FeedWord(d, st, i).Ok?
    ensures var fed, p := FeedWord(d, st, i).value, i % 2;
            && fed.Word(p) == Slice(d.Boot(p) + d.Refill(p), |WordStream(frames, i, p)|,
                                    |d.Boot(p)| + StageThrough(d.stage, i + 1, p))
            && fed.Cursor(p) == StageThrough(d.stage, i + 1, p)
            && fed.Word(1 - p) == st.Word(1 - p) && fed.Cursor(1 - p) == st.Cursor(1 - p)
            && fed.tile == st.tile && fed.bad == st.bad && fed.f0 == st.f0 && fed.ring == st.ring && fed.pc == st.pc
  {
    hide WordStream, PrgStream, StageThrough, Slice, PrgDue;
    var p := i % 2;
    var c := StageThrough(d.stage, i, p);
    StagedInFull(d, frames, i);
    assert WordDue(d, frames, i, p);
    SliceOfTail(d.Boot(p), d.Refill(p), c, c + d.stage[i]);
    SliceJoin(d.Boot(p) + d.Refill(p), |WordStream(frames, i, p)|, |d.Boot(p)| + c, |d.Boot(p)| + c + d.stage[i]);
    SliceWhole(d.Refill(p), c, d.stage[i]);
  }

  lemma SliceWhole<P>(s: seq<P>, a: nat, n: nat)
    requires a + n <= |s|
    ensures |Slice(s, a, a + n)| == n
  {
  }

  /** Payload extends the ring by what is due. */
  lemma FeedRingSynced<P>(d: Disc<P>, frames: Frames<P>, i: nat, st: Replay<P>)
    requires d.Valid() && |d.words| == |frames| && i < |frames|
    requires st.pc == d.f0 + d.prebuffer + AddThrough(d.add, i) && Popped(d, frames, i) <= st.pc
    requires st.ring == Slice(d.prg, Popped(d, frames, i), st.pc)
    ensures var fed := FeedRing(d, st, i);
            && fed.pc == d.f0 + d.prebuffer + AddThrough(d.add, i + 1)
            && fed.ring == Slice(d.prg, Popped(d, frames, i), fed.pc)
  {
    hide Popped, Slice;
    SliceJoin(d.prg, Popped(d, frames, i), st.pc, st.pc + d.add[i]);
  }

  lemma WordsOf<P(!new)>(d: Disc<P>, frames: Frames<P>, pool: int, capacity: seq<nat>, cursors: seq<nat>, i: nat)
    requires Carries(d, frames, pool, capacity, cursors) && i < |frames|
    ensures d.Boot(i % 2) + d.Refill(i % 2) == WordStream(frames, |frames|, i % 2)
  {
    hide FrameCarried, BootCarries, WordStream, PrgStream;
  }

  lemma AllWordDue<P>(d: Disc<P>, frames: Frames<P>, i: nat, p: nat)
    requires d.Valid() && |d.words| == |frames| && InTime(d, frames) && i < |frames| && p < 2
    ensures |WordStream(frames, i + 1, p)| <= |d.Boot(p)| + StageThrough(d.stage, i + 1, p)
  {
    assert WordDue(d, frames, i + 1, p);
  }

  lemma WordStreamNext<P>(frames: Frames<P>, i: nat)
    requires i < |frames|
    ensures WordStream(frames, i + 1, i % 2) == WordStream(frames, i, i % 2) + Drawn(frames[i], WR)
  {
    hide Drawn;
  }

  /** The parity's queue begins with the frame's WordBuf patterns; what follows
      them is the next queue. */
  lemma WordSupplied<P(!new)>(d: Disc<P>, frames: Frames<P>, pool: int, capacity: seq<nat>, cursors: seq<nat>, i: nat)
    requires Carries(d, frames, pool, capacity, cursors) && InTime(d, frames) && i < |frames|
    ensures var p := i % 2;
            var queue := Slice(d.Boot(p) + d.Refill(p), |WordStream(frames, i, p)|,
                               |d.Boot(p)| + StageThrough(d.stage, i + 1, p));
            Drawn(frames[i], WR) <= queue && queue[|Drawn(frames[i], WR)|..] == WordQueue(d, frames, i + 1, p)
  {
    hide Slice, Drawn, FrameCarried, BootCarries, PrgStream, StageThrough, WordStream, InTime;
    var p := i % 2;
    WordsOf(d, frames, pool, capacity, cursors, i);
    WordStreamPrefix(frames, i + 1, |frames|, p);
    AllWordDue(d, frames, i, p);
    WordStreamNext(frames, i);
    SliceFront(d.Boot(p) + d.Refill(p), WordStream(frames, i, p), Drawn(frames[i], WR),
               |d.Boot(p)| + StageThrough(d.stage, i + 1, p));
  }

  lemma PrgSupplied<P(!new)>(d: Disc<P>, frames: Frames<P>, pool: int, capacity: seq<nat>, cursors: seq<nat>, i: nat)
    requires Carries(d, frames, pool, capacity, cursors) && InTime(d, frames) && 1 <= i < |frames|
    ensures var pc := d.f0 + d.prebuffer + AddThrough(d.add, i + 1);
            var queue := Slice(d.prg, |PrgStream(frames, i)|, pc);
            Drawn(frames[i], PRG) <= queue
            && queue[|Drawn(frames[i], PRG)|..] == Slice(d.prg, |PrgStream(frames, i + 1)|, pc)
  {
    hide Slice, Drawn, FrameCarried, BootCarries, WordStream, PrgStream, StageThrough, AddThrough, WordDue;
    assert PrgDue(d, frames, i + 1);
    PrgFront(frames, i, d.f0 + d.prebuffer + AddThrough(d.add, i + 1));
  }

  lemma PrgFront<P>(frames: Frames<P>, i: nat, b: nat)
    requires i < |frames| && |PrgStream(frames, i + 1)| <= b
    ensures var queue := Slice(PrgStream(frames, |frames|), |PrgStream(frames, i)|, b);
            Drawn(frames[i], PRG) <= queue
            && queue[|Drawn(frames[i], PRG)|..] == Slice(PrgStream(frames, |frames|), |PrgStream(frames, i + 1)|, b)
  {
    hide Slice, Drawn;
    PrgStreamPrefix(frames, i + 1, |frames|);
    assert PrgStream(frames, i + 1) == PrgStream(frames, i) + Drawn(frames[i], PRG);
    hide PrgStream;
    SliceFront(PrgStream(frames, |frames|), PrgStream(frames, i), Drawn(frames[i], PRG), b);
  }

  lemma OtherParity<P>(d: Disc<P>, frames: Frames<P>, i: nat)
    requires d.Valid() && i < |frames| == |d.words|
    ensures WordQueue(d, frames, i + 1, 1 - i % 2) == WordQueue(d, frames, i, 1 - i % 2)
    ensures StageThrough(d.stage, i + 1, 1 - i % 2) == StageThrough(d.stage, i, 1 - i % 2)
  {
    hide Slice, Drawn, WordStream, StageThrough;
    ParityHolds(frames, d.stage, i, 1 - i % 2);
  }

  lemma ParityHolds<P>(frames: Frames<P>, stage: seq<nat>, i: nat, p: nat)
    requires i < |frames| == |stage| && i % 2 != p
    ensures WordStream(frames, i + 1, p) == WordStream(frames, i, p)
    ensures StageThrough(stage, i + 1, p) == StageThrough(stage, i, p)
  {
  }

  lemma SyncedArrives<P>(d: Disc<P>, frames: Frames<P>, i: nat, st: Replay<P>)
    requires d.Valid() && |d.words| == |frames| && InTime(d, frames)
    requires 1 <= i < |frames| && Synced(d, frames, i, st)
    ensures Arrive(d, st, i).Ok?
    ensures var fed, p := Arrive(d, st, i).value, i % 2;
            && fed.Word(p) == Slice(d.Boot(p) + d.Refill(p), |WordStream(frames, i, p)|,
                                    |d.Boot(p)| + StageThrough(d.stage, i + 1, p))
            && fed.Cursor(p) == StageThrough(d.stage, i + 1, p)
            && fed.Word(1 - p) == WordQueue(d, frames, i + 1, 1 - p)
            && fed.Cursor(1 - p) == StageThrough(d.stage, i + 1, 1 - p)
            && fed.pc == d.f0 + d.prebuffer + AddThrough(d.add, i + 1)
            && fed.ring == Slice(d.prg, |PrgStream(frames, i)|, fed.pc)
            && fed.tile == TileAfter(frames, i) && fed.bad == 0 && fed.f0 == []
  {
    hide Slice, PrgStream, WordStream, StageThrough, AddThrough, TileAfter, FeedRing, FeedWord, WordQueue;
    assert PrgDue(d, frames, i);
    FeedWordSynced(d, frames, i, st);
    FeedRingSynced(d, frames, i, FeedWord(d, st, i).value);
    FeedRingKeeps(d, FeedWord(d, st, i).value, i);
    OtherParity(d, frames, i);
  }

  lemma FeedRingKeeps<P>(d: Disc<P>, st: Replay<P>, i: nat)
    requires d.Valid() && i < |d.words|
    ensures FeedRing(d, st, i) == st.(ring := FeedRing(d, st, i).ring, pc := FeedRing(d, st, i).pc)
  {
  }

  /** A frame after the first keeps the replay in step with the movie. */
  lemma StepSynced<P(!new)>(d: Disc<P>, frames: Frames<P>, pool: int, capacity: seq<nat>, cursors: seq<nat>, i: nat,
                            st: Replay<P>)
    requires Carries(d, frames, pool, capacity, cursors) && InTime(d, frames)
    requires 1 <= i < |frames| && Synced(d, frames, i, st)
    ensures Step(d, st, i, pool).Ok? && Synced(d, frames, i + 1, Step(d, st, i, pool).value)
  {
    hide PlayWords, Slice, Arrive, Apply, Drawn, Encodes, FrameRuns, Servable, AddThrough, StageThrough, WordStream,
         PrgStream, WordQueue, BootCarries;
    var p, takes := i % 2, frames[i];
    SyncedArrives(d, frames, i, st);
    var fed := Arrive(d, st, i).value;
    WordSupplied(d, frames, pool, capacity, cursors, i);
    PrgSupplied(d, frames, pool, capacity, cursors, i);
    assert FrameCarried(d, frames, pool, capacity, cursors, i);
    FrameDelivers(Stand(fed, i), takes, d.words[i], d.dic, pool, capacity[p], cursors[i]);
  }

  // Frame 0 and the boot sidecar

  lemma {:induction false} ApplyConcat<P>(tile: map<int, P>, a: seq<Take<P>>, b: seq<Take<P>>)
    ensures Apply(tile, a + b) == Apply(Apply(tile, a), b)
  {
    if b == [] {
      assert a + b == a;
    } else {
      ApplyConcat(tile, a, b[..|b| - 1]);
      assert (a + b)[..|a + b| - 1] == a + b[..|b| - 1];
    }
  }

  lemma {:induction false} ApplyOther<P>(tile: map<int, P>, a: seq<Take<P>>, at: int, p: P)
    requires forall i :: 0 <= i < |a| ==> a[i].slot + BASE != at
    ensures Apply(tile[at := p], a) == Apply(tile, a)[at := p]
  {
    if a != [] { ApplyOther(tile, a[..|a| - 1], at, p); }
  }

  /** Writes to different slots may be exchanged. */
  lemma {:induction false} ApplyCommutes<P>(tile: map<int, P>, a: seq<Take<P>>, b: seq<Take<P>>)
    requires forall i, j :: 0 <= i < |a| && 0 <= j < |b| ==> a[i].slot != b[j].slot
    ensures Apply(Apply(tile, b), a) == Apply(Apply(tile, a), b)
  {
    if b != [] {
      var init, last := b[..|b| - 1], b[|b| - 1];
      ApplyCommutes(tile, a, init);
      ApplyOther(Apply(tile, init), a, last.slot + BASE, last.pattern);
    }
  }

  lemma {:induction false} WriteIsApply<P>(tile: map<int, P>, takes: seq<Take<P>>, slots: seq<int>, patterns: seq<P>)
    requires |takes| == |slots| == |patterns|
    requires forall i :: 0 <= i < |takes| ==> takes[i].slot == slots[i] && takes[i].pattern == patterns[i]
    ensures WriteAll(tile, slots, patterns) == Apply(tile, takes)
  {
    if takes != [] {
      var n := |takes| - 1;
      WriteIsApply(tile, takes[..n], slots[..n], patterns[..n]);
    }
  }

  ghost function SidecarTakes<P>(d: Disc<P>, frames: Frames<P>): seq<Take<P>>
    requires frames != [] && |d.sidecar| <= |frames[0]|
  {
    frames[0][|frames[0]| - |d.sidecar|..]
  }

  /** The stream begins with frame 0's patterns, take by take. */
  lemma PrgBegins<P(!new)>(d: Disc<P>, frames: Frames<P>, pool: int, capacity: seq<nat>, cursors: seq<nat>)
    requires Carries(d, frames, pool, capacity, cursors) && frames != []
    ensures d.f0 == |frames[0]| <= |d.prg| && forall i :: 0 <= i < d.f0 ==> d.prg[i] == frames[0][i].pattern
    ensures PrgStream(frames, 1) == Drawn(frames[0], PRG) && |PrgStream(frames, 1)| == d.f0
    ensures Drawn(frames[0], WR) == []
  {
    hide Drawn, FrameCarried, WordStream;
    AllDrawn(frames[0], PRG);
    PrgStreamPrefix(frames, 1, |frames|);
    assert PrgStream(frames, 1) == Drawn(frames[0], PRG);
  }

  lemma InlineQueue<P(!new)>(d: Disc<P>, frames: Frames<P>, pool: int, capacity: seq<nat>, cursors: seq<nat>)
    requires Carries(d, frames, pool, capacity, cursors) && frames != []
    ensures var takes := Carried(frames, |d.sidecar|, 0);
            Slice(d.prg, 0, d.f0 - |d.sidecar|) == Drawn(takes, PRG) && Drawn(takes, WR) == []
  {
    hide Drawn, FrameCarried, WordStream, PrgStream;
    PrgBegins(d, frames, pool, capacity, cursors);
    AllDrawn(Carried(frames, |d.sidecar|, 0), PRG);
  }

  lemma SidecarWritten<P(!new)>(d: Disc<P>, frames: Frames<P>, pool: int, capacity: seq<nat>, cursors: seq<nat>)
    requires Carries(d, frames, pool, capacity, cursors) && frames != []
    ensures var patterns := Slice(d.prg, d.f0 - |d.sidecar|, d.f0);
            |patterns| == |d.sidecar|
            && WriteAll(map[], d.sidecar, patterns) == Apply(map[], SidecarTakes(d, frames))
  {
    hide Drawn, FrameCarried, WordStream, PrgStream;
    PrgBegins(d, frames, pool, capacity, cursors);
    WriteIsApply(map[], SidecarTakes(d, frames), d.sidecar, Slice(d.prg, d.f0 - |d.sidecar|, d.f0));
  }

  lemma SidecarInPool<P(!new)>(d: Disc<P>, frames: Frames<P>, pool: int, capacity: seq<nat>, cursors: seq<nat>)
    requires Carries(d, frames, pool, capacity, cursors) && frames != []
    ensures forall i :: 0 <= i < |d.sidecar| ==> 0 <= d.sidecar[i] < pool
  {
    hide WordStream, PrgStream, Encodes, FrameRuns;
    assert FrameCarried(d, frames, pool, capacity, cursors, 0);
    forall i | 0 <= i < |d.sidecar| ensures 0 <= d.sidecar[i] < pool {
      assert 0 <= frames[0][d.f0 - |d.sidecar| + i].slot < pool;
    }
  }

  /** The boot state holds frame 0's own queue, the first ring contents, and the
      sidecar slots. */
  lemma StartSynced<P(!new)>(d: Disc<P>, frames: Frames<P>, pool: int, capacity: seq<nat>, cursors: seq<nat>)
    requires Carries(d, frames, pool, capacity, cursors) && frames != []
    ensures |d.sidecar| <= |frames[0]| && Start(d, pool).Ok?
    ensures var st := Start(d, pool).value;
            && st.f0 == Drawn(Carried(frames, |d.sidecar|, 0), PRG)
            && st.ring == Slice(d.prg, d.f0, st.pc) && st.pc == d.f0 + d.prebuffer
            && st.word0 == d.boot0 && st.word1 == d.boot1 && st.cursor0 == st.cursor1 == 0
            && st.tile == Apply(map[], SidecarTakes(d, frames)) && st.bad == 0
  {
    hide Drawn, FrameCarried, WordStream, PrgStream, Slice, WriteAll, Apply;
    InlineQueue(d, frames, pool, capacity, cursors);
    SidecarWritten(d, frames, pool, capacity, cursors);
    SidecarInPool(d, frames, pool, capacity, cursors);
  }

  /** Sidecar first or last makes no difference to frame 0's slots. */
  lemma FrameZeroTiles<P(!new)>(d: Disc<P>, frames: Frames<P>, pool: int, capacity: seq<nat>, cursors: seq<nat>)
    requires Carries(d, frames, pool, capacity, cursors) && frames != []
    ensures |d.sidecar| <= |frames[0]|
    ensures Apply(Apply(map[], SidecarTakes(d, frames)), Carried(frames, |d.sidecar|, 0)) == TileAfter(frames, 1)
  {
    hide Drawn, FrameCarried, WordStream, PrgStream;
    var a, b := Carried(frames, |d.sidecar|, 0), SidecarTakes(d, frames);
    assert a + b == frames[0];
    ApplyConcat(map[], a, b);
    ApplyCommutes(map[], a, b);
    assert TileAfter(frames, 0) == map[];
  }

  lemma BootQueues<P(!new)>(d: Disc<P>, frames: Frames<P>, pool: int, capacity: seq<nat>, cursors: seq<nat>)
    requires Carries(d, frames, pool, capacity, cursors) && frames != []
    ensures WordQueue(d, frames, 0, 0) == d.boot0 && WordQueue(d, frames, 0, 1) == d.boot1
    ensures WordStream(frames, 1, 0) == WordStream(frames, 1, 1) == []
    ensures StageThrough(d.stage, 0, 0) == StageThrough(d.stage, 0, 1) == 0 && AddThrough(d.add, 0) == 0
  {
    hide FrameCarried;
    PrgBegins(d, frames, pool, capacity, cursors);
    assert WordStream(frames, 0, 0) == WordStream(frames, 0, 1) == [];
    assert Slice(d.boot0 + d.refill0, 0, |d.boot0|) == d.boot0;
    assert Slice(d.boot1 + d.refill1, 0, |d.boot1|) == d.boot1;
  }

  /** Frame 0, popped from its own queue. */
  lemma FirstSynced<P(!new)>(d: Disc<P>, frames: Frames<P>, pool: int, capacity: seq<nat>, cursors: seq<nat>)
    requires Carries(d, frames, pool, capacity, cursors) && InTime(d, frames) && frames != []
    ensures After(d, pool, 1).Ok? && Synced(d, frames, 1, After(d, pool, 1).value)
  {
    hide PlayWords, Slice, FeedWord, FeedRing, Apply, Drawn, Encodes, FrameRuns, AddThrough, StageThrough, WordStream,
         PrgStream, WordQueue, TileAfter, Start;
    StartSynced(d, frames, pool, capacity, cursors);
    BootQueues(d, frames, pool, capacity, cursors);
    PrgBegins(d, frames, pool, capacity, cursors);
    var st := Start(d, pool).value;
    FeedWordSynced(d, frames, 0, st);
    var mid := FeedWord(d, st, 0).value;
    FeedRingSynced(d, frames, 0, mid);
    FeedRingKeeps(d, mid, 0);
    OtherParity(d, frames, 0);
    var fed := Arrive(d, st, 0).value;
    assert FrameCarried(d, frames, pool, capacity, cursors, 0);
    var takes := Carried(frames, |d.sidecar|, 0);
    InlineQueue(d, frames, pool, capacity, cursors);
    WordSupplied(d, frames, pool, capacity, cursors, 0);
    FrameDelivers(Stand(fed, 0), takes, d.words[0], d.dic, pool, capacity[0], cursors[0]);
    FrameZeroTiles(d, frames, pool, capacity, cursors);
    assert Start(d, pool) == After(d, pool, 0);
  }

  lemma {:induction false} AllSynced<P(!new)>(d: Disc<P>, frames: Frames<P>, pool: int, capacity: seq<nat>,
                                              cursors: seq<nat>, n: nat)
    requires Carries(d, frames, pool, capacity, cursors) && InTime(d, frames) && 1 <= n <= |frames|
    ensures After(d, pool, n).Ok? && Synced(d, frames, n, After(d, pool, n).value)
  {
    hide Synced, Step, InTime;
    if n == 1 {
      FirstSynced(d, frames, pool, capacity, cursors);
    } else {
      AllSynced(d, frames, pool, capacity, cursors, n - 1);
      StepSynced(d, frames, pool, capacity, cursors, n - 1, After(d, pool, n - 1).value);
    }
  }

  /** End-to-end delivery: after every frame the slots hold exactly the patterns
      the resolver assigned and no pop has met an empty queue. */
  lemma EveryFrameDelivered<P(!new)>(d: Disc<P>, frames: Frames<P>, pool: int, capacity: seq<nat>, cursors: seq<nat>,
                                     n: nat)
    requires Carries(d, frames, pool, capacity, cursors) && InTime(d, frames) && 1 <= n <= |frames|
    ensures After(d, pool, n).Ok?
    ensures After(d, pool, n).value.tile == TileAfter(frames, n) && After(d, pool, n).value.bad == 0
  {
    AllSynced(d, frames, pool, capacity, cursors, n);
  }

  /** ... and at the end every queue is empty, so nothing was lost or duplicated. */
  lemma MovieDelivered<P(!new)>(d: Disc<P>, frames: Frames<P>, pool: int, capacity: seq<nat>, cursors: seq<nat>)
    requires Carries(d, frames, pool, capacity, cursors) && InTime(d, frames) && frames != []
    ensures After(d, pool, |frames|).Ok?
    ensures Close(d, After(d, pool, |frames|).value) == Ok(Verdict(TileAfter(frames, |frames|), [], 0))
  {
    hide After, Synced, Close, TileAfter, FrameCarried, BootCarries, InTime;
    var n := |frames|;
    AllSynced(d, frames, pool, capacity, cursors, n);
    SyncedCloses(d, frames, After(d, pool, n).value);
  }

  lemma SyncedCloses<P>(d: Disc<P>, frames: Frames<P>, st: Replay<P>)
    requires d.Valid() && |d.words| == |frames| && frames != [] && InTime(d, frames)
    requires d.prg == PrgStream(frames, |frames|)
    requires d.boot0 + d.refill0 == WordStream(frames, |frames|, 0)
    requires d.boot1 + d.refill1 == WordStream(frames, |frames|, 1)
    requires Synced(d, frames, |frames|, st)
    ensures Close(d, st) == Ok(Verdict(TileAfter(frames, |frames|), [], 0))
  {
    hide TileAfter, PrgStream, WordStream, AddThrough, StageThrough;
    var n := |frames|;
    assert PrgDue(d, frames, n);
    assert WordDue(d, frames, n, 0) && WordDue(d, frames, n, 1);
    assert |d.boot0| + |d.refill0| == |WordStream(frames, n, 0)|;
    assert |d.boot1| + |d.refill1| == |WordStream(frames, n, 1)|;
  }
}
