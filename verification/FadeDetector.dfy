/** detect_fade_shots of tools/fade_frames.py, the image fits given: which frame
    intervals it offers to the fits, and why its shots' connected groups occupy
    disjoint frame ranges. */
module FadeDetector {
  import opened Arith
  import opened Sorting
  import opened FadeGroups
  import opened FadeSelection
  import opened FadeLayout
  import opened FadePalette
  import opened FadeRuns

  // detect_fade_shots

  /** What a fit of a whole interval returns. */
  datatype Fit = Fit(reference: nat, peak: nat, scales: seq<real>)

  /** The fits the detector asks for: a whole interval between two runs, or the
      longest static fade away from or towards a run; none if nothing fits. */
  datatype Fits = Fits(minFrames: int, whole: (int, int) -> Option<Fit>,
                       rising: (int, int) -> Option<seq<real>>, falling: (int, int) -> Option<seq<real>>)
  {
    /** A whole fit covers its interval; a side is a part of its interval. */
    ghost predicate Valid() {
      && (forall a, b :: a <= b && whole(a, b).Some? ==> WholeFits(whole(a, b).value, b - a + 1))
      && (forall a, b :: rising(a, b).Some? ==> minFrames <= |rising(a, b).value| <= b - a)
      && (forall a, b :: falling(a, b).Some? ==> minFrames <= |falling(a, b).value| <= b - a)
    }
  }

  predicate WholeFits(f: Fit, n: int) { f.reference < n && f.peak < n && |f.scales| == n }

  /** The gap before run k: the frames after run k - 1. */
  function GapStart(runs: seq<BlackRun>, k: nat): int
    requires k <= |runs|
  {
    if k == 0 then 0 else runs[k - 1].end + 1
  }

  function GapEnd(runs: seq<BlackRun>, count: nat, k: nat): int
    requires k <= |runs|
  {
    if k == |runs| then count else runs[k].start
  }

  function Optional(shot: Option<FadeShot>): seq<FadeShot> { if shot.Some? then [shot.value] else [] }

  /** The shot that fills the gap between two neighbouring runs. */
  function CompleteAt(runs: seq<BlackRun>, fits: Fits, k: nat): Option<FadeShot>
    requires 1 <= k < |runs|
  {
    var start, end := runs[k - 1].end + 1, runs[k].start - 1;
    if end - start + 1 < fits.minFrames then None
    else
      match fits.whole(start, end)
      case None => None
      case Some(f) =>
        Some(FadeShot(Some(runs[k - 1]), start, end, start + f.reference, start + f.peak, Some(runs[k]), f.scales))
  }

  function Completes(runs: seq<BlackRun>, fits: Fits, n: nat): seq<FadeShot>
    requires n <= |runs|
  {
    if n <= 1 then [] else Completes(runs, fits, n - 1) + Optional(CompleteAt(runs, fits, n - 1))
  }

  function FadeIn(run: BlackRun, scales: seq<real>): FadeShot {
    var end := run.end + |scales|;
    FadeShot(Some(run), run.end + 1, end, end, end, None, scales)
  }

  function FadeOut(run: BlackRun, scales: seq<real>): FadeShot {
    var start := run.start - |scales|;
    FadeShot(None, start, run.start - 1, start, start, Some(run), scales)
  }

  /** A fade in from run i, of which no complete shot owns the right side. */
  function RisingAt(runs: seq<BlackRun>, count: nat, fits: Fits, complete: seq<FadeShot>, i: nat): Option<FadeShot>
    requires i < |runs|
  {
    if Some(runs[i]) in LeftRuns(complete) then None
    else
      match fits.rising(runs[i].end + 1, GapEnd(runs, count, i + 1))
      case None => None
      case Some(scales) => Some(FadeIn(runs[i], scales))
  }

  /** A fade out to run i, of which no complete shot owns the left side. */
  function FallingAt(runs: seq<BlackRun>, fits: Fits, complete: seq<FadeShot>, i: nat): Option<FadeShot>
    requires i < |runs|
  {
    if Some(runs[i]) in RightRuns(complete) then None
    else
      match fits.falling(GapStart(runs, i), runs[i].start)
      case None => None
      case Some(scales) => Some(FadeOut(runs[i], scales))
  }

  function LeftRuns(shots: seq<FadeShot>): set<Option<BlackRun>> { set s | s in shots :: s.leftBlack }

  function RightRuns(shots: seq<FadeShot>): set<Option<BlackRun>> { set s | s in shots :: s.rightBlack }

  function OneSided(runs: seq<BlackRun>, count: nat, fits: Fits, complete: seq<FadeShot>, n: nat): seq<FadeShot>
    requires n <= |runs|
  {
    if n == 0 then []
    else OneSided(runs, count, fits, complete, n - 1) + Optional(RisingAt(runs, count, fits, complete, n - 1))
         + Optional(FallingAt(runs, fits, complete, n - 1))
  }

  /** All that is detected beside the given runs. */
  function ShotsAt(runs: seq<BlackRun>, count: nat, fits: Fits): seq<FadeShot> {
    var complete := Completes(runs, fits, |runs|);
    var oneSided := OneSided(runs, count, fits, complete, |runs|);
    SortBy(complete + Unconflicted(oneSided, |oneSided|), ByStartEnd)
  }

  method DetectFadeShots(mask: seq<bool>, fits: Fits) returns (r: Result<seq<FadeShot>>)
    requires fits.Valid()
    ensures r.Err? <==> fits.minFrames < 1
    ensures r.Ok? ==>
              exists runs :: AreRuns(mask, runs) && r.value == ShotsAt(runs, |mask|, fits)
                          && Detected(r.value, runs, |mask|)
  {
    hide SortBy, AreRuns, Detected, Unconflicted, Rightful, InRange, Completes, OneSided;
    if fits.minFrames < 1 { return Err("min_frames must be positive"); }
    var count := |mask|;
    var runs := BlackRuns(mask);
    RunsInRange(mask, runs);
    var complete := CompleteShots(runs, fits);
    var oneSided := OneSidedShots(runs, count, fits, complete);
    OneSidedRightful(runs, count, fits, complete);
    var unambiguous := DropOverlapping(oneSided);
    r := Ok(SortBy(complete + unambiguous, ByStartEnd));
    DetectedAre(runs, count, fits);
  }

  method CompleteShots(runs: seq<BlackRun>, fits: Fits) returns (complete: seq<FadeShot>)
    ensures complete == Completes(runs, fits, |runs|)
  {
    complete := [];
    if runs == [] { return; }
    for k := 1 to |runs|
      invariant complete == Completes(runs, fits, k)
    {
      var left, right := runs[k - 1], runs[k];
      var start, end := left.end + 1, right.start - 1;
      if end - start + 1 < fits.minFrames { continue; }
      var fit := fits.whole(start, end);
      if fit.None? { continue; }
      complete := complete + [FadeShot(Some(left), start, end, start + fit.value.reference, start + fit.value.peak,
                                       Some(right), fit.value.scales)];
    }
  }

  method OneSidedShots(runs: seq<BlackRun>, count: nat, fits: Fits, complete: seq<FadeShot>)
    returns (oneSided: seq<FadeShot>)
    ensures oneSided == OneSided(runs, count, fits, complete, |runs|)
  {
    hide FadeIn, FadeOut, LeftRuns, RightRuns, OneSided;
    NothingOneSided(runs, count, fits, complete);
    var completeLeft, completeRight := LeftRuns(complete), RightRuns(complete);
    oneSided := [];
    for i := 0 to |runs|
      invariant oneSided == OneSided(runs, count, fits, complete, i)
    {
      OneSidedNext(runs, count, fits, complete, i);
      ghost var was := oneSided;
      var run := runs[i];
      var previousEnd := if i > 0 then runs[i - 1].end + 1 else 0;
      var nextStart := if i + 1 < |runs| then runs[i + 1].start else count;
      if Some(run) !in completeLeft {
        var rising := fits.rising(run.end + 1, nextStart);
        if rising.Some? { oneSided := oneSided + [FadeIn(run, rising.value)]; }
      }
      assert oneSided == was + Optional(RisingAt(runs, count, fits, complete, i));
      if Some(run) !in completeRight {
        var falling := fits.falling(previousEnd, run.start);
        if falling.Some? { oneSided := oneSided + [FadeOut(run, falling.value)]; }
      }
    }
  }

  lemma NothingOneSided(runs: seq<BlackRun>, count: nat, fits: Fits, complete: seq<FadeShot>)
    ensures OneSided(runs, count, fits, complete, 0) == []
  {
  }

  lemma OneSidedNext(runs: seq<BlackRun>, count: nat, fits: Fits, complete: seq<FadeShot>, i: nat)
    requires i < |runs|
    ensures OneSided(runs, count, fits, complete, i + 1)
         == OneSided(runs, count, fits, complete, i) + Optional(RisingAt(runs, count, fits, complete, i))
            + Optional(FallingAt(runs, fits, complete, i))
  {
    hide RisingAt, FallingAt;
  }

  // Detected shots do not get in each other's way

  /** A shot that lies in one gap and is bounded by the black runs beside it. */
  ghost predicate InGap(s: FadeShot, runs: seq<BlackRun>, count: nat, k: nat)
    requires k <= |runs|
  {
    && s.Valid(count) && GapStart(runs, k) <= s.start && s.end < GapEnd(runs, count, k)
    && (s.leftBlack.Some? ==> k > 0 && s.leftBlack.value == runs[k - 1] && s.start == GapStart(runs, k))
    && (s.rightBlack.Some? ==> k < |runs| && s.rightBlack.value == runs[k] && s.end == GapEnd(runs, count, k) - 1)
  }

  ghost predicate Placed(s: FadeShot, runs: seq<BlackRun>, count: nat) {
    exists k :: 0 <= k <= |runs| && InGap(s, runs, count, k)
  }

  ghost predicate InRange(runs: seq<BlackRun>, count: nat) {
    Separated(runs) && forall i :: 0 <= i < |runs| ==> 0 <= runs[i].start <= runs[i].end < count
  }

  /** No two shots of the list share a frame. */
  ghost predicate Clear(shots: seq<FadeShot>) { forall i, j :: 0 <= i < j < |shots| ==> !Overlap(shots[i], shots[j]) }

  ghost predicate AllPlaced(shots: seq<FadeShot>, runs: seq<BlackRun>, count: nat) {
    forall s :: s in shots ==> Placed(s, runs, count)
  }

  /** Shots as the detector makes them: placed in gaps between black runs, no two
      sharing a frame. */
  ghost predicate Detected(shots: seq<FadeShot>, runs: seq<BlackRun>, count: nat) {
    InRange(runs, count) && AllPlaced(shots, runs, count) && Clear(shots)
  }

  lemma RunsInRange(mask: seq<bool>, runs: seq<BlackRun>)
    requires AreRuns(mask, runs)
    ensures InRange(runs, |mask|)
  {
    forall i | 0 <= i < |runs| ensures 0 <= runs[i].start <= runs[i].end < |mask| { assert RunOf(mask, runs[i]); }
  }

  lemma GapsApart(runs: seq<BlackRun>, count: nat, a: FadeShot, b: FadeShot, k: nat, m: nat)
    requires InRange(runs, count) && k < m <= |runs| && InGap(a, runs, count, k) && InGap(b, runs, count, m)
    ensures a.end < runs[k].start <= runs[m - 1].start <= runs[m - 1].end < b.start
    ensures !Overlap(a, b) && !Overlap(b, a)
  {
  }

  /** A complete shot fills its gap. */
  ghost predicate Fills(s: FadeShot, runs: seq<BlackRun>, count: nat, k: nat) {
    && 1 <= k < |runs| && InGap(s, runs, count, k)
    && s.leftBlack == Some(runs[k - 1]) && s.rightBlack == Some(runs[k])
  }

  ghost predicate FillsBelow(s: FadeShot, runs: seq<BlackRun>, count: nat, n: nat) {
    exists k :: 0 <= k < n && Fills(s, runs, count, k)
  }

  lemma CompleteFills(runs: seq<BlackRun>, count: nat, fits: Fits, k: nat)
    requires InRange(runs, count) && fits.Valid() && fits.minFrames >= 1 && 1 <= k < |runs|
    ensures CompleteAt(runs, fits, k).Some? ==> Fills(CompleteAt(runs, fits, k).value, runs, count, k)
  {
    if CompleteAt(runs, fits, k).Some? {
      assert runs[k - 1].end + 1 < runs[k].start;
      var start, end := runs[k - 1].end + 1, runs[k].start - 1;
      assert fits.whole(start, end).Some? && WholeFits(fits.whole(start, end).value, end - start + 1);
    }
  }

  lemma {:induction false} CompletesFill(runs: seq<BlackRun>, count: nat, fits: Fits, n: nat)
    requires InRange(runs, count) && fits.Valid() && fits.minFrames >= 1 && n <= |runs|
    ensures Clear(Completes(runs, fits, n))
    ensures forall s :: s in Completes(runs, fits, n) ==> FillsBelow(s, runs, count, n)
  {
    hide InRange, Fills, CompleteAt, Overlap;
    if n > 1 {
      CompletesFill(runs, count, fits, n - 1);
      CompleteFills(runs, count, fits, n - 1);
      var was, next := Completes(runs, fits, n - 1), CompleteAt(runs, fits, n - 1);
      forall s | s in was ensures FillsBelow(s, runs, count, n) && (next.Some? ==> !Overlap(s, next.value)) {
        var k :| 0 <= k < n - 1 && Fills(s, runs, count, k);
        if next.Some? { FillsApart(runs, count, s, next.value, k, n - 1); }
      }
    }
  }

  lemma FillsApart(runs: seq<BlackRun>, count: nat, a: FadeShot, b: FadeShot, k: nat, m: nat)
    requires InRange(runs, count) && k < m && Fills(a, runs, count, k) && Fills(b, runs, count, m)
    ensures !Overlap(a, b)
  {
    GapsApart(runs, count, a, b, k, m);
  }

  /** A one-sided shot lies in a gap that no complete shot fills. */
  ghost predicate Beside(s: FadeShot, runs: seq<BlackRun>, count: nat, complete: seq<FadeShot>) {
    exists k :: 0 <= k <= |runs| && Alone(s, runs, count, complete, k)
  }

  ghost predicate Alone(s: FadeShot, runs: seq<BlackRun>, count: nat, complete: seq<FadeShot>, k: nat)
    requires k <= |runs|
  {
    InGap(s, runs, count, k) && forall c :: c in complete ==> !Fills(c, runs, count, k)
  }

  lemma RisingBeside(runs: seq<BlackRun>, count: nat, fits: Fits, complete: seq<FadeShot>, i: nat)
    requires InRange(runs, count) && fits.Valid() && fits.minFrames >= 1 && i < |runs|
    ensures RisingAt(runs, count, fits, complete, i).Some? ==>
      Beside(RisingAt(runs, count, fits, complete, i).value, runs, count, complete)
  {
    var rising := RisingAt(runs, count, fits, complete, i);
    if rising.Some? {
      assert fits.rising(runs[i].end + 1, GapEnd(runs, count, i + 1)).Some?;
      assert InGap(rising.value, runs, count, i + 1);
      assert Alone(rising.value, runs, count, complete, i + 1);
    }
  }

  lemma FallingBeside(runs: seq<BlackRun>, count: nat, fits: Fits, complete: seq<FadeShot>, i: nat)
    requires InRange(runs, count) && fits.Valid() && fits.minFrames >= 1 && i < |runs|
    ensures FallingAt(runs, fits, complete, i).Some? ==>
      Beside(FallingAt(runs, fits, complete, i).value, runs, count, complete)
  {
    var falling := FallingAt(runs, fits, complete, i);
    if falling.Some? {
      assert fits.falling(GapStart(runs, i), runs[i].start).Some?;
      assert InGap(falling.value, runs, count, i);
      assert Alone(falling.value, runs, count, complete, i);
    }
  }

  lemma {:induction false} OneSidedBeside(runs: seq<BlackRun>, count: nat, fits: Fits, complete: seq<FadeShot>, n: nat)
    requires InRange(runs, count) && fits.Valid() && fits.minFrames >= 1 && n <= |runs|
    ensures forall s :: s in OneSided(runs, count, fits, complete, n) ==> Beside(s, runs, count, complete)
  {
    hide InRange, Beside, RisingAt, FallingAt;
    if n > 0 {
      OneSidedBeside(runs, count, fits, complete, n - 1);
      RisingBeside(runs, count, fits, complete, n - 1);
      FallingBeside(runs, count, fits, complete, n - 1);
    }
  }

  lemma OneSidedRightful(runs: seq<BlackRun>, count: nat, fits: Fits, complete: seq<FadeShot>)
    requires InRange(runs, count) && fits.Valid() && fits.minFrames >= 1
    ensures Rightful(OneSided(runs, count, fits, complete, |runs|))
  {
    hide InRange, OneSided, Fills;
    var shots := OneSided(runs, count, fits, complete, |runs|);
    OneSidedBeside(runs, count, fits, complete, |runs|);
    forall i | 0 <= i < |shots| ensures shots[i].start <= shots[i].end {
      assert shots[i] in shots;
      var k :| 0 <= k <= |runs| && Alone(shots[i], runs, count, complete, k);
    }
  }

  lemma BesideApart(runs: seq<BlackRun>, count: nat, complete: seq<FadeShot>, c: FadeShot, s: FadeShot)
    requires InRange(runs, count) && c in complete && FillsBelow(c, runs, count, |runs|)
    requires Beside(s, runs, count, complete)
    ensures !Overlap(c, s)
  {
    hide InRange;
    var k :| 0 <= k < |runs| && Fills(c, runs, count, k);
    var m :| 0 <= m <= |runs| && Alone(s, runs, count, complete, m);
    if k < m { GapsApart(runs, count, c, s, k, m); }
    if m < k { GapsApart(runs, count, s, c, m, k); }
  }

  ghost predicate Lonely(shots: seq<FadeShot>, s: FadeShot, n: nat) {
    exists p :: 0 <= p < n && p < |shots| && s == shots[p] && !Conflicts(shots, p)
  }

  /** What is kept conflicts with nothing that is kept. */
  lemma {:induction false} UnconflictedClear(shots: seq<FadeShot>, n: nat)
    requires n <= |shots|
    ensures Clear(Unconflicted(shots, n))
    ensures forall s :: s in Unconflicted(shots, n) ==> Lonely(shots, s, n)
  {
    hide Conflicts, Overlap;
    if n > 0 {
      UnconflictedClear(shots, n - 1);
      var was := Unconflicted(shots, n - 1);
      forall s | s in was
        ensures Lonely(shots, s, n) && (!Conflicts(shots, n - 1) ==> !Overlap(s, shots[n - 1]))
      {
        var p :| 0 <= p < n - 1 && s == shots[p] && !Conflicts(shots, p);
        NoConflict(shots, p, n - 1);
      }
      if !Conflicts(shots, n - 1) {
        assert Lonely(shots, shots[n - 1], n);
        ClearConcat(was, [shots[n - 1]]);
      }
    }
  }

  lemma NoConflict(shots: seq<FadeShot>, p: nat, q: nat)
    requires p < |shots| && q < |shots| && p != q && !Conflicts(shots, p)
    ensures !Overlap(shots[p], shots[q])
  {
  }

  /** Sorting keeps shots clear of each other. */
  lemma ClearStays(s: seq<FadeShot>, r: seq<FadeShot>)
    requires multiset(r) == multiset(s) && Clear(s) && forall x :: x in s ==> x.start <= x.end
    ensures Clear(r)
  {
    forall i, j | 0 <= i < j < |s| ensures s[i] != s[j] { assert s[i] in s && !Overlap(s[i], s[j]); }
    StaysDistinct(s, r);
    forall i, j | 0 <= i < j < |r| ensures !Overlap(r[i], r[j]) {
      assert r[i] in multiset(s) && r[j] in multiset(s);
      var p :| 0 <= p < |s| && s[p] == r[i];
      var q :| 0 <= q < |s| && s[q] == r[j];
      assert p != q && !Overlap(s[Min(p, q)], s[Max(p, q)]);
    }
  }

  lemma ClearConcat(a: seq<FadeShot>, b: seq<FadeShot>)
    requires Clear(a) && Clear(b) && forall s, t :: s in a && t in b ==> !Overlap(s, t)
    ensures Clear(a + b)
  {
    hide Overlap;
    forall i, j | 0 <= i < j < |a + b| ensures !Overlap((a + b)[i], (a + b)[j]) {
      if i < |a| <= j { assert a[i] in a && b[j - |a|] in b; }
    }
  }

  /** Whatever the fits say, what the detector offers lies in gaps, clear of each other. */
  lemma DetectedAre(runs: seq<BlackRun>, count: nat, fits: Fits)
    requires InRange(runs, count) && fits.Valid() && fits.minFrames >= 1
    ensures Detected(ShotsAt(runs, count, fits), runs, count)
  {
    hide InRange, Clear, Overlap, Completes, OneSided, Unconflicted, SortBy, SortedBy, FillsBelow, Beside, Lonely,
         InGap;
    var complete := Completes(runs, fits, |runs|);
    var oneSided := OneSided(runs, count, fits, complete, |runs|);
    var kept := Unconflicted(oneSided, |oneSided|);
    CompletesFill(runs, count, fits, |runs|);
    OneSidedBeside(runs, count, fits, complete, |runs|);
    UnconflictedClear(oneSided, |oneSided|);
    forall s | s in kept ensures Beside(s, runs, count, complete) { LonelyIn(oneSided, s); }
    forall c, s | c in complete && s in kept ensures !Overlap(c, s) { BesideApart(runs, count, complete, c, s); }
    ClearConcat(complete, kept);
    forall s | s in complete + kept ensures Placed(s, runs, count) {
      if s in complete { FillsPlaced(s, runs, count); } else { BesidePlaced(s, runs, count, complete); }
    }
    SortSorts(complete + kept, ByStartEnd);
    SortMembers(complete + kept, ByStartEnd);
    forall s: FadeShot | s in complete + kept ensures s.start <= s.end { PlacedValid(s, runs, count); }
    ClearStays(complete + kept, SortBy(complete + kept, ByStartEnd));
  }

  lemma LonelyIn(shots: seq<FadeShot>, s: FadeShot)
    requires Lonely(shots, s, |shots|)
    ensures s in shots
  {
  }

  lemma FillsPlaced(s: FadeShot, runs: seq<BlackRun>, count: nat)
    requires FillsBelow(s, runs, count, |runs|)
    ensures Placed(s, runs, count)
  {
    hide InGap;
  }

  lemma BesidePlaced(s: FadeShot, runs: seq<BlackRun>, count: nat, complete: seq<FadeShot>)
    requires Beside(s, runs, count, complete)
    ensures Placed(s, runs, count)
  {
    hide InGap, Fills;
    var k :| 0 <= k <= |runs| && Alone(s, runs, count, complete, k);
    assert InGap(s, runs, count, k);
  }

  lemma PlacedValid(s: FadeShot, runs: seq<BlackRun>, count: nat)
    requires Placed(s, runs, count)
    ensures s.Valid(count)
  {
  }

  // Their groups occupy disjoint frame ranges

  /** Of two shots that share no frame and no black run, the first restores before
      the second prepares. */
  lemma RestoresBefore(a: FadeShot, b: FadeShot, runs: seq<BlackRun>, count: nat)
    requires InRange(runs, count) && Placed(a, runs, count) && Placed(b, runs, count)
    requires a.end < b.start && !Joins(a, b)
    ensures a.Restoration() <= b.Anchor()
  {
    var k :| 0 <= k <= |runs| && InGap(a, runs, count, k);
    var m :| 0 <= m <= |runs| && InGap(b, runs, count, m);
    if m < k { GapsApart(runs, count, b, a, m, k); }
    if k < m {
      GapsApart(runs, count, a, b, k, m);
      if k < m - 1 { assert runs[k].end + 1 < runs[m - 1].start; }
    }
  }

  ghost predicate EndsBefore(s: seq<FadeShot>) { forall i, j :: 0 <= i < j < |s| ==> s[i].end < s[j].start }

  lemma {:induction false} GroupsDisjoint(gs: seq<Group>, runs: seq<BlackRun>, count: nat)
    requires InRange(runs, count) && AllValid(gs, count) && Maximal(gs)
    requires EndsBefore(Flatten(gs)) && AllPlaced(Flatten(gs), runs, count)
    ensures Disjoint(gs)
  {
    hide InRange, Maximal, EndsBefore, AllPlaced, ValidGroup, Joins, RestoreOf, AnchorOf;
    if gs != [] {
      var front, g := gs[..|gs| - 1], gs[|gs| - 1];
      assert gs == front + [g];
      FlattenLast(front, g);
      MaximalFront(front, g, g);
      PartOrdered(Flatten(front), g, runs, count);
      GroupsDisjoint(front, runs, count);
      if front != [] {
        var h := front[|front| - 1];
        assert Breaks(gs, |front|) by { MaximalAt(gs, |front|); }
        LastIn(front);
        NextRestored(Flatten(front), h, g, runs, count);
        forall i | 0 <= i < |front| ensures RestoreOf(front[i]) <= AnchorOf(g) {
          if i < |front| - 1 { RangeForward(h, count); }
        }
      }
    }
  }

  lemma PartOrdered(a: seq<FadeShot>, b: seq<FadeShot>, runs: seq<BlackRun>, count: nat)
    requires EndsBefore(a + b) && AllPlaced(a + b, runs, count)
    ensures EndsBefore(a) && AllPlaced(a, runs, count)
  {
    hide Placed;
    forall i, j | 0 <= i < j < |a| ensures a[i].end < a[j].start { assert (a + b)[i].end < (a + b)[j].start; }
  }

  lemma LastIn(front: seq<Group>)
    requires front != []
    ensures Last(front[|front| - 1]) in Flatten(front)
  {
    hide Flatten;
    var h := front[|front| - 1];
    assert front == front[..|front| - 1] + [h];
    FlattenLast(front[..|front| - 1], h);
    assert Last(h) in h;
  }

  lemma NextRestored(before: seq<FadeShot>, h: Group, g: Group, runs: seq<BlackRun>, count: nat)
    requires InRange(runs, count) && EndsBefore(before + g) && AllPlaced(before + g, runs, count)
    requires Last(h) in before && !Joins(Last(h), g[0])
    ensures RestoreOf(h) <= AnchorOf(g)
  {
    hide InRange, Placed, Joins;
    var k :| 0 <= k < |before| && before[k] == Last(h);
    assert Last(h) in before + g && g[0] in before + g;
    assert (before + g)[k] == Last(h) && (before + g)[|before|] == g[0];
    RestoresBefore(Last(h), g[0], runs, count);
  }

  lemma RangeForward(g: Group, count: nat)
    requires ValidGroup(g, count)
    ensures AnchorOf(g) <= RestoreOf(g)
  {
    StartsInside(g, count, 0);
  }

  lemma SortedEndsBefore(shots: seq<FadeShot>, ordered: seq<FadeShot>, runs: seq<BlackRun>, count: nat)
    requires SortedBy(ordered, ByStartEnd) && Clear(ordered) && AllPlaced(ordered, runs, count)
    ensures EndsBefore(ordered)
  {
    hide Placed;
    forall i, j | 0 <= i < j < |ordered| ensures ordered[i].end < ordered[j].start {
      assert !KeyBefore(ByStartEnd(ordered[j]), ByStartEnd(ordered[i])) && !Overlap(ordered[i], ordered[j]);
      assert ordered[j] in ordered;
      PlacedValid(ordered[j], runs, count);
    }
  }

  /** Main result: the connected groups of detected shots occupy disjoint frame ranges. */
  lemma DetectedDisjoint(shots: seq<FadeShot>, runs: seq<BlackRun>, count: nat)
    requires Detected(shots, runs, count)
    ensures ShotsValid(shots, count) && Disjoint(Connected(shots))
  {
    hide InRange, Clear, Placed, SortBy, SortedBy, Groups, Flatten, Disjoint, EndsBefore, Maximal, AllChained, AllValid;
    forall s: FadeShot | s in shots ensures s.Valid(count) { PlacedValid(s, runs, count); }
    var ordered := SortBy(shots, ByStartEnd);
    SortSorts(shots, ByStartEnd);
    SortMembers(shots, ByStartEnd);
    ClearStays(shots, ordered);
    SortedEndsBefore(shots, ordered, runs, count);
    GroupsAre(ordered);
    ConnectedValid(shots, count);
    GroupsDisjoint(Groups(ordered), runs, count);
  }

  // Detection and layout together

  /** The fade layout of a movie: detected shots, laid over the frame segments. It
      fails only on its inputs' own account, never because the rebuild disagrees with
      the selection. */
  method DetectAndLay(mask: seq<bool>, fits: Fits, original: seq<int>, maxSegments: int)
    returns (shots: Result<seq<FadeShot>>, r: Result<Layout>)
    requires fits.Valid() && |mask| == |original|
    ensures shots.Err? <==> fits.minFrames < 1
    ensures shots.Ok? ==> ShotsValid(shots.value, |original|) && Disjoint(Connected(shots.value))
    ensures r.Ok? <==>
              && shots.Ok? && Forward(original) && maxSegments > 0
              && !AllTooMany(Connected(shots.value), Boundaries(original), |original|, maxSegments)
    ensures r.Ok? ==>
              && r.value.shots == Selected(shots.value, Boundaries(original), |original|, maxSegments)
              && ShotsValid(r.value.shots, |original|)
              && LaidOut(r.value, original, Rebuilt(r.value.shots, Boundaries(original), |original|))
  {
    hide ShotsAt, Detected, Disjoint, Connected, ShotsValid, Selected, Rebuilt, LaidOut, Boundaries, AllTooMany,
         AreRuns, Forward;
    shots := DetectFadeShots(mask, fits);
    if shots.Err? { return shots, Err(shots.message); }
    ghost var runs :| AreRuns(mask, runs) && shots.value == ShotsAt(runs, |mask|, fits)
                      && Detected(shots.value, runs, |mask|);
    DetectedDisjoint(shots.value, runs, |mask|);
    r := BuildLayout(shots.value, original, maxSegments);
    StartsAtZero(original);
    CapacityCheck(shots.value, Boundaries(original), |original|, maxSegments);
  }
}
