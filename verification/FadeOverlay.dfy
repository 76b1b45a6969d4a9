/** overlay_shot_targets of tools/fade_frames.py: per-frame reference, scale and
    phase.  A scale that the source leaves as NaN is None. */
module FadeOverlay {
  import opened Arith
  import opened FadeGroups
  import opened FadeSelection
  import opened FadeLayout

  datatype Target = Target(reference: int, desired: Option<real>, phase: int)

  predicate InRun(f: int, run: Option<BlackRun>) { run.Some? && run.value.start <= f <= run.value.end }

  predicate Fades(s: FadeShot, f: int) { s.start <= f <= s.end }

  predicate Prepares(s: FadeShot, f: int) { s.Anchor() <= f <= s.PreparationEnd() }

  function PhaseOf(s: FadeShot, f: int): int {
    if s.leftBlack.Some? && (s.rightBlack.None? || f <= s.peak) then 1 else 2
  }

  /** Frame f once the first n shots have painted their fades. */
  function Shown(shots: seq<FadeShot>, count: nat, n: nat, f: int): Target
    requires n <= |shots| && ShotsValid(shots, count)
  {
    if n == 0 then Target(-1, None, 0)
    else
      var t, s := Shown(shots, count, n - 1, f), shots[n - 1];
      assert s.Valid(count);
      Target(if s.Anchor() <= f <= s.DisplayEnd() then s.reference else t.reference,
             if InRun(f, s.rightBlack) then Some(0.0)
             else if Fades(s, f) then Some(s.scales[f - s.start]) else t.desired,
             if InRun(f, s.rightBlack) then 2 else if Fades(s, f) then PhaseOf(s, f) else t.phase)
  }

  /** ... and once n of them have claimed their preparation frames back. */
  function Overlaid(shots: seq<FadeShot>, count: nat, n: nat, f: int): Target
    requires n <= |shots| && ShotsValid(shots, count)
  {
    if n == 0 then Shown(shots, count, |shots|, f)
    else if Prepares(shots[n - 1], f) then Target(shots[n - 1].reference, None, 0)
    else Overlaid(shots, count, n - 1, f)
  }

  /** A frame has a phase exactly when it has a desired scale, whatever the shots
      and whatever their order. */
  lemma {:induction false} PhaseNeedsScale(shots: seq<FadeShot>, count: nat, f: int)
    requires ShotsValid(shots, count)
    ensures Overlaid(shots, count, |shots|, f).phase != 0 <==> Overlaid(shots, count, |shots|, f).desired.Some?
  {
    PhaseWhileShown(shots, count, |shots|, f);
    PhaseWhileOverlaid(shots, count, |shots|, f);
  }

  lemma {:induction false} PhaseWhileShown(shots: seq<FadeShot>, count: nat, n: nat, f: int)
    requires ShotsValid(shots, count) && n <= |shots|
    ensures Shown(shots, count, n, f).phase != 0 <==> Shown(shots, count, n, f).desired.Some?
  {
    if n > 0 { PhaseWhileShown(shots, count, n - 1, f); }
  }

  lemma {:induction false} PhaseWhileOverlaid(shots: seq<FadeShot>, count: nat, n: nat, f: int)
    requires ShotsValid(shots, count) && n <= |shots|
    requires Shown(shots, count, |shots|, f).phase != 0 <==> Shown(shots, count, |shots|, f).desired.Some?
    ensures Overlaid(shots, count, n, f).phase != 0 <==> Overlaid(shots, count, n, f).desired.Some?
  {
    hide Shown;
    if n > 0 { PhaseWhileOverlaid(shots, count, n - 1, f); }
  }

  /** No shot but the k-th paints the frame. */
  ghost predicate OnlyPainter(shots: seq<FadeShot>, k: nat, f: int) {
    forall i :: 0 <= i < |shots| && i != k ==> !Fades(shots[i], f) && !InRun(f, shots[i].rightBlack)
  }

  /** A fade frame that no shot prepares on and no other shot paints has exactly its
      own shot's scale, and phase 1 on the way in, 2 on the way out. */
  lemma FadeFrameShows(shots: seq<FadeShot>, count: nat, k: nat, f: int)
    requires ShotsValid(shots, count) && k < |shots| && shots[k].start <= f <= shots[k].end
    requires (forall i :: 0 <= i < |shots| ==> !Prepares(shots[i], f)) && OnlyPainter(shots, k, f)
    ensures shots[k].Valid(count)
    ensures var t, s := Overlaid(shots, count, |shots|, f), shots[k];
            && t.desired == Some(s.scales[f - s.start])
            && t.phase == if s.leftBlack.Some? && s.rightBlack.Some? then (if f <= s.peak then 1 else 2)
                          else if s.leftBlack.Some? then 1 else 2
  {
    assert shots[k].Valid(count);
    FadeWhileShown(shots, count, k, |shots|, f);
    NeverPrepared(shots, count, |shots|, f);
  }

  /** The black frames a shot fades out to are at scale 0 in phase 2, as far as no
      shot prepares on them and no other shot paints them. */
  lemma BlackFrameShows(shots: seq<FadeShot>, count: nat, k: nat, f: int)
    requires ShotsValid(shots, count) && k < |shots| && shots[k].rightBlack.Some?
    requires shots[k].rightBlack.value.start <= f <= shots[k].rightBlack.value.end
    requires (forall i :: 0 <= i < |shots| ==> !Prepares(shots[i], f)) && OnlyPainter(shots, k, f)
    ensures Overlaid(shots, count, |shots|, f).desired == Some(0.0) && Overlaid(shots, count, |shots|, f).phase == 2
  {
    BlackWhileShown(shots, count, k, |shots|, f);
    NeverPrepared(shots, count, |shots|, f);
  }

  lemma {:induction false} BlackWhileShown(shots: seq<FadeShot>, count: nat, k: nat, n: nat, f: int)
    requires ShotsValid(shots, count) && k < n <= |shots| && InRun(f, shots[k].rightBlack)
    requires OnlyPainter(shots, k, f)
    ensures Shown(shots, count, n, f).desired == Some(0.0) && Shown(shots, count, n, f).phase == 2
    decreases n
  {
    if k < n - 1 { BlackWhileShown(shots, count, k, n - 1, f); }
  }

  lemma {:induction false} FadeWhileShown(shots: seq<FadeShot>, count: nat, k: nat, n: nat, f: int)
    requires ShotsValid(shots, count) && k < n <= |shots| && Fades(shots[k], f) && shots[k].Valid(count)
    requires OnlyPainter(shots, k, f)
    ensures Shown(shots, count, n, f).desired == Some(shots[k].scales[f - shots[k].start])
    ensures Shown(shots, count, n, f).phase == PhaseOf(shots[k], f)
    decreases n
  {
    if k < n - 1 { FadeWhileShown(shots, count, k, n - 1, f); }
  }

  /** From the black frames before a shot to those after it, a frame that no other
      shot spans keeps the shot's reference. */
  lemma ReferenceHolds(shots: seq<FadeShot>, count: nat, k: nat, f: int)
    requires ShotsValid(shots, count) && k < |shots|
    requires (if shots[k].leftBlack.Some? then shots[k].leftBlack.value.start else shots[k].start) <= f
    requires f <= if shots[k].rightBlack.Some? then shots[k].rightBlack.value.end else shots[k].end
    requires forall i :: 0 <= i < |shots| && i != k ==> !Spans(shots[i], f)
    ensures Overlaid(shots, count, |shots|, f).reference == shots[k].reference
  {
    ReferenceWhileShown(shots, count, k, |shots|, f);
    ReferenceWhileOverlaid(shots, count, k, |shots|, f);
  }

  predicate Spans(s: FadeShot, f: int) { s.Anchor() <= f <= s.DisplayEnd() }

  lemma {:induction false} ReferenceWhileShown(shots: seq<FadeShot>, count: nat, k: nat, n: nat, f: int)
    requires ShotsValid(shots, count) && k < n <= |shots| && Spans(shots[k], f)
    requires forall i :: 0 <= i < |shots| && i != k ==> !Spans(shots[i], f)
    ensures Shown(shots, count, n, f).reference == shots[k].reference
    decreases n
  {
    if k < n - 1 {
      assert !Spans(shots[n - 1], f);
      ReferenceWhileShown(shots, count, k, n - 1, f);
    }
  }

  lemma {:induction false} ReferenceWhileOverlaid(shots: seq<FadeShot>, count: nat, k: nat, n: nat, f: int)
    requires ShotsValid(shots, count) && k < |shots| && n <= |shots|
    requires Shown(shots, count, |shots|, f).reference == shots[k].reference
    requires forall i :: 0 <= i < |shots| && i != k ==> !Spans(shots[i], f)
    ensures Overlaid(shots, count, n, f).reference == shots[k].reference
  {
    hide Shown;
    if n > 0 {
      assert shots[n - 1].Valid(count);
      ReferenceWhileOverlaid(shots, count, k, n - 1, f);
      if n - 1 != k { assert !Spans(shots[n - 1], f); }
    }
  }

  lemma {:induction false} NeverPrepared(shots: seq<FadeShot>, count: nat, n: nat, f: int)
    requires ShotsValid(shots, count) && n <= |shots| && forall i :: 0 <= i < |shots| ==> !Prepares(shots[i], f)
    ensures Overlaid(shots, count, n, f) == Shown(shots, count, |shots|, f)
  {
    hide Shown;
    if n > 0 { NeverPrepared(shots, count, n - 1, f); }
  }

  /** The black run that leads into a shot, or its first frame if none does. */
  predicate LeadsIn(s: FadeShot, f: int) {
    if s.leftBlack.Some? then s.leftBlack.value.start <= f <= s.leftBlack.value.end else f == s.start
  }

  lemma PreparesIs(s: FadeShot, f: int)
    ensures Prepares(s, f) <==> LeadsIn(s, f)
  {
  }

  /** A frame that leads into shots shows the reference of the last of them, at no CRAM scale. */
  lemma PreparationWins(shots: seq<FadeShot>, count: nat, k: nat, f: int)
    requires ShotsValid(shots, count) && k < |shots| && LeadsIn(shots[k], f)
    requires forall i :: k < i < |shots| ==> !LeadsIn(shots[i], f)
    ensures Overlaid(shots, count, |shots|, f) == Target(shots[k].reference, None, 0)
  {
    forall i | 0 <= i < |shots| ensures Prepares(shots[i], f) <==> LeadsIn(shots[i], f) { PreparesIs(shots[i], f); }
    PreparedLast(shots, count, k, |shots|, f);
  }

  lemma {:induction false} PreparedLast(shots: seq<FadeShot>, count: nat, k: nat, n: nat, f: int)
    requires ShotsValid(shots, count) && k < n <= |shots| && Prepares(shots[k], f)
    requires forall i :: k < i < n ==> !Prepares(shots[i], f)
    ensures Overlaid(shots, count, n, f) == Target(shots[k].reference, None, 0)
    decreases n
  {
    hide Shown, Prepares;
    if k < n - 1 { PreparedLast(shots, count, k, n - 1, f); }
  }

  predicate AnyPrepares(shots: seq<FadeShot>, f: int) { exists s :: s in shots && Prepares(s, f) }

  function Prepared(shots: seq<FadeShot>, count: nat): set<int> { set f | 0 <= f < count && AnyPrepares(shots, f) }

  /** Writes the three slices of one shot's fade. */
  method PaintShot(s: FadeShot, references: array<int>, desired: array<Option<real>>, phases: array<int>)
    requires references.Length == desired.Length == phases.Length && s.Valid(references.Length)
    requires references != phases
    modifies references, desired, phases
    ensures forall f :: 0 <= f < references.Length ==>
      references[f] == if s.Anchor() <= f <= s.DisplayEnd() then s.reference else old(references[f])
    ensures forall f :: 0 <= f < desired.Length ==>
      desired[f] == if InRun(f, s.rightBlack) then Some(0.0)
                    else if Fades(s, f) then Some(s.scales[f - s.start]) else old(desired[f])
    ensures forall f :: 0 <= f < phases.Length ==>
      phases[f] == if InRun(f, s.rightBlack) then 2 else if Fades(s, f) then PhaseOf(s, f) else old(phases[f])
  {
    forall f | s.Anchor() <= f < s.DisplayEnd() + 1 { references[f] := s.reference; }
    forall f | s.start <= f < s.end + 1 { desired[f] := Some(s.scales[f - s.start]); }
    if s.leftBlack.Some? && s.rightBlack.Some? {
      forall f | s.start <= f < s.peak + 1 { phases[f] := 1; }
      forall f | s.peak + 1 <= f < s.end + 1 { phases[f] := 2; }
    } else if s.leftBlack.Some? {
      forall f | s.start <= f < s.end + 1 { phases[f] := 1; }
    } else {
      forall f | s.start <= f < s.end + 1 { phases[f] := 2; }
    }
    if s.rightBlack.Some? {
      forall f | s.rightBlack.value.start <= f < s.rightBlack.value.end + 1 { desired[f] := Some(0.0); }
      forall f | s.rightBlack.value.start <= f < s.rightBlack.value.end + 1 { phases[f] := 2; }
    }
  }

  /** The last frame of the black run that leads into a shot. */
  function LastLeadIn(s: FadeShot): int { if s.leftBlack.Some? then s.leftBlack.value.end else s.start }

  lemma LeadIns(shots: seq<FadeShot>, count: nat, frames: set<int>, ends: set<int>)
    requires frames == Prepared(shots, count) && ends == set s | s in shots :: s.PreparationEnd()
    ensures forall f :: f in Frames(frames, count) <==> 0 <= f < count && exists s :: s in shots && LeadsIn(s, f)
    ensures ends == set s | s in shots :: LastLeadIn(s)
  {
    forall s ensures LastLeadIn(s) == s.PreparationEnd() {}
    forall f ensures f in Frames(frames, count) <==> 0 <= f < count && exists s :: s in shots && LeadsIn(s, f) {
      forall s ensures Prepares(s, f) <==> LeadsIn(s, f) { PreparesIs(s, f); }
      if f in Frames(frames, count) {
        assert f in frames;
      } else if 0 <= f < count {
        var k: nat := f;
        assert k !in frames;
      }
    }
  }

  /** Writes the three slices of one shot's preparation. */
  method ClaimBack(s: FadeShot, references: array<int>, desired: array<Option<real>>, phases: array<int>)
    requires references.Length == desired.Length == phases.Length && s.Valid(references.Length)
    requires references != phases
    modifies references, desired, phases
    ensures forall f :: 0 <= f < references.Length ==>
      references[f] == if Prepares(s, f) then s.reference else old(references[f])
    ensures forall f :: 0 <= f < desired.Length ==> desired[f] == if Prepares(s, f) then None else old(desired[f])
    ensures forall f :: 0 <= f < phases.Length ==> phases[f] == if Prepares(s, f) then 0 else old(phases[f])
  {
    forall f | s.Anchor() <= f < s.PreparationEnd() + 1 { desired[f] := None; }
    forall f | s.Anchor() <= f < s.PreparationEnd() + 1 { phases[f] := 0; }
    forall f | s.Anchor() <= f < s.PreparationEnd() + 1 { references[f] := s.reference; }
  }

  lemma OneValid(shots: seq<FadeShot>, count: nat, n: nat)
    requires ShotsValid(shots, count) && n < |shots|
    ensures shots[n].Valid(count)
  {
  }

  lemma NothingShown(shots: seq<FadeShot>, count: nat)
    requires ShotsValid(shots, count)
    ensures forall f :: Shown(shots, count, 0, f) == Target(-1, None, 0)
    ensures forall f :: Overlaid(shots, count, 0, f) == Shown(shots, count, |shots|, f)
    ensures Prepared(shots[..0], count) == {}
  {
    assert forall f :: !AnyPrepares([], f);
  }

  lemma ShownNext(shots: seq<FadeShot>, count: nat, n: nat)
    requires ShotsValid(shots, count) && n < |shots| && shots[n].Valid(count)
    ensures forall f ::
      var t, s := Shown(shots, count, n, f), shots[n];
      Shown(shots, count, n + 1, f)
        == Target(if s.Anchor() <= f <= s.DisplayEnd() then s.reference else t.reference,
                  if InRun(f, s.rightBlack) then Some(0.0)
                  else if Fades(s, f) then Some(s.scales[f - s.start]) else t.desired,
                  if InRun(f, s.rightBlack) then 2 else if Fades(s, f) then PhaseOf(s, f) else t.phase)
  {
    hide InRun, PhaseOf;
  }

  lemma OverlaidNext(shots: seq<FadeShot>, count: nat, n: nat)
    requires ShotsValid(shots, count) && n < |shots|
    ensures forall f ::
      Overlaid(shots, count, n + 1, f)
        == if Prepares(shots[n], f) then Target(shots[n].reference, None, 0) else Overlaid(shots, count, n, f)
  {
    hide Shown;
  }

  method OverlayShotTargets(shots: seq<FadeShot>, count: nat)
    returns (targets: seq<Target>, preparation: seq<int>, deadlines: seq<int>)
    requires ShotsValid(shots, count)
    ensures |targets| == count && forall f :: 0 <= f < count ==> targets[f] == Overlaid(shots, count, |shots|, f)
    ensures preparation == Frames(Prepared(shots, count), count)
    ensures forall f :: f in preparation <==> 0 <= f < count && exists s :: s in shots && LeadsIn(s, f)
    ensures deadlines == Frames(set s | s in shots :: LastLeadIn(s), count)
  {
    hide Frames, InRun, Fades, PhaseOf, Shown, Overlaid, Prepared, ShotsValid, LeadsIn, LastLeadIn;
    NothingShown(shots, count);
    var references, phases := new int[count](_ => -1), new int[count](_ => 0);
    var desired := new Option<real>[count](_ => None);
    var ends: set<int>, frames: set<int> := {}, {};
    for n := 0 to |shots|
      invariant forall f :: 0 <= f < count ==> Target(references[f], desired[f], phases[f]) == Shown(shots, count, n, f)
      invariant ends == set s | s in shots[..n] :: s.PreparationEnd()
    {
      OneValid(shots, count, n);
      ShownNext(shots, count, n);
      PaintShot(shots[n], references, desired, phases);
      ends := ends + {shots[n].PreparationEnd()};
      assert shots[..n + 1] == shots[..n] + [shots[n]];
    }
    for n := 0 to |shots|
      invariant forall f :: 0 <= f < count ==>
        Target(references[f], desired[f], phases[f]) == Overlaid(shots, count, n, f)
      invariant frames == Prepared(shots[..n], count)
    {
      var s := shots[n];
      OneValid(shots, count, n);
      OverlaidNext(shots, count, n);
      frames := frames + set f | s.Anchor() <= f < s.PreparationEnd() + 1 && Prepares(s, f);
      ClaimBack(s, references, desired, phases);
      PreparedNext(shots, count, n);
    }
    assert shots[..|shots|] == shots;
    targets := seq(count, f requires 0 <= f < count reads references, desired, phases =>
      Target(references[f], desired[f], phases[f]));
    preparation, deadlines := Frames(frames, count), Frames(ends, count);
    LeadIns(shots, count, frames, ends);
  }

  lemma PreparedNext(shots: seq<FadeShot>, count: nat, n: nat)
    requires ShotsValid(shots, count) && n < |shots|
    ensures var s := shots[n];
            Prepared(shots[..n + 1], count)
            == Prepared(shots[..n], count) + set f | s.Anchor() <= f < s.PreparationEnd() + 1 && Prepares(s, f)
  {
    assert shots[n].Valid(count);
    assert shots[..n + 1] == shots[..n] + [shots[n]];
    forall f ensures AnyPrepares(shots[..n + 1], f) <==> AnyPrepares(shots[..n], f) || Prepares(shots[n], f) {
      if AnyPrepares(shots[..n], f) {
        var s :| s in shots[..n] && Prepares(s, f);
        assert s in shots[..n + 1];
      }
      assert shots[n] in shots[..n + 1];
    }
  }
}
