/** build_layout of tools/fade_frames.py: palette segments laid over the selected
    fade groups. */
module FadeLayout {
  import opened Arith
  import opened FadeGroups
  import opened FadeSelection

  /** A palette segment's source segment and its entry scale. */
  datatype Event = Event(source: int, scale: real)

  datatype Layout = Layout(shots: seq<FadeShot>, segments: seq<int>, sources: seq<int>, scales: seq<real>)

  /** Frame segments move forward only, from segment zero. */
  predicate Forward(original: seq<int>) {
    (original != [] ==> original[0] == 0) && forall f :: 1 <= f < |original| ==> original[f - 1] <= original[f]
  }

  lemma {:induction false} ForwardFrom(original: seq<int>, i: nat, j: nat)
    requires Forward(original) && i <= j < |original|
    ensures original[i] <= original[j]
    decreases j - i
  {
    if i < j { ForwardFrom(original, i, j - 1); }
  }

  /** Segments that never go back and start at zero; nothing else is asked of them. */
  lemma ForwardIs(original: seq<int>)
    ensures Forward(original) <==>
              && (forall i, j :: 0 <= i <= j < |original| ==> original[i] <= original[j])
              && (|original| > 0 ==> original[0] == 0)
  {
    if Forward(original) {
      forall i, j | 0 <= i <= j < |original| ensures original[i] <= original[j] { ForwardFrom(original, i, j); }
    }
  }

  predicate Changes(original: seq<int>, f: int) {
    0 <= f < |original| && (f == 0 || original[f] != original[f - 1])
  }

  function Boundaries(original: seq<int>): set<int> { set f | 0 <= f < |original| && Changes(original, f) }

  /** The old boundaries are the frames on which a segment appears for the first time. */
  lemma BoundariesAreFirsts(original: seq<int>)
    requires Forward(original)
    ensures forall f :: f in Boundaries(original) <==>
              0 <= f < |original| && forall e :: 0 <= e < f ==> original[e] != original[f]
  {
    forall f | 0 <= f < |original|
      ensures f in Boundaries(original) <==> forall e :: 0 <= e < f ==> original[e] != original[f]
    {
      forall e | 0 <= e < f ensures original[e] <= original[f - 1] <= original[f] {
        ForwardFrom(original, e, f - 1);
      }
    }
  }

  /** There is one boundary for each segment that occurs. */
  lemma {:induction false} OneBoundaryEach(original: seq<int>)
    requires Forward(original)
    ensures |Boundaries(original)| == |Occurring(original)|
  {
    hide Boundaries, Occurring;
    if original == [] {
      NoBoundary(original);
    } else {
      var init := original[..|original| - 1];
      OneBoundaryEach(init);
      OneMoreBoundary(original, init);
      if original[|init|] in Occurring(init) { assert Occurring(original) == Occurring(init); }
    }
  }

  function Occurring(original: seq<int>): set<int> { set x | x in original }

  lemma NoBoundary(original: seq<int>)
    requires original == []
    ensures Boundaries(original) == Occurring(original) == {}
  {
  }

  lemma OneMoreBoundary(original: seq<int>, init: seq<int>)
    requires Forward(original) && original != [] && init == original[..|original| - 1]
    ensures |init| !in Boundaries(init) && Occurring(original) == Occurring(init) + {original[|init|]}
    ensures original[|init|] in Occurring(init) ==> Boundaries(original) == Boundaries(init)
    ensures original[|init|] !in Occurring(init) ==> Boundaries(original) == Boundaries(init) + {|init|}
  {
    hide Forward, Boundaries;
    var n := |init|;
    LastBoundary(original, n);
    OneMoreOccurs(original, n);
    EarlierBoundary(original, n, n);
    forall f ensures f in Boundaries(original) <==>
      f in Boundaries(init) || (f == n && original[n] !in Occurring(init))
    {
      EarlierBoundary(original, n, f);
    }
    if original[n] in Occurring(init) {
      assert Boundaries(original) == Boundaries(init);
    } else {
      assert Boundaries(original) == Boundaries(init) + {|init|};
    }
  }

  lemma OneMoreOccurs(original: seq<int>, n: nat)
    requires n == |original| - 1
    ensures Occurring(original) == Occurring(original[..n]) + {original[n]}
  {
    assert original == original[..n] + [original[n]];
  }

  lemma LastBoundary(original: seq<int>, n: nat)
    requires Forward(original) && n == |original| - 1
    ensures n in Boundaries(original) <==> original[n] !in Occurring(original[..n])
  {
    hide Forward, Boundaries;
    BoundariesAreFirsts(original);
    if n !in Boundaries(original) {
      var e :| 0 <= e < n && original[e] == original[n];
      assert original[..n][e] == original[n];
    }
  }

  lemma EarlierBoundary(original: seq<int>, n: nat, f: int)
    requires n == |original| - 1
    ensures f in Boundaries(original) && f != n <==> f in Boundaries(original[..n])
    ensures n !in Boundaries(original[..n])
  {
  }

  /** The event of the last shot in the list that is anchored at the frame. */
  function AnchorEvent(selected: seq<FadeShot>, original: seq<int>, f: int): Option<Event>
    requires ShotsValid(selected, |original|)
  {
    if selected == [] then None
    else
      var n := |selected| - 1;
      assert selected[n].Valid(|original|);
      if selected[n].Anchor() == f then Some(Event(original[selected[n].reference], selected[n].EntryScale()))
      else AnchorEvent(selected[..n], original, f)
  }

  /** What a segment that starts at frame f shows. */
  function EventAt(selected: seq<FadeShot>, original: seq<int>, f: nat): Event
    requires ShotsValid(selected, |original|) && f < |original|
  {
    var anchored := AnchorEvent(selected, original, f);
    if anchored.Some? then anchored.value else Event(original[f], 1.0)
  }

  /** The frames of b below n, in order. */
  function Frames(b: set<int>, n: nat): (s: seq<nat>)
    ensures forall k :: 0 <= k < |s| ==> s[k] in b && s[k] < n
    ensures forall f: nat :: f in b && f < n ==> f in s
  {
    if n == 0 then [] else Frames(b, n - 1) + if n - 1 in b then [n - 1] else []
  }

  /** The segment of frame f: one less than the number of events up to it. */
  function SegmentOf(b: set<int>, f: nat): int { Max(0, |Frames(b, f + 1)| - 1) }

  /** The event in force at frame f. */
  function LastEvent(b: set<int>, f: nat): (e: nat)
    requires 0 in b
    ensures e in b && e <= f && forall k: nat :: k in b && k <= f ==> k <= e
  {
    if f in b then f else assert f > 0; LastEvent(b, f - 1)
  }

  lemma {:induction false} FramesUpTo(b: set<int>, n: nat, m: nat)
    requires n <= m
    ensures |Frames(b, n)| <= |Frames(b, m)| && Frames(b, m)[..|Frames(b, n)|] == Frames(b, n)
    ensures |Frames(b, n)| < |Frames(b, m)| ==> Frames(b, m)[|Frames(b, n)|] >= n
    decreases m - n
  {
    if n < m { FramesUpTo(b, n, m - 1); }
  }

  lemma {:induction false} FramesCount(b: set<int>, n: nat)
    requires forall f :: f in b ==> 0 <= f < n
    ensures |Frames(b, n)| == |b|
    decreases n
  {
    if n > 0 {
      var rest := b - {n - 1};
      FramesCount(rest, n - 1);
      SameFrames(b, rest, n - 1);
      if n - 1 in b { assert b == rest + {n - 1}; } else { assert b == rest; }
    }
  }

  lemma {:induction false} SameFrames(a: set<int>, b: set<int>, n: nat)
    requires forall f :: 0 <= f < n ==> (f in a <==> f in b)
    ensures Frames(a, n) == Frames(b, n)
  {
    if n > 0 { SameFrames(a, b, n - 1); }
  }

  lemma {:induction false} FramesRise(b: set<int>, n: nat)
    ensures forall i, j :: 0 <= i < j < |Frames(b, n)| ==> Frames(b, n)[i] < Frames(b, n)[j]
  {
    if n > 0 { FramesRise(b, n - 1); }
  }

  /** Segments start at zero and rise by one exactly at the events. */
  lemma SegmentsRise(b: set<int>, f: nat)
    requires 0 in b
    ensures SegmentOf(b, 0) == 0
    ensures SegmentOf(b, f + 1) == SegmentOf(b, f) + if f + 1 in b then 1 else 0
  {
    assert Frames(b, 1) == Frames(b, 0) + [0];
    FramesUpTo(b, 1, f + 1);
  }

  /** The segment's first frame is the event in force. */
  lemma {:induction false} SegmentStarts(b: set<int>, f: nat, n: nat)
    requires 0 in b && f < n
    ensures SegmentOf(b, f) < |Frames(b, n)| && Frames(b, n)[SegmentOf(b, f)] == LastEvent(b, f)
  {
    hide Frames, SegmentOf;
    if f in b {
      StartsHere(b, f, n);
    } else {
      assert LastEvent(b, f) == LastEvent(b, f - 1);
      SegmentStarts(b, f - 1, n);
      SameSegment(b, f);
    }
  }

  lemma StartsHere(b: set<int>, f: nat, n: nat)
    requires f in b && f < n
    ensures SegmentOf(b, f) < |Frames(b, n)| && Frames(b, n)[SegmentOf(b, f)] == f
  {
    assert Frames(b, f + 1) == Frames(b, f) + [f];
    FramesUpTo(b, f + 1, n);
    hide Frames;
    assert Frames(b, n)[..|Frames(b, f + 1)|][|Frames(b, f)|] == f;
  }

  lemma SameSegment(b: set<int>, f: nat)
    requires f > 0 && f !in b
    ensures SegmentOf(b, f) == SegmentOf(b, f - 1)
  {
    assert Frames(b, f + 1) == Frames(b, f);
  }

  // build_layout

  ghost predicate Pictured(events: map<int, Event>, keys: set<int>, selected: seq<FadeShot>, original: seq<int>)
    requires ShotsValid(selected, |original|)
  {
    && events.Keys == keys
    && forall f :: f in events ==> 0 <= f < |original| && events[f] == EventAt(selected, original, f)
  }

  /** The layout's tables follow the rebuilt boundaries. */
  ghost predicate LaidOut(l: Layout, original: seq<int>, b: set<int>)
    requires ShotsValid(l.shots, |original|)
  {
    var frames := Frames(b, |original|);
    && |l.segments| == |original| && (forall f :: 0 <= f < |original| ==> l.segments[f] == SegmentOf(b, f))
    && |l.sources| == |l.scales| == |frames| == |b|
    && (forall s :: 0 <= s < |frames| ==> Event(l.sources[s], l.scales[s]) == EventAt(l.shots, original, frames[s]))
  }

  method BuildEvents(selected: seq<FadeShot>, original: seq<int>) returns (events: map<int, Event>)
    requires ShotsValid(selected, |original|)
    ensures Pictured(events, Rebuilt(selected, Boundaries(original), |original|), selected, original)
  {
    hide Connected, Boundaries, Replaced, EventAt, Anchors, ShotsValid;
    NothingAnchored(original);
    var count, boundaries := |original|, Boundaries(original);
    BoundariesInside(original);
    events := map f | f in boundaries :: Event(original[f], 1.0);
    var groups := ConnectedGroups(selected);
    ConnectedValid(selected, count);
    for i := 0 to |groups|
      invariant events.Keys == Cleared(boundaries, groups, count, i)
      invariant forall f :: f in events ==> 0 <= f < count && events[f] == Event(original[f], 1.0)
    {
      var group := groups[i];
      RestoreInside(group, count);
      var gone := Replaced(group, count);
      var restore := RestoreOf(group);
      events := map f | f in events && f !in gone :: events[f];
      if restore < count { events := events[restore := Event(original[restore], 1.0)]; }
    }
    for i := 0 to |selected|
      invariant events.Keys == Cleared(boundaries, groups, count, |groups|) + Anchors(selected[..i])
      invariant ShotsValid(selected[..i], count)
      invariant forall f :: f in events ==> 0 <= f < count && events[f] == EventAt(selected[..i], original, f)
    {
      var shot := selected[i];
      AnchorNext(selected, original, i);
      events := events[shot.Anchor() := Event(original[shot.reference], shot.EntryScale())];
      forall f | f in events ensures 0 <= f < count && events[f] == EventAt(selected[..i + 1], original, f) {
        AnchoredNext(selected, original, i, f);
      }
    }
    assert selected[..|selected|] == selected;
  }

  lemma NothingAnchored(original: seq<int>)
    ensures ShotsValid([], |original|) && Anchors([]) == {}
    ensures forall f :: 0 <= f < |original| ==> EventAt([], original, f) == Event(original[f], 1.0)
  {
  }

  lemma BoundariesInside(original: seq<int>)
    ensures forall f :: f in Boundaries(original) ==> 0 <= f < |original|
  {
  }

  lemma RestoreInside(g: Group, count: nat)
    requires ValidGroup(g, count)
    ensures 0 <= RestoreOf(g)
  {
    assert Last(g).Valid(count);
  }

  lemma AnchorNext(selected: seq<FadeShot>, original: seq<int>, i: nat)
    requires ShotsValid(selected, |original|) && i < |selected|
    ensures ShotsValid(selected[..i], |original|) && ShotsValid(selected[..i + 1], |original|)
    ensures 0 <= selected[i].Anchor() < |original| && 0 <= selected[i].reference < |original|
    ensures Anchors(selected[..i + 1]) == Anchors(selected[..i]) + {selected[i].Anchor()}
  {
    assert selected[i].Valid(|original|);
    assert selected[..i + 1] == selected[..i] + [selected[i]];
  }

  lemma AnchoredNext(selected: seq<FadeShot>, original: seq<int>, i: nat, f: nat)
    requires ShotsValid(selected, |original|) && i < |selected| && f < |original|
    requires ShotsValid(selected[..i], |original|) && ShotsValid(selected[..i + 1], |original|)
    requires 0 <= selected[i].reference < |original|
    ensures EventAt(selected[..i + 1], original, f)
         == if f == selected[i].Anchor() then Event(original[selected[i].reference], selected[i].EntryScale())
            else EventAt(selected[..i], original, f)
  {
    assert selected[..i + 1][..i] == selected[..i];
  }

  method BuildLayout(shots: seq<FadeShot>, original: seq<int>, maxSegments: int) returns (r: Result<Layout>)
    requires ShotsValid(shots, |original|)
    ensures r.Ok? <==>
              && Forward(original) && maxSegments > 0
              && |Rebuilt(Selected(shots, Boundaries(original), |original|, maxSegments),
                          Boundaries(original), |original|)| <= maxSegments
    ensures r.Ok? ==>
              && r.value.shots == Selected(shots, Boundaries(original), |original|, maxSegments)
              && ShotsValid(r.value.shots, |original|)
              && LaidOut(r.value, original, Rebuilt(r.value.shots, Boundaries(original), |original|))
  {
    hide Boundaries, Selected, Rebuilt, ShotsValid, EventAt, Frames, SegmentOf;
    var count := |original|;
    if !Forward(original) { return Err("frame segments must be forward-only from segment zero"); }
    var boundaries := Boundaries(original);
    BoundariesInside(original);
    var selection := SelectGroups(shots, boundaries, count, maxSegments);
    if selection.Err? { return Err(selection.message); }
    var selected := selection.value;
    SelectedAreShots(shots, boundaries, count, maxSegments);
    KeepsValid(shots, selected, count);
    var events := BuildEvents(selected, original);
    ghost var b := Rebuilt(selected, boundaries, count);
    assert forall f :: f in b ==> f in events;
    FramesCount(b, count);
    FramesRise(b, count);
    var ordered := Frames(events.Keys, count);
    var segments, sources, scales := FillSegments(ordered, events, count);
    if |sources| > maxSegments { return Err("selected fade layout exceeds palette capacity"); }
    SegmentsAre(b, count, segments);
    r := Ok(Layout(selected, segments, sources, scales));
  }

  lemma KeepsValid(shots: seq<FadeShot>, selected: seq<FadeShot>, count: nat)
    requires ShotsValid(shots, count) && forall s :: s in selected ==> s in shots
    ensures ShotsValid(selected, count)
  {
  }

  lemma SegmentsAre(b: set<int>, count: nat, segments: seq<int>)
    requires |segments| == count
    requires var ordered := Frames(b, count);
             && (forall s, f :: 0 <= s < |ordered|
                                && ordered[s] <= f < (if s + 1 < |ordered| then ordered[s + 1] else count) ==>
                   segments[f] == s)
             && (forall f :: 0 <= f < count && (ordered == [] || f < ordered[0]) ==> segments[f] == 0)
    ensures forall f :: 0 <= f < count ==> segments[f] == SegmentOf(b, f)
  {
    var ordered := Frames(b, count);
    forall f | 0 <= f < count ensures segments[f] == SegmentOf(b, f) {
      var upTo := Frames(b, f + 1);
      FramesUpTo(b, f + 1, count);
      if upTo == [] {
        assert ordered == [] || ordered[0] >= f + 1;
      } else {
        var s := |upTo| - 1;
        assert ordered[..|upTo|][s] == upTo[s] <= f;
        assert s + 1 < |ordered| ==> ordered[s + 1] >= f + 1;
        assert segments[f] == s;
      }
    }
  }

  /** The frame_segments loop: each event claims the frames up to the next one. */
  method FillSegments(ordered: seq<nat>, events: map<int, Event>, count: nat)
    returns (segments: seq<int>, sources: seq<int>, scales: seq<real>)
    requires forall s :: 0 <= s < |ordered| ==> ordered[s] in events && ordered[s] < count
    requires forall i, j :: 0 <= i < j < |ordered| ==> ordered[i] < ordered[j]
    ensures |segments| == count && |sources| == |scales| == |ordered|
    ensures forall s :: 0 <= s < |ordered| ==> Event(sources[s], scales[s]) == events[ordered[s]]
    ensures forall s, f :: 0 <= s < |ordered|
                           && ordered[s] <= f < (if s + 1 < |ordered| then ordered[s + 1] else count) ==>
      segments[f] == s
    ensures forall f :: 0 <= f < count && (ordered == [] || f < ordered[0]) ==> segments[f] == 0
  {
    var frame := new int[count](_ => 0);
    sources, scales := [], [];
    for s := 0 to |ordered|
      invariant |sources| == |scales| == s
      invariant forall k :: 0 <= k < s ==> Event(sources[k], scales[k]) == events[ordered[k]]
      invariant forall k, f :: 0 <= k < s && ordered[k] <= f < (if k + 1 < |ordered| then ordered[k + 1] else count) ==>
        frame[f] == k
      invariant forall f :: 0 <= f < count && (ordered == [] || f < ordered[0]) ==> frame[f] == 0
    {
      var end := if s + 1 < |ordered| then ordered[s + 1] else count;
      forall f | ordered[s] <= f < end { frame[f] := s; }
      sources := sources + [events[ordered[s]].source];
      scales := scales + [events[ordered[s]].scale];
    }
    segments := frame[..];
  }
}
