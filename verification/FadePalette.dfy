/** What the fade layout shows: the reference palette inside a selected group and
    the movie's own palette everywhere else (tools/fade_frames.py). */
module FadePalette {
  import opened FadeGroups
  import opened FadeSelection
  import opened FadeLayout

  /** The layout of a movie whose fade groups occupy disjoint frame ranges. */
  ghost predicate Sound(shots: seq<FadeShot>, original: seq<int>) {
    ShotsValid(shots, |original|) && Disjoint(Connected(shots)) && Forward(original) && original != []
  }

  ghost function Chosen(shots: seq<FadeShot>, original: seq<int>, capacity: int): seq<Group> {
    Select(shots, Boundaries(original), |original|, capacity).chosen
  }

  ghost function Kept(shots: seq<FadeShot>, original: seq<int>, capacity: int): seq<FadeShot> {
    Selected(shots, Boundaries(original), |original|, capacity)
  }

  ghost function Events(shots: seq<FadeShot>, original: seq<int>, capacity: int): set<int> {
    Rebuilt(Kept(shots, original, capacity), Boundaries(original), |original|)
  }

  /** What is known about the layout, gathered from the selection. */
  lemma Layouts(shots: seq<FadeShot>, original: seq<int>, capacity: int)
    requires Sound(shots, original)
    ensures var chosen, kept := Chosen(shots, original, capacity), Kept(shots, original, capacity);
            && Formed(Events(shots, original, capacity), Boundaries(original), chosen, |original|)
            && Spread(chosen, |original|) && ShotsValid(kept, |original|)
            && (forall s :: s in kept <==> exists g :: g in chosen && s in g)
  {
    hide Formed, Spread, Select, Selected, Rebuilt, Connected, Disjoint, AllValid, Boundaries;
    var b0, n := Boundaries(original), |original|;
    StartsAtZero(original);
    SelectionFormed(shots, b0, n, capacity);
    RebuildAgrees(shots, b0, n, capacity);
    SelectedAreShots(shots, b0, n, capacity);
  }

  lemma StartsAtZero(original: seq<int>)
    ensures Starting(Boundaries(original), |original|) == Boundaries(original)
  {
    if original != [] { assert Changes(original, 0); }
  }

  lemma AnchoredIs(kept: seq<FadeShot>, original: seq<int>, f: int)
    requires ShotsValid(kept, |original|)
    ensures AnchorEvent(kept, original, f).None? <==> forall s :: s in kept ==> s.Anchor() != f
    ensures AnchorEvent(kept, original, f).Some? ==>
      exists s :: s in kept && s.Anchor() == f && AnchorEvent(kept, original, f).value == ShotEvent(s, original)
  {
    if kept != [] {
      var front, s := kept[..|kept| - 1], kept[|kept| - 1];
      AnchoredIs(front, original, f);
      assert kept == front + [s] && s.Valid(|original|);
    }
  }

  /** What a shot's own segment shows. */
  function ShotEvent(s: FadeShot, original: seq<int>): Event {
    if 0 <= s.reference < |original| then Event(original[s.reference], s.EntryScale()) else Event(0, 0.0)
  }

  /** Every event inside a group is one of its anchors. */
  lemma EventsInside(b: set<int>, b0: set<int>, chosen: seq<Group>, count: nat, g: Group, e: int)
    requires Formed(b, b0, chosen, count) && Spread(chosen, count) && g in chosen && e in b && e in Replaced(g, count)
    ensures e in Anchors(g)
  {
    hide ValidGroup;
    assert Marked(e, chosen, count);
    var h :| h in chosen && e in EventFrames(h, count);
    if h != g {
      TouchesOnlyStart(g, h, count, e);
      FirstAnchor(g);
    }
  }

  /** The shots anchored at one frame are one shot. */
  lemma AnchorsDiffer(chosen: seq<Group>, count: nat, g: Group, k: nat, h: Group, s: FadeShot)
    requires Spread(chosen, count) && g in chosen && h in chosen && k < |g| && s in h && s.Anchor() == g[k].Anchor()
    ensures s == g[k]
  {
    var a := s.Anchor();
    assert g[k] in g && a in Anchors(g) && a in Anchors(h);
    AnchorsInside(g, count, a);
    AnchorsInside(h, count, a);
    if h == g {
      var m :| 0 <= m < |g| && g[m] == s;
      if m < k { AnchorsRise(g, count, m, k); }
      if k < m { AnchorsRise(g, count, k, m); }
    }
  }

  lemma AnchorsRise(g: Group, count: nat, i: nat, j: nat)
    requires ValidGroup(g, count) && i < j < |g|
    ensures g[i].Anchor() < g[j].Anchor()
  {
    assert g[i].Valid(count);
    GroupRises(g, count, i, j);
  }

  lemma StaysInside(g: Group, count: nat, k: nat, f: int)
    requires ValidGroup(g, count) && k < |g|
    requires g[k].Anchor() <= f < if k + 1 < |g| then g[k + 1].Anchor() else RestoreOf(g)
    ensures AnchorOf(g) <= g[k].Anchor() && f < RestoreOf(g)
    ensures forall m :: 0 <= m < |g| && g[m].Anchor() <= f ==> g[m].Anchor() <= g[k].Anchor()
  {
    assert g[k] in g;
    AnchorsInside(g, count, g[k].Anchor());
    if k + 1 < |g| {
      assert g[k + 1] in g;
      AnchorsInside(g, count, g[k + 1].Anchor());
    }
    forall m | 0 <= m < |g| && g[m].Anchor() <= f ensures g[m].Anchor() <= g[k].Anchor() {
      if m < k { AnchorsRise(g, count, m, k); }
      if k + 1 < m { AnchorsRise(g, count, k + 1, m); }
    }
  }

  /** From a shot's anchor up to the next shot's, or up to the group's restoration,
      the shot's own reference palette is in force. */
  lemma InsideShowsReference(shots: seq<FadeShot>, original: seq<int>, capacity: int, g: Group, k: nat, f: nat)
    requires Sound(shots, original) && g in Chosen(shots, original, capacity) && k < |g| && f < |original|
    requires g[k].Anchor() <= f < if k + 1 < |g| then g[k + 1].Anchor() else RestoreOf(g)
    ensures var kept, b := Kept(shots, original, capacity), Events(shots, original, capacity);
            && ShotsValid(kept, |original|) && 0 in b
            && EventAt(kept, original, LastEvent(b, f)) == ShotEvent(g[k], original)
  {
    hide Chosen, Kept, Events, Sound, Spread, Formed, ValidGroup;
    var n, chosen := |original|, Chosen(shots, original, capacity);
    var kept, b := Kept(shots, original, capacity), Events(shots, original, capacity);
    Layouts(shots, original, capacity);
    GroupOf(chosen, n, g);
    StaysInside(g, n, k, f);
    ZeroIsEvent(shots, original, capacity);
    var a := g[k].Anchor();
    AnchorIsEvent(b, Boundaries(original), chosen, n, g, k);
    var e := LastEvent(b, f);
    assert e in Replaced(g, n) by { assert Inside(e, g); }
    EventsInside(b, Boundaries(original), chosen, n, g, e);
    assert e == a;
    assert g[k] in kept;
    AnchoredIs(kept, original, a);
    var s :| s in kept && s.Anchor() == a && AnchorEvent(kept, original, a).value == ShotEvent(s, original);
    var h :| h in chosen && s in h;
    AnchorsDiffer(chosen, n, g, k, h, s);
  }

  /** On the black frames that lead into a selected shot and on its fade, the shot's own
      reference palette is in force: dark from the start if the shot fades in,
      at full scale otherwise. */
  lemma ShotPalette(shots: seq<FadeShot>, original: seq<int>, capacity: int, g: Group, k: nat, f: nat)
    requires Sound(shots, original) && g in Chosen(shots, original, capacity) && k < |g| && f < |original|
    requires (if g[k].leftBlack.Some? then g[k].leftBlack.value.start else g[k].start) <= f <= g[k].end
    ensures var kept, b := Kept(shots, original, capacity), Events(shots, original, capacity);
            && ShotsValid(kept, |original|) && 0 in b && 0 <= g[k].reference < |original|
            && EventAt(kept, original, LastEvent(b, f))
               == Event(original[g[k].reference], if g[k].leftBlack.Some? then 0.0 else 1.0)
  {
    hide Chosen, Kept, Events, Sound, EventAt, LastEvent;
    Layouts(shots, original, capacity);
    GroupOf(Chosen(shots, original, capacity), |original|, g);
    EndsInOwnPart(g, |original|, k);
    InsideShowsReference(shots, original, capacity, g, k, f);
  }

  lemma EndsInOwnPart(g: Group, count: nat, k: nat)
    requires ValidGroup(g, count) && k < |g|
    ensures g[k].end < (if k + 1 < |g| then g[k + 1].Anchor() else RestoreOf(g)) && 0 <= g[k].reference < count
  {
    assert g[k].Valid(count);
    if k + 1 < |g| {
      assert Joins(g[k], g[k + 1]) && g[k + 1].Valid(count);
    }
  }

  /** First frame of the black run that leads into the group, or of the fade. */
  function FirstDark(s: FadeShot): int { if s.leftBlack.Some? then s.leftBlack.value.start else s.start }

  /** Last frame of the black run the group ends in, or of the fade. */
  function LastDark(s: FadeShot): int { if s.rightBlack.Some? then s.rightBlack.value.end else s.end }

  lemma ReplacedIsDark(g: Group, count: nat, f: int)
    ensures f in Replaced(g, count) ==> FirstDark(g[0]) <= f <= LastDark(Last(g))
  {
    assert f in Replaced(g, count) ==> Inside(f, g);
  }

  /** Before, between and after the selected groups the movie keeps its own palette. */
  lemma BesideGroups(shots: seq<FadeShot>, original: seq<int>, capacity: int, f: nat)
    requires Sound(shots, original) && f < |original|
    requires forall g :: g in Chosen(shots, original, capacity) ==> f < FirstDark(g[0]) || f > LastDark(Last(g))
    ensures var kept, b := Kept(shots, original, capacity), Events(shots, original, capacity);
            && ShotsValid(kept, |original|) && 0 in b
            && EventAt(kept, original, LastEvent(b, f)) == Event(original[f], 1.0)
  {
    hide Chosen, Kept, Events, Sound, EventAt, LastEvent;
    forall g | g in Chosen(shots, original, capacity) ensures f !in Replaced(g, |original|) {
      ReplacedIsDark(g, |original|, f);
    }
    OutsideKeepsPalette(shots, original, capacity, f);
  }

  lemma GroupOf(chosen: seq<Group>, count: nat, g: Group)
    requires Spread(chosen, count) && g in chosen
    ensures ValidGroup(g, count)
  {
  }

  lemma AnchorIsEvent(b: set<int>, b0: set<int>, chosen: seq<Group>, count: nat, g: Group, k: nat)
    requires Formed(b, b0, chosen, count) && g in chosen && k < |g|
    ensures g[k].Anchor() in b
  {
    assert g[k] in g && g[k].Anchor() in EventFrames(g, count);
    assert Marked(g[k].Anchor(), chosen, count);
  }

  /** The layout starts with an event at frame 0. */
  lemma ZeroIsEvent(shots: seq<FadeShot>, original: seq<int>, capacity: int)
    requires Sound(shots, original)
    ensures 0 in Events(shots, original, capacity)
  {
    hide Chosen, Kept, Events, Formed, Spread, ValidGroup;
    var b, chosen, n := Events(shots, original, capacity), Chosen(shots, original, capacity), |original|;
    Layouts(shots, original, capacity);
    assert 0 in Boundaries(original) by { assert Changes(original, 0); }
    if g :| g in chosen && 0 in Replaced(g, n) {
      GroupOf(chosen, n, g);
      StartsNonNegative(g, n);
      AnchorIsEvent(b, Boundaries(original), chosen, n, g, 0);
    } else {
      assert Untouched(0, chosen, n);
      InForm(b, Boundaries(original), chosen, n, 0);
    }
  }

  lemma StartsNonNegative(g: Group, count: nat)
    requires ValidGroup(g, count)
    ensures AnchorOf(g) >= 0
  {
    assert g[0].Valid(count);
  }

  lemma InForm(b: set<int>, b0: set<int>, chosen: seq<Group>, count: nat, f: int)
    requires Formed(b, b0, chosen, count)
    ensures f in b <==> Marked(f, chosen, count) || (f in b0 && Untouched(f, chosen, count))
  {
  }

  /** A group that has replaced a frame before an outside frame has restored since. */
  lemma RestoredSince(b: set<int>, b0: set<int>, chosen: seq<Group>, count: nat, g: Group, x: int, f: nat)
    requires Formed(b, b0, chosen, count) && g in chosen && x in Replaced(g, count)
    requires x <= f < count && f !in Replaced(g, count)
    ensures x < RestoreOf(g) <= f && RestoreOf(g) in b
  {
    assert Inside(x, g);
    assert !Inside(f, g);
    assert RestoreOf(g) in EventFrames(g, count);
    assert Marked(RestoreOf(g), chosen, count);
  }

  lemma {:induction false} Constant(original: seq<int>, e: nat, f: nat)
    requires e <= f < |original| && forall x :: e < x <= f ==> !Changes(original, x)
    ensures original[e] == original[f]
    decreases f - e
  {
    if e < f {
      assert !Changes(original, f);
      Constant(original, e, f - 1);
    }
  }

  /** Outside every selected group, the palette in force is the movie's own, at
      full scale. */
  lemma OutsideKeepsPalette(shots: seq<FadeShot>, original: seq<int>, capacity: int, f: nat)
    requires Sound(shots, original) && f < |original|
    requires Untouched(f, Chosen(shots, original, capacity), |original|)
    ensures var kept, b := Kept(shots, original, capacity), Events(shots, original, capacity);
            && ShotsValid(kept, |original|) && 0 in b
            && EventAt(kept, original, LastEvent(b, f)) == Event(original[f], 1.0)
  {
    hide Chosen, Kept, Events, Sound, Spread, Formed, ValidGroup, Replaced, Boundaries, EventFrames;
    var n, chosen, b0 := |original|, Chosen(shots, original, capacity), Boundaries(original);
    var kept, b := Kept(shots, original, capacity), Events(shots, original, capacity);
    Layouts(shots, original, capacity);
    ZeroIsEvent(shots, original, capacity);
    var e := LastEvent(b, f);
    forall g | g in chosen ensures e !in Replaced(g, n) {
      if e in Replaced(g, n) {
        RestoredSince(b, b0, chosen, n, g, e, f);
      }
    }
    forall s | s in kept ensures s.Anchor() != e {
      var g :| g in chosen && s in g;
      GroupOf(chosen, n, g);
      AnchorReplaced(g, n, s);
    }
    AnchoredIs(kept, original, e);
    forall x | e < x <= f ensures !Changes(original, x) {
      if Changes(original, x) {
        ChangeIsBoundary(original, x);
        InForm(b, b0, chosen, n, x);
        if !Untouched(x, chosen, n) {
          var g :| g in chosen && x in Replaced(g, n);
          RestoredSince(b, b0, chosen, n, g, x, f);
        }
      }
    }
    Constant(original, e, f);
  }

  lemma AnchorReplaced(g: Group, count: nat, s: FadeShot)
    requires ValidGroup(g, count) && s in g
    ensures s.Anchor() in Replaced(g, count)
  {
    AnchorsInside(g, count, s.Anchor());
    assert Inside(s.Anchor(), g);
  }

  lemma ChangeIsBoundary(original: seq<int>, x: int)
    requires Changes(original, x)
    ensures x in Boundaries(original)
  {
  }

  /** A movie that starts within capacity, or that one group alone brings within
      capacity, never trips the closing capacity check; every other movie does. */
  lemma LayoutFits(shots: seq<FadeShot>, original: seq<int>, capacity: int)
    requires Sound(shots, original)
    ensures |Events(shots, original, capacity)| > capacity
       <==> AllTooMany(Connected(shots), Boundaries(original), |original|, capacity)
  {
    hide Rebuilt, Select, Selected, Boundaries, Connected, AllTooMany;
    StartsAtZero(original);
    CapacityCheck(shots, Boundaries(original), |original|, capacity);
  }

  /** The least movie that trips it: two segments, no fades, room for one. */
  lemma UnfadedOverflow()
    ensures Sound([], [0, 1])
    ensures AllTooMany(Connected([]), Boundaries([0, 1]), 2, 1) && |Events([], [0, 1], 1)| > 1
  {
    assert Boundaries([0, 1]) == {0, 1} by { assert Changes([0, 1], 0) && Changes([0, 1], 1); }
    assert Connected([]) == [];
    LayoutFits([], [0, 1], 1);
  }
}
