/** Fade shots and their connected groups (tools/fade_frames.py). */
module FadeGroups {
  import opened Arith
  import opened Sorting

  /** Inclusive frame range of black frames. */
  datatype BlackRun = BlackRun(start: int, end: int)

  datatype FadeShot = FadeShot(leftBlack: Option<BlackRun>, start: int, end: int, reference: int, peak: int,
                               rightBlack: Option<BlackRun>, scales: seq<real>)
  {
    /** First frame on which the reference can be prepared. */
    function Anchor(): int { if leftBlack.Some? then leftBlack.value.start else start }

    function PreparationEnd(): int { if leftBlack.Some? then leftBlack.value.end else start }

    function DisplayEnd(): int { if rightBlack.Some? then rightBlack.value.end else end }

    /** First frame after the shot's CRAM-only state. */
    function Restoration(): int { DisplayEnd() + 1 }

    function EntryScale(): real { if leftBlack.Some? then 0.0 else 1.0 }

    /** A shot as the detector makes them, inside a movie of `count` frames. */
    predicate Valid(count: int) {
      && 0 <= Anchor() <= PreparationEnd() <= start <= end <= DisplayEnd() < count
      && (leftBlack.Some? ==> leftBlack.value.end < start)
      && (rightBlack.Some? ==> end < rightBlack.value.start <= rightBlack.value.end)
      && 0 <= reference < count && start <= peak <= end && |scales| == end - start + 1
    }
  }

  const NO_SHOT := FadeShot(None, 0, 0, 0, 0, None, [])

  type Group = g: seq<FadeShot> | g != [] witness [NO_SHOT]

  // Groups

  /** The black run between two shots belongs to both. */
  predicate Joins(a: FadeShot, b: FadeShot) { a.rightBlack.Some? && a.rightBlack == b.leftBlack }

  function Last(g: Group): FadeShot { g[|g| - 1] }

  function Single(shot: FadeShot): Group { [shot] }

  function Extended(g: Group, shot: FadeShot): Group { g + [shot] }

  function AddShot(gs: seq<Group>, shot: FadeShot): seq<Group> {
    if gs != [] && Joins(Last(gs[|gs| - 1]), shot)
    then gs[..|gs| - 1] + [Extended(gs[|gs| - 1], shot)]
    else gs + [Single(shot)]
  }

  function Groups(ordered: seq<FadeShot>): seq<Group> {
    if ordered == [] then [] else AddShot(Groups(ordered[..|ordered| - 1]), ordered[|ordered| - 1])
  }

  function ByStartEnd(s: FadeShot): (int, int) { (s.start, s.end) }

  function Connected(shots: seq<FadeShot>): seq<Group> { Groups(SortBy(shots, ByStartEnd)) }

  method ConnectedGroups(shots: seq<FadeShot>) returns (groups: seq<Group>)
    ensures groups == Connected(shots)
  {
    hide SortBy, Joins;
    var ordered := SortBy(shots, ByStartEnd);
    groups := [];
    for i := 0 to |ordered|
      invariant groups == Groups(ordered[..i])
    {
      GroupsStep(ordered, i);
      var shot := ordered[i];
      if groups != [] && Joins(Last(groups[|groups| - 1]), shot) {
        groups := groups[..|groups| - 1] + [Extended(groups[|groups| - 1], shot)];
      } else {
        groups := groups + [Single(shot)];
      }
    }
    assert ordered[..|ordered|] == ordered;
  }

  lemma GroupsStep(ordered: seq<FadeShot>, i: nat)
    requires i < |ordered|
    ensures Groups(ordered[..i + 1]) == AddShot(Groups(ordered[..i]), ordered[i])
  {
    assert ordered[..i + 1][..i] == ordered[..i];
  }

  function Flatten(gs: seq<Group>): seq<FadeShot> {
    if gs == [] then [] else Flatten(gs[..|gs| - 1]) + gs[|gs| - 1]
  }

  ghost predicate Chained(g: Group) {
    forall k :: 1 <= k < |g| ==> Joins(g[k - 1], g[k])
  }

  ghost predicate AllChained(gs: seq<Group>) { forall i :: 0 <= i < |gs| ==> Chained(gs[i]) }

  /** Group i does not go on where group i - 1 ends. */
  ghost predicate Breaks(gs: seq<Group>, i: nat)
    requires 1 <= i < |gs|
  {
    !Joins(Last(gs[i - 1]), gs[i][0])
  }

  ghost predicate Maximal(gs: seq<Group>) { forall i :: 1 <= i < |gs| ==> Breaks(gs, i) }

  lemma FlattenLast(front: seq<Group>, g: Group)
    ensures Flatten(front + [g]) == Flatten(front) + g
  {
    assert (front + [g])[..|front|] == front;
  }

  lemma MaximalFront(front: seq<Group>, g: Group, h: Group)
    requires Maximal(front + [g]) && h[0] == g[0]
    ensures Maximal(front) && Maximal(front + [h])
  {
    hide Joins;
    forall i | 1 <= i < |front + [h]| ensures Breaks(front + [h], i) { assert Breaks(front + [g], i); }
    forall i | 1 <= i < |front| ensures Breaks(front, i) { assert Breaks(front + [g], i); }
  }

  lemma MaximalAppend(gs: seq<Group>, shot: FadeShot)
    requires Maximal(gs) && (gs != [] ==> !Joins(Last(gs[|gs| - 1]), shot))
    ensures Maximal(gs + [Single(shot)])
  {
    hide Joins;
    forall i | 1 <= i < |gs + [Single(shot)]| ensures Breaks(gs + [Single(shot)], i) {
      if i < |gs| { assert Breaks(gs, i); }
    }
  }

  /** Grouping keeps every shot, in order, and joins exactly the neighbours that
      share a black run. */
  lemma {:induction false} GroupsAre(ordered: seq<FadeShot>)
    ensures Flatten(Groups(ordered)) == ordered
    ensures AllChained(Groups(ordered)) && Maximal(Groups(ordered))
  {
    hide AddShot, Flatten, Maximal, AllChained;
    if ordered == [] {
      NoGroups();
    } else {
      GroupsAre(ordered[..|ordered| - 1]);
      ShotAdded(Groups(ordered[..|ordered| - 1]), ordered[|ordered| - 1]);
      assert ordered == ordered[..|ordered| - 1] + [ordered[|ordered| - 1]];
    }
  }

  lemma ShotAdded(was: seq<Group>, shot: FadeShot)
    requires AllChained(was) && Maximal(was)
    ensures Flatten(AddShot(was, shot)) == Flatten(was) + [shot]
    ensures AllChained(AddShot(was, shot)) && Maximal(AddShot(was, shot))
  {
    hide Joins, Flatten, Maximal, AllChained, AddShot;
    if was != [] && Joins(Last(was[|was| - 1]), shot) {
      var front, g := was[..|was| - 1], was[|was| - 1];
      assert was == front + [g];
      AddExtended(front, g, shot);
      FlattenLast(front, g);
      FlattenLast(front, Extended(g, shot));
      MaximalFront(front, g, Extended(g, shot));
      ChainedExtends(front, g, shot);
    } else {
      AddSingle(was, shot);
      FlattenLast(was, Single(shot));
      MaximalAppend(was, shot);
      ChainedAppend(was, shot);
    }
  }

  lemma ChainedExtends(front: seq<Group>, g: Group, shot: FadeShot)
    requires AllChained(front + [g]) && Joins(Last(g), shot)
    ensures AllChained(front + [Extended(g, shot)])
  {
    hide Joins;
    assert Chained((front + [g])[|front|]);
    assert Chained(Extended(g, shot)) by {
      forall k | 1 <= k < |g| + 1 ensures Joins(Extended(g, shot)[k - 1], Extended(g, shot)[k]) {
        if k < |g| { assert Joins(g[k - 1], g[k]); }
      }
    }
    hide Chained;
    forall i | 0 <= i < |front| + 1 ensures Chained((front + [Extended(g, shot)])[i]) {
      if i < |front| { assert Chained((front + [g])[i]); }
    }
  }

  lemma ChainedAppend(gs: seq<Group>, shot: FadeShot)
    requires AllChained(gs)
    ensures AllChained(gs + [Single(shot)])
  {
    hide Joins;
    assert Chained(Single(shot));
  }

  /** The connected groups hold the shots, each as often as detected, by start and
      then by end. */
  lemma ConnectedOrdered(shots: seq<FadeShot>)
    ensures var all := Flatten(Connected(shots));
            && multiset(all) == multiset(shots)
            && forall i, j :: 0 <= i < j < |all| ==>
                 all[i].start < all[j].start || (all[i].start == all[j].start && all[i].end <= all[j].end)
  {
    hide SortBy, Groups, Flatten, AllChained, Maximal;
    SortSorts(shots, ByStartEnd);
    var ordered := SortBy(shots, ByStartEnd);
    GroupsAre(ordered);
    forall i, j | 0 <= i < j < |ordered|
      ensures ordered[i].start < ordered[j].start
              || (ordered[i].start == ordered[j].start && ordered[i].end <= ordered[j].end)
    {
      assert !KeyBefore(ByStartEnd(ordered[j]), ByStartEnd(ordered[i]));
    }
  }

  lemma NoGroups()
    ensures Flatten([]) == [] && Maximal([]) && AllChained([]) && Groups([]) == []
  {
  }

  /** Those properties pin the grouping down. */
  lemma {:induction false} GroupsUnique(gs: seq<Group>)
    requires AllChained(gs) && Maximal(gs)
    ensures Groups(Flatten(gs)) == gs
    decreases |gs|, if gs == [] then 0 else |gs[|gs| - 1]|
  {
    hide Joins, Flatten, Maximal, Groups, AddShot;
    if gs == [] {
      NoGroups();
    } else {
      var front, g := gs[..|gs| - 1], gs[|gs| - 1];
      assert gs == front + [g] && Chained(g);
      MaximalFront(front, g, g);
      FlattenLast(front, g);
      if |g| == 1 {
        assert g == Single(g[0]);
        GroupsUnique(front);
        GroupsAppend(Flatten(front), g[0]);
        if front != [] { assert Breaks(gs, |front|) by { MaximalAt(gs, |front|); } }
        AddSingle(front, g[0]);
      } else {
        var h: Group := g[..|g| - 1];
        assert g == Extended(h, Last(g)) && Chained(h) && Joins(Last(h), Last(g));
        MaximalFront(front, g, h);
        GroupsUnique(front + [h]);
        FlattenLast(front, h);
        GroupsAppend(Flatten(front) + h, Last(g));
        assert Flatten(front) + h + [Last(g)] == Flatten(gs);
        AddExtended(front, h, Last(g));
      }
    }
  }

  lemma MaximalAt(gs: seq<Group>, i: nat)
    requires Maximal(gs) && 1 <= i < |gs|
    ensures Breaks(gs, i)
  {
  }

  lemma AddSingle(front: seq<Group>, shot: FadeShot)
    requires front != [] ==> !Joins(Last(front[|front| - 1]), shot)
    ensures AddShot(front, shot) == front + [Single(shot)]
  {
  }

  lemma AddExtended(front: seq<Group>, h: Group, shot: FadeShot)
    requires Joins(Last(h), shot)
    ensures AddShot(front + [h], shot) == front + [Extended(h, shot)]
  {
    hide Joins;
    assert (front + [h])[..|front|] == front;
  }

  lemma GroupsAppend(init: seq<FadeShot>, shot: FadeShot)
    ensures Groups(init + [shot]) == AddShot(Groups(init), shot)
  {
    assert (init + [shot])[..|init|] == init;
  }
}
