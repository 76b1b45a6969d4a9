/** Which groups are chosen (tools/fade_frames.py,
    select_groups_with_segment_capacity): the groups that fade the most frames
    first, and each exactly if it fits beside those chosen before it. */
module FadeChoice {
  import opened FadeGroups
  import opened FadeSelection
  import opened Sorting

  /** The frames on which shots of the group fade. */
  ghost function FadedFrames(g: seq<FadeShot>): set<int> {
    set s, f | s in g && s.start <= f <= s.end && FadesOn(s, f) :: f
  }

  predicate FadesOn(s: FadeShot, f: int) { s.start <= f <= s.end }

  ghost function FramesOf(s: FadeShot): set<int> { set f | s.start <= f <= s.end && FadesOn(s, f) }

  /** h fades more frames than g, or as many and starts earlier. */
  ghost predicate Outlasts(h: Group, g: Group) {
    var m, n := |FadedFrames(h)|, |FadedFrames(g)|;
    m > n || (m == n && h[0].start < g[0].start)
  }

  /** The chosen groups that outlast g. */
  ghost predicate Ahead(chosen: seq<Group>, g: Group, ahead: seq<Group>) {
    forall h :: h in ahead <==> h in chosen && Outlasts(h, g)
  }

  /** With g and the groups ahead of it, and nothing else chosen, the palette
      boundaries stay within capacity. */
  ghost predicate FitsBehind(chosen: seq<Group>, g: Group, b0: set<int>, count: nat, capacity: int) {
    exists ahead, b :: Ahead(chosen, g, ahead) && Formed(b, b0, ahead + [g], count) && |b| <= capacity
  }

  lemma {:induction false} FramesCount(s: FadeShot)
    requires s.start <= s.end + 1
    ensures |FramesOf(s)| == s.end - s.start + 1
    decreases s.end - s.start
  {
    if s.start <= s.end {
      var t := s.(end := s.end - 1);
      FramesCount(t);
      forall f ensures f in FramesOf(s) <==> f in FramesOf(t) + {s.end} {
        assert FadesOn(s, f) <==> FadesOn(t, f) || f == s.end;
      }
      assert FramesOf(s) == FramesOf(t) + {s.end} && s.end !in FramesOf(t);
    } else {
      assert FramesOf(s) == {};
    }
  }

  /** The benefit that the choice sorts by is the number of faded frames. */
  lemma {:induction false} BenefitIsFaded(g: Group, count: nat)
    requires ValidGroup(g, count)
    ensures Benefit(g) == |FadedFrames(g)|
    decreases |g|
  {
    hide ValidGroup, FadedFrames, FramesOf;
    var last := Last(g);
    LastValid(g, count);
    FramesCount(last);
    if |g| == 1 {
      assert g[..0] == [] && Benefit(g[..0]) == 0;
      OneShotFades(g);
    } else {
      var init: Group := g[..|g| - 1];
      ValidFront(g, count);
      BenefitIsFaded(init, count);
      LastFadesApart(g, count);
    }
  }

  lemma LastValid(g: Group, count: nat)
    requires ValidGroup(g, count)
    ensures Last(g).Valid(count)
  {
  }

  lemma OneShotFades(g: Group)
    requires |g| == 1
    ensures FadedFrames(g) == FramesOf(Last(g))
  {
    forall f ensures f in FadedFrames(g) <==> f in FramesOf(g[0]) {
      if f in FramesOf(g[0]) { assert g[0] in g && FadesOn(g[0], f); }
    }
  }

  lemma LastFadesApart(g: Group, count: nat)
    requires ValidGroup(g, count) && |g| > 1
    ensures FadedFrames(g) == FadedFrames(g[..|g| - 1]) + FramesOf(Last(g))
    ensures FadedFrames(g[..|g| - 1]) !! FramesOf(Last(g))
  {
    var init, last := g[..|g| - 1], Last(g);
    assert g == init + [last];
    forall f ensures f in FadedFrames(g) <==> f in FadedFrames(init) + FramesOf(last) {
      if f in FramesOf(last) { assert last in g && FadesOn(last, f); }
      if f in FadedFrames(init) {
        var s :| s in init && s.start <= f <= s.end && FadesOn(s, f);
        assert s in g;
      }
    }
    forall f | f in FadedFrames(init) ensures f !in FramesOf(last) {
      var s :| s in init && s.start <= f <= s.end && FadesOn(s, f);
      var k :| 0 <= k < |init| && init[k] == s;
      GroupRises(g, count, k, |g| - 1);
      assert g[k].Valid(count);
    }
  }

  lemma ValidFront(g: Group, count: nat)
    requires ValidGroup(g, count) && |g| > 1
    ensures ValidGroup(g[..|g| - 1], count)
  {
    hide Joins;
    assert forall k :: 1 <= k < |g| - 1 ==> Joins(g[k - 1], g[k]);
  }

  lemma OutlastsIsKey(h: Group, g: Group, count: nat)
    requires ValidGroup(h, count) && ValidGroup(g, count)
    ensures Outlasts(h, g) <==> KeyBefore(ByBenefit(h), ByBenefit(g))
  {
    hide ValidGroup, FadedFrames, Benefit;
    BenefitIsFaded(h, count);
    BenefitIsFaded(g, count);
  }

  /** Groups apart in time start on different frames. */
  lemma StartsDiffer(gs: seq<Group>, count: nat, i: nat, j: nat)
    requires AllValid(gs, count) && Disjoint(gs) && i < j < |gs|
    ensures gs[i][0].start < gs[j][0].start && gs[i] != gs[j]
  {
    hide ValidGroup, RestoreOf, AnchorOf;
    assert RestoreOf(gs[i]) <= AnchorOf(gs[j]);
    StartsInside(gs[i], count, 0);
    StartsInside(gs[j], count, 0);
  }

  /** The order of choice names every connected group once, and no two with one start. */
  ghost predicate WellOrdered(order: seq<Group>, count: nat) {
    && Spread(order, count) && SortedBy(order, ByBenefit)
    && forall i, j :: 0 <= i < j < |order| ==> order[i] != order[j] && order[i][0].start != order[j][0].start
  }

  lemma OrderIsWell(shots: seq<FadeShot>, count: nat)
    requires ShotsValid(shots, count) && Disjoint(Connected(shots))
    ensures WellOrdered(Order(shots), count) && forall g :: g in Order(shots) <==> g in Connected(shots)
  {
    hide ShotsValid, Connected, SortBy, SortedBy, Disjoint, AllValid, Spread, ByBenefit;
    var gs, order := Connected(shots), Order(shots);
    ConnectedValid(shots, count);
    SortSorts(gs, ByBenefit);
    SortMembers(gs, ByBenefit);
    DisjointIsSpread(gs, order, count);
    forall i, j | 0 <= i < j < |gs| ensures gs[i] != gs[j] { StartsDiffer(gs, count, i, j); }
    StaysDistinct(gs, order);
    forall i, j | 0 <= i < j < |order| ensures order[i] != order[j] && order[i][0].start != order[j][0].start {
      assert order[i] in gs && order[j] in gs;
      var a :| 0 <= a < |gs| && gs[a] == order[i];
      var b :| 0 <= b < |gs| && gs[b] == order[j];
      if a < b { StartsDiffer(gs, count, a, b); } else { StartsDiffer(gs, count, b, a); }
    }
  }

  /** Later choices only add later groups. */
  lemma {:induction false} ChooseGrows(order: seq<Group>, b0: set<int>, count: nat, capacity: int, n: nat, m: nat)
    requires n <= m <= |order|
    ensures forall h :: h in Choose(order, b0, count, capacity, n).chosen ==>
              h in Choose(order, b0, count, capacity, m).chosen
    ensures forall h :: h in Choose(order, b0, count, capacity, m).chosen ==>
              h in Choose(order, b0, count, capacity, n).chosen || h in order[n..m]
    decreases m - n
  {
    hide Expanded;
    if n < m {
      ChooseGrows(order, b0, count, capacity, n, m - 1);
      assert order[n..m] == order[n..m - 1] + [order[m - 1]];
    }
  }

  /** Of the groups chosen in the end, those that outlast order[n] are those that
      were chosen before its turn. */
  lemma AheadIsEarlier(order: seq<Group>, b0: set<int>, count: nat, capacity: int, n: nat)
    requires WellOrdered(order, count) && n < |order|
    ensures Ahead(Choose(order, b0, count, capacity, |order|).chosen, order[n],
                  Choose(order, b0, count, capacity, n).chosen)
  {
    hide Spread, Choose, Outlasts, ByBenefit, ValidGroup;
    var early, all := Choose(order, b0, count, capacity, n).chosen, Choose(order, b0, count, capacity, |order|).chosen;
    ChooseGrows(order, b0, count, capacity, n, |order|);
    ChosenFrom(order, b0, count, capacity, n);
    forall h ensures h in early <==> h in all && Outlasts(h, order[n]) {
      if h in early {
        var k :| 0 <= k < n && order[k] == h;
        EarlierOutlasts(order, count, k, n);
      } else if h in all {
        assert h in order[n..];
        var k :| n <= k < |order| && order[k] == h;
        LaterDoesNot(order, count, n, k);
      }
    }
  }

  lemma ChosenFrom(order: seq<Group>, b0: set<int>, count: nat, capacity: int, n: nat)
    requires n <= |order|
    ensures forall h :: h in Choose(order, b0, count, capacity, n).chosen ==> exists k :: 0 <= k < n && order[k] == h
  {
    ChooseGrows(order, b0, count, capacity, 0, n);
    hide Choose;
    assert Choose(order, b0, count, capacity, 0).chosen == [] by { NoneChosen(order, b0, count, capacity); }
  }

  lemma NoneChosen(order: seq<Group>, b0: set<int>, count: nat, capacity: int)
    ensures Choose(order, b0, count, capacity, 0).chosen == []
  {
  }

  lemma EarlierOutlasts(order: seq<Group>, count: nat, k: nat, n: nat)
    requires WellOrdered(order, count) && k < n < |order|
    ensures Outlasts(order[k], order[n])
  {
    hide Outlasts, Benefit, ValidGroup, Apart;
    assert order[k] in order && order[n] in order;
    OutlastsIsKey(order[k], order[n], count);
    assert !KeyBefore(ByBenefit(order[n]), ByBenefit(order[k])) && order[k][0].start != order[n][0].start;
  }

  lemma LaterDoesNot(order: seq<Group>, count: nat, n: nat, k: nat)
    requires WellOrdered(order, count) && n <= k < |order|
    ensures !Outlasts(order[k], order[n])
  {
    if n < k {
      EarlierOutlasts(order, count, n, k);
    }
  }

  /** Main result: a connected group is chosen if and only if it fits beside the chosen
      groups that fade more frames, or as many from an earlier start. */
  lemma ChosenIff(shots: seq<FadeShot>, existing: set<int>, count: nat, capacity: int, g: Group)
    requires ShotsValid(shots, count) && Disjoint(Connected(shots)) && g in Connected(shots)
    ensures var chosen := Select(shots, existing, count, capacity).chosen;
            g in chosen <==> FitsBehind(chosen, g, Starting(existing, count), count, capacity)
  {
    hide ShotsValid, Disjoint, Connected, Order, WellOrdered, Choose, Starting;
    OrderIsWell(shots, count);
    var order := Order(shots);
    var n :| 0 <= n < |order| && order[n] == g;
    ChosenAt(order, Starting(existing, count), count, capacity, n);
  }

  lemma ChosenAt(order: seq<Group>, b0: set<int>, count: nat, capacity: int, n: nat)
    requires WellOrdered(order, count) && n < |order|
    ensures var chosen := Choose(order, b0, count, capacity, |order|).chosen;
            order[n] in chosen <==> FitsBehind(chosen, order[n], b0, count, capacity)
  {
    hide Spread, Formed, Expanded, Ahead, Choose, SortedBy;
    var g, c := order[n], Choose(order, b0, count, capacity, n);
    var chosen := Choose(order, b0, count, capacity, |order|).chosen;
    AheadIsEarlier(order, b0, count, capacity, n);
    ChooseFormed(order, b0, count, capacity, n);
    assert forall h :: h in order[..n] ==> h in order;
    SpreadFront(c.chosen + [g], order, count);
    FormedStep(c.boundaries, b0, c.chosen, g, count);
    var b := Expanded(c.boundaries, g, count);
    TurnOf(order, b0, count, capacity, n);
    if |b| <= capacity { assert FitsBehind(chosen, g, b0, count, capacity); }
    if FitsBehind(chosen, g, b0, count, capacity) {
      var ahead, b' :| Ahead(chosen, g, ahead) && Formed(b', b0, ahead + [g], count) && |b'| <= capacity;
      SameAhead(chosen, g, ahead, c.chosen);
      SameForm(b', b, b0, ahead + [g], c.chosen + [g], count);
    }
  }

  lemma SameAhead(chosen: seq<Group>, g: Group, a: seq<Group>, b: seq<Group>)
    requires Ahead(chosen, g, a) && Ahead(chosen, g, b)
    ensures forall h :: h in a + [g] <==> h in b + [g]
  {
  }

  /** A group is decided on its turn, once. */
  lemma TurnOf(order: seq<Group>, b0: set<int>, count: nat, capacity: int, n: nat)
    requires WellOrdered(order, count) && n < |order|
    ensures order[n] in Choose(order, b0, count, capacity, |order|).chosen
       <==> |Expanded(Choose(order, b0, count, capacity, n).boundaries, order[n], count)| <= capacity
  {
    hide Expanded, Spread, SortedBy;
    ChooseGrows(order, b0, count, capacity, n + 1, |order|);
    ChosenFrom(order, b0, count, capacity, n);
    forall k | n + 1 <= k < |order| ensures order[k] != order[n] {}
    forall k | 0 <= k < n ensures order[k] != order[n] {}
  }

  /** A group that is left out is never left out for one that fades fewer frames: it
      does not fit even beside those that fade at least as many. */
  lemma LeftOutDoesNotFit(shots: seq<FadeShot>, existing: set<int>, count: nat, capacity: int, g: Group, b: set<int>,
                          ahead: seq<Group>)
    requires ShotsValid(shots, count) && Disjoint(Connected(shots)) && g in Connected(shots)
    requires var chosen := Select(shots, existing, count, capacity).chosen;
             g !in chosen && Ahead(chosen, g, ahead) && Formed(b, Starting(existing, count), ahead + [g], count)
    ensures |b| > capacity
    ensures forall h :: h in ahead ==> |FadedFrames(h)| >= |FadedFrames(g)|
  {
    hide ShotsValid, Disjoint, Connected, Select, Starting, Formed;
    ChosenIff(shots, existing, count, capacity, g);
  }
}
