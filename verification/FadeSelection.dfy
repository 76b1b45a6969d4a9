/** Which fade groups fit the palette tables, and whether rebuilding the layout
    from the selected shots gives the boundaries the selection counted
    (tools/fade_frames.py). */
module FadeSelection {
  import opened Arith
  import opened FadeGroups
  import opened Sorting

  function ByStart(s: FadeShot): (int, int) { (s.start, 0) }

  function Benefit(g: seq<FadeShot>): int {
    if g == [] then 0 else Benefit(g[..|g| - 1]) + g[|g| - 1].end - g[|g| - 1].start + 1
  }

  function ByBenefit(g: Group): (int, int) { (-Benefit(g), g[0].start) }

  function AnchorOf(g: Group): int
  {
    g[0].Anchor()
  }

  function RestoreOf(g: Group): int
  {
    Last(g).Restoration()
  }

  function Anchors(shots: seq<FadeShot>): set<int> { set s | s in shots :: s.Anchor() }

  function Restores(g: Group, count: nat): set<int>
  {
    if RestoreOf(g) < count then {RestoreOf(g)} else {}
  }

  /** Frames where a selected group starts a palette segment. */
  function EventFrames(g: Group, count: nat): set<int>
  {
    Anchors(g) + Restores(g, count)
  }

  predicate Inside(f: int, g: Group) { AnchorOf(g) <= f < RestoreOf(g) }

  /** Frames of the group, whose earlier boundaries it replaces. */
  function Replaced(g: Group, count: nat): set<int>
  {
    set f | AnchorOf(g) <= f < Min(RestoreOf(g), count) && Inside(f, g)
  }

  function Expanded(b: set<int>, g: Group, count: nat): set<int>
  {
    (b - Replaced(g, count)) + EventFrames(g, count)
  }

  // select_groups_with_segment_capacity

  datatype Selection = Selection(boundaries: set<int>, chosen: seq<Group>)

  /** The first n groups of the order, each taken whole if its boundaries fit. */
  function Choose(order: seq<Group>, b0: set<int>, count: nat, capacity: int, n: nat): Selection
    requires n <= |order|
  {
    if n == 0 then Selection(b0, [])
    else
      var c := Choose(order, b0, count, capacity, n - 1);
      var expanded := Expanded(c.boundaries, order[n - 1], count);
      if |expanded| > capacity then c else Selection(expanded, c.chosen + [order[n - 1]])
  }

  function Order(shots: seq<FadeShot>): seq<Group> { SortBy(Connected(shots), ByBenefit) }

  function Starting(existing: set<int>, count: nat): set<int> { existing + if count > 0 then {0} else {} }

  function Select(shots: seq<FadeShot>, existing: set<int>, count: nat, capacity: int): Selection {
    Choose(Order(shots), Starting(existing, count), count, capacity, |Order(shots)|)
  }

  function Selected(shots: seq<FadeShot>, existing: set<int>, count: nat, capacity: int): seq<FadeShot> {
    SortBy(Flatten(Select(shots, existing, count, capacity).chosen), ByStart)
  }

  method SelectGroups(shots: seq<FadeShot>, existing: set<int>, frameCount: int, maxSegments: int)
    returns (r: Result<seq<FadeShot>>)
    ensures r.Ok? <==> frameCount >= 0 && maxSegments > 0 && forall f :: f in existing ==> 0 <= f < frameCount
    ensures r.Ok? ==> r.value == Selected(shots, existing, frameCount, maxSegments)
  {
    hide Expanded, Order, SortBy;
    if frameCount < 0 || maxSegments <= 0 { return Err("frame_count must be non-negative and max_segments positive"); }
    var count: nat := frameCount;
    var boundaries := existing;
    if count > 0 { boundaries := boundaries + {0}; }
    if exists f :: f in boundaries && !(0 <= f < count) {
      return Err("existing palette boundary is outside the movie");
    }
    var order := Order(shots);
    var selected: seq<FadeShot> := [];
    for i := 0 to |order|
      invariant boundaries == Choose(order, Starting(existing, count), count, maxSegments, i).boundaries
      invariant selected == Flatten(Choose(order, Starting(existing, count), count, maxSegments, i).chosen)
    {
      var expanded := Expanded(boundaries, order[i], count);
      if |expanded| > maxSegments { continue; }
      FlattenLast(Choose(order, Starting(existing, count), count, maxSegments, i).chosen, order[i]);
      boundaries := expanded;
      selected := selected + order[i];
    }
    r := Ok(SortBy(selected, ByStart));
  }

  // The boundaries build_layout rebuilds

  /** Old boundaries inside each group go, its restoring boundary comes. */
  function Cleared(b: set<int>, gs: seq<Group>, count: nat, n: nat): set<int>
    requires n <= |gs|
  {
    if n == 0 then b else (Cleared(b, gs, count, n - 1) - Replaced(gs[n - 1], count)) + Restores(gs[n - 1], count)
  }

  function Rebuilt(selected: seq<FadeShot>, b0: set<int>, count: nat): set<int> {
    Cleared(b0, Connected(selected), count, |Connected(selected)|) + Anchors(selected)
  }

  // What a set of groups does to the boundaries, whatever the order

  ghost predicate ValidGroup(g: Group, count: nat) {
    Chained(g) && forall k :: 0 <= k < |g| ==> g[k].Valid(count)
  }

  ghost predicate Apart(g: Group, h: Group)
  {
    RestoreOf(g) <= AnchorOf(h) || RestoreOf(h) <= AnchorOf(g)
  }

  /** Valid groups no two of which share frames. */
  ghost predicate Spread(gs: seq<Group>, count: nat) {
    && (forall g :: g in gs ==> ValidGroup(g, count))
    && forall g, h :: g in gs && h in gs && g != h ==> Apart(g, h)
  }

  ghost predicate Marked(f: int, gs: seq<Group>, count: nat)
  {
    exists g :: g in gs && f in EventFrames(g, count)
  }

  ghost predicate Untouched(f: int, gs: seq<Group>, count: nat)
  {
    forall g :: g in gs ==> f !in Replaced(g, count)
  }

  /** Boundaries are the groups' events and the old boundaries outside the groups. */
  ghost predicate Formed(b: set<int>, b0: set<int>, gs: seq<Group>, count: nat)
  {
    forall f :: f in b <==> Marked(f, gs, count) || (f in b0 && Untouched(f, gs, count))
  }

  /** Within a group, starts and anchors rise, inside the group's frames. */
  lemma {:induction false} GroupRises(g: Group, count: nat, i: nat, j: nat)
    requires ValidGroup(g, count) && i < j < |g|
    ensures g[i].DisplayEnd() < g[j].start && g[i].start < g[j].Anchor()
    decreases j - i
  {
    assert Joins(g[j - 1], g[j]) && g[j - 1].Valid(count) && g[j].Valid(count);
    if i < j - 1 { GroupRises(g, count, i, j - 1); }
  }

  lemma AnchorsInside(g: Group, count: nat, f: int)
    requires ValidGroup(g, count) && f in Anchors(g)
    ensures AnchorOf(g) <= f < RestoreOf(g) && f < count && AnchorOf(g) in Anchors(g)
  {
    var k :| 0 <= k < |g| && g[k].Anchor() == f;
    assert g[0].Valid(count) && g[k].Valid(count) && Last(g).Valid(count);
    if k > 0 { GroupRises(g, count, 0, k); }
    if k < |g| - 1 { GroupRises(g, count, k, |g| - 1); }
    assert g[0] in g;
  }

  /** One more group, apart from the others, in closed form. */
  lemma FormedStep(b: set<int>, b0: set<int>, gs: seq<Group>, g: Group, count: nat)
    requires Spread(gs + [g], count) && Formed(b, b0, gs, count)
    ensures Formed(Expanded(b, g, count), b0, gs + [g], count)
  {
    hide Chained;
    var e, all := Expanded(b, g, count), gs + [g];
    assert g in all;
    forall f ensures f in e <==> Marked(f, all, count) || (f in b0 && Untouched(f, all, count)) {
      FormedAt(b, b0, gs, g, count, f);
    }
  }

  lemma FormedAt(b: set<int>, b0: set<int>, gs: seq<Group>, g: Group, count: nat, f: int)
    requires Spread(gs + [g], count)
    requires f in b <==> Marked(f, gs, count) || (f in b0 && Untouched(f, gs, count))
    ensures f in Expanded(b, g, count) <==> Marked(f, gs + [g], count) || (f in b0 && Untouched(f, gs + [g], count))
  {
    hide ValidGroup, EventFrames, Replaced;
    var all := gs + [g];
    assert g in all;
    if h :| h in gs && f in EventFrames(h, count) {
      assert h in all;
      if f in Replaced(g, count) && h != g { TouchesOnlyStart(g, h, count, f); }
    }
    assert Untouched(f, all, count) <==> Untouched(f, gs, count) && f !in Replaced(g, count);
  }

  /** The only event of another group inside this one is at its first frame. */
  lemma TouchesOnlyStart(g: Group, h: Group, count: nat, f: int)
    requires ValidGroup(g, count) && ValidGroup(h, count) && Apart(g, h)
    requires f in EventFrames(h, count) && f in Replaced(g, count)
    ensures f == RestoreOf(h) == AnchorOf(g) && f in EventFrames(g, count)
  {
    FirstAnchor(g);
    FirstAnchor(h);
    AnchorsInside(h, count, AnchorOf(h));
    if f in Anchors(h) { AnchorsInside(h, count, f); }
  }

  lemma FirstAnchor(g: Group)
    ensures AnchorOf(g) in Anchors(g)
  {
    assert g[0] in g;
  }

  lemma SpreadFront(gs: seq<Group>, all: seq<Group>, count: nat)
    requires Spread(all, count) && forall g :: g in gs ==> g in all
    ensures Spread(gs, count)
  {
    hide Apart;
  }

  lemma {:induction false} ChooseFormed(order: seq<Group>, b0: set<int>, count: nat, capacity: int, n: nat)
    requires Spread(order, count) && n <= |order|
    ensures var c := Choose(order, b0, count, capacity, n);
            && (forall g :: g in c.chosen ==> g in order[..n])
            && Formed(c.boundaries, b0, c.chosen, count)
  {
    hide Spread, Expanded, Formed;
    if n == 0 {
      NothingFormed(b0, count);
    } else {
      ChooseFormed(order, b0, count, capacity, n - 1);
      var c, g := Choose(order, b0, count, capacity, n - 1), order[n - 1];
      assert forall h :: h in order[..n - 1] ==> h in order[..n];
      assert g in order[..n];
      SpreadFront(c.chosen + [g], order, count);
      FormedStep(c.boundaries, b0, c.chosen, g, count);
    }
  }

  lemma NothingFormed(b0: set<int>, count: nat)
    ensures Formed(b0, b0, [], count)
  {
  }

  /** Clearing group by group and adding all anchors afterwards comes to the same. */
  lemma {:induction false} ClearedFormed(b0: set<int>, gs: seq<Group>, count: nat, n: nat)
    requires Spread(gs, count) && n <= |gs|
    ensures Formed(Cleared(b0, gs, count, n) + Anchors(Flatten(gs[..n])), b0, gs[..n], count)
  {
    hide Formed, Spread, Chained;
    if n == 0 {
      NothingFormed(b0, count);
      assert gs[..0] == [] && Anchors(Flatten([])) == {};
      assert Cleared(b0, gs, count, 0) + Anchors(Flatten(gs[..0])) == b0;
    } else {
      ClearedFormed(b0, gs, count, n - 1);
      var was, g := gs[..n - 1], gs[n - 1];
      assert gs[..n] == was + [g];
      SpreadFront(was + [g], gs, count);
      FormedStep(Cleared(b0, gs, count, n - 1) + Anchors(Flatten(was)), b0, was, g, count);
      FlattenLast(was, g);
      AnchorsSurvive(Cleared(b0, gs, count, n - 1), was, g, count);
    }
  }

  /** No earlier anchor lies in frames a later group clears, unless it is the same
      group listed twice. */
  lemma AnchorsSurvive(c: set<int>, was: seq<Group>, g: Group, count: nat)
    requires Spread(was + [g], count)
    ensures Expanded(c + Anchors(Flatten(was)), g, count)
         == (c - Replaced(g, count)) + Restores(g, count) + Anchors(Flatten(was) + g)
  {
    hide Chained;
    forall f | f in Anchors(Flatten(was)) && f in Replaced(g, count) ensures f in Anchors(g) {
      var s :| s in Flatten(was) && s.Anchor() == f;
      FlattenMembers(was, s);
      var h :| h in was && s in h;
      assert h in was + [g] && g in was + [g];
      assert f in Anchors(h);
      if h != g { TouchesOnlyStart(g, h, count, f); AnchorsInside(h, count, f); }
    }
    assert Anchors(Flatten(was) + g) == Anchors(Flatten(was)) + Anchors(g);
  }

  lemma {:induction false} FlattenMembers(gs: seq<Group>, s: FadeShot)
    ensures s in Flatten(gs) <==> exists g :: g in gs && s in g
  {
    if gs != [] {
      var front, g := gs[..|gs| - 1], gs[|gs| - 1];
      FlattenMembers(front, s);
      assert gs == front + [g];
    }
  }

  // Regrouping the selected shots

  /** The groups of gs that were chosen, in time order. */
  function Keep(gs: seq<Group>, chosen: seq<Group>): seq<Group> {
    if gs == [] then []
    else Keep(gs[..|gs| - 1], chosen) + if gs[|gs| - 1] in chosen then [gs[|gs| - 1]] else []
  }

  /** Connected groups occupy disjoint frame ranges. */
  ghost predicate Disjoint(gs: seq<Group>) {
    forall i, j :: 0 <= i < j < |gs| ==> RestoreOf(gs[i]) <= AnchorOf(gs[j])
  }

  ghost predicate AllValid(gs: seq<Group>, count: nat) { forall i :: 0 <= i < |gs| ==> ValidGroup(gs[i], count) }

  ghost predicate StartsUp(s: seq<FadeShot>) { forall i, j :: 0 <= i < j < |s| ==> s[i].start < s[j].start }

  /** All starts of the list come before the frame. */
  ghost predicate StartsBefore(s: seq<FadeShot>, f: int) { forall x :: x in s ==> x.start < f }

  lemma {:induction false} KeepIs(gs: seq<Group>, chosen: seq<Group>, count: nat)
    requires AllValid(gs, count) && Disjoint(gs)
    ensures AllValid(Keep(gs, chosen), count) && Disjoint(Keep(gs, chosen))
    ensures forall g :: g in Keep(gs, chosen) <==> g in gs && g in chosen
  {
    hide ValidGroup, RestoreOf, AnchorOf;
    if gs != [] {
      var front, last := gs[..|gs| - 1], gs[|gs| - 1];
      KeepIs(front, chosen, count);
      assert gs == front + [last];
      forall g | g in Keep(front, chosen) ensures RestoreOf(g) <= AnchorOf(last) {
        var k :| 0 <= k < |front| && front[k] == g;
      }
    }
  }

  lemma {:induction false} FlattenRises(gs: seq<Group>, count: nat)
    requires AllValid(gs, count) && Disjoint(gs)
    ensures StartsUp(Flatten(gs))
    ensures gs != [] ==> StartsBefore(Flatten(gs), RestoreOf(gs[|gs| - 1]))
  {
    hide ValidGroup;
    if gs != [] {
      var front, g := gs[..|gs| - 1], gs[|gs| - 1];
      FlattenRises(front, count);
      forall k | 0 <= k < |g| ensures AnchorOf(g) <= g[k].start < RestoreOf(g) { StartsInside(g, count, k); }
      forall i, j | 0 <= i < j < |g| ensures g[i].start < g[j].start {
        GroupRises(g, count, i, j);
        StartsInside(g, count, i);
      }
      if front != [] { assert RestoreOf(front[|front| - 1]) <= AnchorOf(g); }
    }
  }

  lemma StartsInside(g: Group, count: nat, k: nat)
    requires ValidGroup(g, count) && k < |g|
    ensures AnchorOf(g) <= g[k].start < RestoreOf(g)
    ensures g[k].start <= g[k].DisplayEnd()
  {
    assert g[0].Valid(count) && g[k].Valid(count) && Last(g).Valid(count);
    if k > 0 { GroupRises(g, count, 0, k); }
    if k < |g| - 1 { GroupRises(g, count, k, |g| - 1); }
  }

  /** Sorting by start leaves no choice when all starts differ. */
  lemma {:induction false} SortedUnique(a: seq<FadeShot>, b: seq<FadeShot>)
    requires SortedBy(a, ByStart) && StartsUp(b) && multiset(a) == multiset(b)
    ensures a == b
  {
    hide SortedBy, StartsUp, ByStart;
    SameSize(a, b);
    if a != [] {
      var x, y := a[|a| - 1], b[|b| - 1];
      LastIsLatest(a, b, x, y);
      DropLast(a);
      DropLast(b);
      SortedBound(a, ByStart);
      RisesFront(b);
      SortedUnique(a[..|a| - 1], b[..|b| - 1]);
      assert a == a[..|a| - 1] + [x] && b == b[..|b| - 1] + [y];
    }
  }

  lemma SameSize<T(!new)>(a: seq<T>, b: seq<T>)
    requires multiset(a) == multiset(b)
    ensures |a| == |b|
  {
    assert |multiset(a)| == |a| && |multiset(b)| == |b|;
  }

  lemma DropLast<T(!new)>(s: seq<T>)
    requires s != []
    ensures multiset(s[..|s| - 1]) == multiset(s) - multiset{s[|s| - 1]}
  {
    assert s == s[..|s| - 1] + [s[|s| - 1]];
  }

  lemma RisesFront(b: seq<FadeShot>)
    requires StartsUp(b) && b != []
    ensures StartsUp(b[..|b| - 1])
  {
  }

  lemma LastIsLatest(a: seq<FadeShot>, b: seq<FadeShot>, x: FadeShot, y: FadeShot)
    requires SortedBy(a, ByStart) && StartsUp(b) && multiset(a) == multiset(b) && a != [] && b != []
    requires x == a[|a| - 1] && y == b[|b| - 1]
    ensures x == y
  {
    assert x in multiset(b) && y in multiset(a);
    var k :| 0 <= k < |b| && b[k] == x;
    var m :| 0 <= m < |a| && a[m] == y;
    assert m < |a| - 1 ==> !KeyBefore(ByStart(x), ByStart(y));
    if k < |b| - 1 { assert false; }
  }

  lemma {:induction false} FlattenPermuted(a: seq<Group>, b: seq<Group>)
    requires multiset(a) == multiset(b)
    ensures multiset(Flatten(a)) == multiset(Flatten(b))
  {
    hide Flatten;
    if a == [] {
      assert |multiset(b)| == |b|;
    } else {
      var front, g := a[..|a| - 1], a[|a| - 1];
      assert a == front + [g];
      var k := PlaceIn(b, g);
      Without(b, k);
      DropLast(a);
      FlattenPermuted(front, b[..k] + b[k + 1..]);
      FlattenRemoved(b, k);
      FlattenLast(front, g);
    }
  }

  lemma PlaceIn<T(!new)>(s: seq<T>, x: T) returns (k: nat)
    requires x in multiset(s)
    ensures k < |s| && s[k] == x
  {
    assert x in s;
    k :| k < |s| && s[k] == x;
  }

  lemma Without<T(!new)>(s: seq<T>, k: nat)
    requires k < |s|
    ensures multiset(s[..k] + s[k + 1..]) == multiset(s) - multiset{s[k]}
  {
    assert s == s[..k] + [s[k]] + s[k + 1..];
  }

  lemma {:induction false} FlattenRemoved(b: seq<Group>, k: nat)
    requires k < |b|
    ensures multiset(Flatten(b)) == multiset(Flatten(b[..k] + b[k + 1..])) + multiset(b[k])
  {
    hide Flatten;
    var front, last := b[..|b| - 1], b[|b| - 1];
    assert b == front + [last];
    FlattenLast(front, last);
    if k == |b| - 1 {
      assert b[..k] + b[k + 1..] == front;
    } else {
      FlattenRemoved(front, k);
      assert b[..k] + b[k + 1..] == (front[..k] + front[k + 1..]) + [last];
      FlattenLast(front[..k] + front[k + 1..], last);
    }
  }

  /** Each group is chosen at most once. */
  lemma {:induction false} ChosenOnce(order: seq<Group>, b0: set<int>, count: nat, capacity: int, n: nat)
    requires n <= |order|
    ensures multiset(Choose(order, b0, count, capacity, n).chosen) <= multiset(order[..n])
  {
    hide Expanded;
    if n > 0 {
      ChosenOnce(order, b0, count, capacity, n - 1);
      assert order[..n] == order[..n - 1] + [order[n - 1]];
    }
  }

  /** Only detected shots are selected. */
  lemma SelectedAreShots(shots: seq<FadeShot>, existing: set<int>, count: nat, capacity: int)
    ensures forall s :: s in Selected(shots, existing, count, capacity) ==> s in shots
  {
    hide Choose, Groups, SortBy, SortedBy, Flatten, Maximal, AllChained;
    var order, gs := Order(shots), Connected(shots);
    var chosen := Select(shots, existing, count, capacity).chosen;
    ChosenOnce(order, Starting(existing, count), count, capacity, |order|);
    assert order[..|order|] == order;
    SortMembers(gs, ByBenefit);
    SortMembers(shots, ByStartEnd);
    SortMembers(Flatten(chosen), ByStart);
    GroupsAre(SortBy(shots, ByStartEnd));
    forall s | s in Flatten(chosen) ensures s in shots {
      FlattenMembers(chosen, s);
      var g :| g in chosen && s in g;
      assert g in multiset(chosen);
      assert g in multiset(order);
      assert g in order && g in gs;
      FlattenMembers(gs, s);
    }
  }

  lemma DisjointOnce(gs: seq<Group>, count: nat, g: Group)
    requires AllValid(gs, count) && Disjoint(gs)
    ensures multiset(gs)[g] <= 1
  {
    hide ValidGroup, RestoreOf, AnchorOf;
    forall i, j | 0 <= i < j < |gs| ensures gs[i] != gs[j] {
      assert RestoreOf(gs[i]) <= AnchorOf(gs[j]);
      StartsInside(gs[i], count, 0);
    }
    if g in gs {
      var k :| 0 <= k < |gs| && gs[k] == g;
      OnceIn(gs, k);
    }
  }

  lemma KeptAreChosen(gs: seq<Group>, chosen: seq<Group>, count: nat)
    requires AllValid(gs, count) && Disjoint(gs) && multiset(chosen) <= multiset(gs)
    ensures multiset(Keep(gs, chosen)) == multiset(chosen)
  {
    hide ValidGroup, Disjoint, Keep;
    KeepIs(gs, chosen, count);
    forall g ensures multiset(Keep(gs, chosen))[g] == multiset(chosen)[g] {
      DisjointOnce(gs, count, g);
      DisjointOnce(Keep(gs, chosen), count, g);
      assert g in chosen <==> g in multiset(chosen);
      assert g in multiset(gs) <==> g in gs;
      assert g in Keep(gs, chosen) <==> g in multiset(Keep(gs, chosen));
    }
  }

  /** Groups apart in time do not join. */
  lemma DisjointIsMaximal(gs: seq<Group>, count: nat)
    requires AllValid(gs, count) && Disjoint(gs)
    ensures Maximal(gs) && AllChained(gs)
  {
    forall i | 1 <= i < |gs| ensures Breaks(gs, i) {
      assert RestoreOf(gs[i - 1]) <= AnchorOf(gs[i]);
      assert ValidGroup(gs[i], count) && gs[i][0].Valid(count);
    }
  }

  ghost predicate ShotsValid(shots: seq<FadeShot>, count: nat) { forall s :: s in shots ==> s.Valid(count) }

  lemma ConnectedValid(shots: seq<FadeShot>, count: nat)
    requires ShotsValid(shots, count)
    ensures AllValid(Connected(shots), count)
  {
    hide SortBy, Groups;
    SortMembers(shots, ByStartEnd);
    GroupsAre(SortBy(shots, ByStartEnd));
    var gs := Connected(shots);
    forall i | 0 <= i < |gs| ensures ValidGroup(gs[i], count) {
      forall k | 0 <= k < |gs[i]| ensures gs[i][k].Valid(count) {
        assert gs[i] in gs && gs[i][k] in gs[i];
        FlattenMembers(gs, gs[i][k]);
      }
      assert Chained(gs[i]);
    }
  }

  /** The selected shots regroup into exactly the chosen groups. */
  lemma Regrouped(gs: seq<Group>, chosen: seq<Group>, count: nat)
    requires AllValid(gs, count) && Disjoint(gs) && multiset(chosen) <= multiset(gs)
    ensures SortBy(Flatten(chosen), ByStart) == Flatten(Keep(gs, chosen))
    ensures Connected(SortBy(Flatten(chosen), ByStart)) == Keep(gs, chosen)
  {
    hide Disjoint, AllValid, SortedBy, SortBy, Maximal, AllChained, Groups, Keep, Flatten, StartsUp;
    var kept := Keep(gs, chosen);
    KeepIs(gs, chosen, count);
    KeptAreChosen(gs, chosen, count);
    FlattenPermuted(kept, chosen);
    FlattenRises(kept, count);
    SortSorts(Flatten(chosen), ByStart);
    SortedUnique(SortBy(Flatten(chosen), ByStart), Flatten(kept));
    RisesIsSorted(Flatten(kept));
    SortedStays(Flatten(kept), ByStartEnd);
    DisjointIsMaximal(kept, count);
    GroupsUnique(kept);
  }

  lemma RisesIsSorted(s: seq<FadeShot>)
    requires StartsUp(s)
    ensures SortedBy(s, ByStartEnd)
  {
  }

  lemma DisjointIsSpread(gs: seq<Group>, order: seq<Group>, count: nat)
    requires AllValid(gs, count) && Disjoint(gs) && forall g :: g in order ==> g in gs
    ensures Spread(order, count)
  {
    hide ValidGroup, RestoreOf, AnchorOf;
    forall g, h | g in order && h in order && g != h ensures Apart(g, h) {
      var i :| 0 <= i < |gs| && gs[i] == g;
      var j :| 0 <= j < |gs| && gs[j] == h;
      if i < j { assert RestoreOf(gs[i]) <= AnchorOf(gs[j]); } else { assert RestoreOf(gs[j]) <= AnchorOf(gs[i]); }
    }
  }

  /** The selection in closed form: it keeps the old boundaries outside the chosen
      groups and adds those groups' events. */
  lemma SelectionFormed(shots: seq<FadeShot>, existing: set<int>, count: nat, capacity: int)
    requires ShotsValid(shots, count) && Disjoint(Connected(shots))
    ensures var c := Select(shots, existing, count, capacity);
            && Formed(c.boundaries, Starting(existing, count), c.chosen, count) && Spread(c.chosen, count)
            && multiset(c.chosen) <= multiset(Connected(shots)) && AllValid(Connected(shots), count)
            && forall s :: s in Selected(shots, existing, count, capacity) <==> exists g :: g in c.chosen && s in g
  {
    hide Disjoint, AllValid, ShotsValid, SortBy, SortedBy, Spread, Connected, Choose, Formed, Flatten, Starting;
    var gs, order, b0 := Connected(shots), Order(shots), Starting(existing, count);
    ConnectedValid(shots, count);
    SortMembers(gs, ByBenefit);
    SortSorts(gs, ByBenefit);
    DisjointIsSpread(gs, order, count);
    ChooseFormed(order, b0, count, capacity, |order|);
    ChosenOnce(order, b0, count, capacity, |order|);
    assert order[..|order|] == order;
    var chosen := Choose(order, b0, count, capacity, |order|).chosen;
    SpreadFront(chosen, order, count);
    SortMembers(Flatten(chosen), ByStart);
    forall s ensures s in Flatten(chosen) <==> exists g :: g in chosen && s in g { FlattenMembers(chosen, s); }
  }

  /** Main result: when the connected groups occupy disjoint frame ranges, the
      layout's own rebuild has exactly the boundaries the selection counted. */
  lemma RebuildAgrees(shots: seq<FadeShot>, existing: set<int>, count: nat, capacity: int)
    requires ShotsValid(shots, count) && Disjoint(Connected(shots))
    ensures Rebuilt(Selected(shots, existing, count, capacity), Starting(existing, count), count)
         == Select(shots, existing, count, capacity).boundaries
  {
    hide Disjoint, AllValid, ShotsValid, SortBy, Spread, Connected, Keep, Select, Formed, Flatten, Cleared, Starting;
    var gs, b0, c := Connected(shots), Starting(existing, count), Select(shots, existing, count, capacity);
    SelectionFormed(shots, existing, count, capacity);
    Regrouped(gs, c.chosen, count);
    var kept := Keep(gs, c.chosen);
    KeepIs(gs, c.chosen, count);
    DisjointIsSpread(gs, kept, count);
    ClearedFormed(b0, kept, count, |kept|);
    assert kept[..|kept|] == kept;
    assert forall g :: g in kept <==> g in c.chosen by { KeptMembers(gs, c.chosen); }
    SameForm(Rebuilt(Selected(shots, existing, count, capacity), b0, count), c.boundaries, b0, kept, c.chosen, count);
  }

  lemma KeptMembers(gs: seq<Group>, chosen: seq<Group>)
    requires multiset(chosen) <= multiset(gs)
    ensures forall g :: g in chosen ==> g in gs
  {
    forall g | g in chosen ensures g in gs {
      assert g in multiset(chosen);
      assert g in multiset(gs);
    }
  }

  lemma SameForm(b: set<int>, c: set<int>, b0: set<int>, gs: seq<Group>, hs: seq<Group>, count: nat)
    requires Formed(b, b0, gs, count) && Formed(c, b0, hs, count) && forall g :: g in gs <==> g in hs
    ensures b == c
  {
    hide EventFrames, Replaced;
    forall f ensures f in b <==> f in c {
      assert Marked(f, gs, count) <==> Marked(f, hs, count);
      assert Untouched(f, gs, count) <==> Untouched(f, hs, count);
    }
  }

  lemma {:induction false} ChooseFits(order: seq<Group>, b0: set<int>, count: nat, capacity: int, n: nat)
    requires n <= |order|
    ensures var c := Choose(order, b0, count, capacity, n);
            if c.chosen == [] then c.boundaries == b0 else |c.boundaries| <= capacity
  {
    hide Expanded;
    if n > 0 { ChooseFits(order, b0, count, capacity, n - 1); }
  }

  /** Nothing is selected exactly when no group fits beside the old boundaries alone. */
  lemma {:induction false} NothingChosen(order: seq<Group>, b0: set<int>, count: nat, capacity: int, n: nat)
    requires n <= |order|
    ensures var c := Choose(order, b0, count, capacity, n);
            c.chosen == [] <==> forall g :: g in order[..n] ==> |Expanded(b0, g, count)| > capacity
    ensures Choose(order, b0, count, capacity, n).chosen == [] ==>
      Choose(order, b0, count, capacity, n).boundaries == b0
  {
    hide Expanded;
    if n > 0 {
      NothingChosen(order, b0, count, capacity, n - 1);
      assert order[..n] == order[..n - 1] + [order[n - 1]];
    }
  }

  /** No group alone brings the boundaries within capacity. */
  ghost predicate AllTooMany(gs: seq<Group>, b0: set<int>, count: nat, capacity: int) {
    |b0| > capacity && forall g :: g in gs ==> |Expanded(b0, g, count)| > capacity
  }

  /** The closing capacity check of build_layout fails exactly when the movie itself
      starts over capacity and no single group brings it within. */
  lemma CapacityCheck(shots: seq<FadeShot>, existing: set<int>, count: nat, capacity: int)
    requires ShotsValid(shots, count) && Disjoint(Connected(shots))
    ensures |Rebuilt(Selected(shots, existing, count, capacity), Starting(existing, count), count)| > capacity
       <==> AllTooMany(Connected(shots), Starting(existing, count), count, capacity)
  {
    hide Rebuilt, Selected, Choose, Starting, Connected, SortBy, SortedBy, Expanded, ShotsValid, Disjoint;
    var order, b0 := Order(shots), Starting(existing, count);
    RebuildAgrees(shots, existing, count, capacity);
    ChooseFits(order, b0, count, capacity, |order|);
    NothingChosen(order, b0, count, capacity, |order|);
    assert order[..|order|] == order;
    SortMembers(Connected(shots), ByBenefit);
  }

  // Without disjoint ranges

  const EARLY := FadeShot(None, 4, 5, 4, 4, Some(BlackRun(6, 6)), [1.0, 0.5])
  const LATE := FadeShot(Some(BlackRun(2, 6)), 7, 7, 7, 7, None, [1.0])

  lemma TwoGroups()
    ensures Connected([EARLY, LATE]) == [Single(EARLY), Single(LATE)] == Order([EARLY, LATE])
  {
    assert [EARLY, LATE][..1] == [EARLY];
    assert SortBy([EARLY], ByStartEnd) == [EARLY];
    assert SortBy([EARLY, LATE], ByStartEnd) == [EARLY, LATE];
    assert Groups([EARLY]) == [Single(EARLY)];
    var gs := [Single(EARLY), Single(LATE)];
    assert gs[..1] == [Single(EARLY)];
    assert Benefit(Single(EARLY)) == 2 && Benefit(Single(LATE)) == 1;
    assert SortBy([Single(EARLY)], ByBenefit) == [Single(EARLY)];
  }

  lemma TwoAnchors()
    ensures Anchors([EARLY, LATE]) == {2, 4}
  {
    assert EARLY in [EARLY, LATE] && LATE in [EARLY, LATE];
  }

  lemma SingleGroup(s: FadeShot, count: nat)
    ensures Anchors(Single(s)) == {s.Anchor()}
    ensures forall f :: f in Replaced(Single(s), count) <==> s.Anchor() <= f < Min(s.Restoration(), count)
    ensures Restores(Single(s), count) == if s.Restoration() < count then {s.Restoration()} else {}
  {
    forall f ensures f in Replaced(Single(s), count) <==> s.Anchor() <= f < Min(s.Restoration(), count) {
      assert Inside(f, Single(s)) <==> s.Anchor() <= f < s.Restoration();
    }
    assert s in Single(s);
  }

  lemma OverlapSets()
    ensures Expanded({0}, Single(EARLY), 10) == {0, 4, 7} && Expanded({0, 4, 7}, Single(LATE), 10) == {0, 2, 8}
    ensures ({0} - Replaced(Single(EARLY), 10)) + Restores(Single(EARLY), 10) == {0, 7}
    ensures ({0, 7} - Replaced(Single(LATE), 10)) + Restores(Single(LATE), 10) == {0, 8}
  {
    SingleGroup(EARLY, 10);
    SingleGroup(LATE, 10);
    hide Replaced, Anchors, Restores;
  }

  lemma OverlapSelected()
    ensures Choose([Single(EARLY), Single(LATE)], {0}, 10, 3, 2) == Selection({0, 2, 8}, [Single(EARLY), Single(LATE)])
  {
    OverlapSets();
    hide Expanded, Replaced, Restores;
    var order := [Single(EARLY), Single(LATE)];
    assert Choose(order, {0}, 10, 3, 1) == Selection({0, 4, 7}, [order[0]]);
  }

  lemma OverlapRebuilt()
    ensures Cleared({0}, [Single(EARLY), Single(LATE)], 10, 2) == {0, 8}
    ensures SortBy(Flatten([Single(EARLY), Single(LATE)]), ByStart) == [EARLY, LATE]
  {
    OverlapSets();
    hide Expanded, Replaced, Restores;
    var order := [Single(EARLY), Single(LATE)];
    assert Cleared({0}, order, 10, 1) == {0, 7};
    FlattenLast([Single(EARLY)], Single(LATE));
    FlattenLast([], Single(EARLY));
    assert [EARLY, LATE][..1] == [EARLY];
  }

  /** Two valid shots whose groups overlap: both are selected, within capacity at
      every step, yet the rebuilt layout has one boundary too many. */
  lemma OverlapBreaks()
    ensures ShotsValid([EARLY, LATE], 10)
    ensures Select([EARLY, LATE], {}, 10, 3) == Selection({0, 2, 8}, [Single(EARLY), Single(LATE)])
    ensures Rebuilt(Selected([EARLY, LATE], {}, 10, 3), {0}, 10) == {0, 2, 4, 8}
  {
    TwoGroups();
    OverlapSelected();
    OverlapRebuilt();
    TwoAnchors();
    hide Order, Connected, Anchors, Choose, Cleared, SortBy, Flatten;
    assert Starting({}, 10) == {0};
  }
}
