/** The preload water-fill of tools/pattern_supply.py: one physical source hands
    out its credits one at a time, each to the frame whose next credit matters
    most.  The code keeps a heap whose entries go stale; the specification looks
    over all the frames again before every credit. */
module WaterFill {
  import opened Arith

  /** What a frame is predicted to need, column by column. */
  datatype Demand = Demand(exactBytes: seq<int>, protectedBytes: seq<int>, exactCold: seq<int>, protectedCold: seq<int>)

  ghost predicate Covers(d: Demand, n: nat) {
    |d.exactBytes| == |d.protectedBytes| == |d.exactCold| == |d.protectedCold| == n
  }

  datatype Priority = Priority(tier: int, first: int, second: int, third: int)

  /** Tuples compare field by field. */
  predicate Above(p: Priority, q: Priority) {
    p.tier > q.tier || (p.tier == q.tier
      && (p.first > q.first || (p.first == q.first
        && (p.second > q.second || (p.second == q.second && p.third > q.third)))))
  }

  /** The priority of the credit after `used` ones. */
  function CreditPriority(d: Demand, frame: nat, used: int): Priority
    requires Covers(d, |d.exactBytes|) && frame < |d.exactBytes|
  {
    var exactLeft := Max(0, d.exactBytes[frame] - used * PATTERN_BYTES);
    var coldLeft := Max(0, d.exactCold[frame] - used);
    if used < d.protectedCold[frame]
    then Priority(2, Max(0, d.protectedBytes[frame] - used * PATTERN_BYTES), exactLeft, coldLeft)
    else Priority(1, exactLeft, coldLeft, 0)
  }

  /** The three arrays one call works on. */
  datatype Pools = Pools(target: seq<int>, available: seq<int>, given: seq<int>)

  ghost predicate Ready(s: Pools, d: Demand, frames: seq<nat>) {
    && Covers(d, |s.target|) && |s.available| == |s.given| == |s.target|
    && forall k :: 0 <= k < |frames| ==> frames[k] < |s.target|
  }

  // The specification: look over every frame before each credit

  /** Frame f comes before frame g: higher priority, or the lower index on a tie. */
  ghost predicate Outranks(p: Priority, f: nat, q: Priority, g: nat) {
    Above(p, q) || (p == q && f < g)
  }

  ghost function Next(s: Pools, d: Demand, f: nat): Priority
    requires Covers(d, |s.target|) && |s.given| == |s.target| && f < |s.target|
  {
    CreditPriority(d, f, s.given[f])
  }

  ghost predicate Open(s: Pools, frames: seq<nat>, f: nat)
    requires |s.available| == |s.target|
  {
    f in frames && f < |s.target| && s.available[f] > 0
  }

  /** The open frame that comes before every other open frame. */
  ghost predicate IsBest(s: Pools, d: Demand, frames: seq<nat>, f: nat)
    requires Ready(s, d, frames)
  {
    && Open(s, frames, f)
    && forall g :: g != f && Open(s, frames, g) ==> Outranks(Next(s, d, f), f, Next(s, d, g), g)
  }

  ghost function Best(s: Pools, d: Demand, frames: seq<nat>): (r: Option<nat>)
    requires Ready(s, d, frames)
    ensures r.Some? ==> r.value in frames
  {
    if frames == [] then None
    else
      var rest, f := Best(s, d, frames[1..]), frames[0];
      if s.available[f] <= 0 then rest
      else if rest.None? || Outranks(Next(s, d, f), f, Next(s, d, rest.value), rest.value) then Some(f)
      else rest
  }

  lemma {:induction false} BestIsBest(s: Pools, d: Demand, frames: seq<nat>)
    requires Ready(s, d, frames)
    ensures Best(s, d, frames).None? <==> forall f :: !Open(s, frames, f)
    ensures Best(s, d, frames).Some? ==> IsBest(s, d, frames, Best(s, d, frames).value)
  {
    hide CreditPriority;
    if frames == [] {
      forall g ensures !Open(s, frames, g) {}
    } else {
      BestIsBest(s, d, frames[1..]);
      var f, best := frames[0], Best(s, d, frames);
      forall g ensures Open(s, frames, g) <==> Open(s, frames[1..], g) || (g == f && s.available[f] > 0) {}
      if best.None? {
        forall g ensures !Open(s, frames, g) {}
      } else {
        assert Open(s, frames, best.value);
      }
    }
  }

  lemma OnlyOneBest(s: Pools, d: Demand, frames: seq<nat>, f: nat)
    requires Ready(s, d, frames) && IsBest(s, d, frames, f)
    ensures Best(s, d, frames) == Some(f)
  {
    hide CreditPriority, Best;
    BestIsBest(s, d, frames);
    assert Open(s, frames, f);
  }

  function Give(s: Pools, f: nat): Pools
    requires f < |s.target| == |s.available| == |s.given|
  {
    Pools(s.target[f := s.target[f] + 1], s.available[f := s.available[f] - 1], s.given[f := s.given[f] + 1])
  }

  /** Up to n credits, each to the best frame at that moment. */
  ghost function Fill(s: Pools, d: Demand, frames: seq<nat>, n: nat): (r: Pools)
    requires Ready(s, d, frames)
    ensures Ready(r, d, frames) && |r.target| == |s.target|
    decreases n
  {
    if n == 0 then s
    else match Best(s, d, frames)
      case None => s
      case Some(f) => BestIsBest(s, d, frames); Fill(Give(s, f), d, frames, n - 1)
  }

  /** The credits at the frames of one parity. */
  function ParityTotal(s: seq<int>, p: nat): int {
    if s == [] then 0
    else ParityTotal(s[..|s| - 1], p) + if (|s| - 1) % 2 == p then s[|s| - 1] else 0
  }

  function Total(s: seq<int>): int { ParityTotal(s, 0) + ParityTotal(s, 1) }

  lemma {:induction false} ParityBump(s: seq<int>, f: nat, p: nat)
    requires f < |s|
    ensures ParityTotal(s[f := s[f] + 1], p) == ParityTotal(s, p) + if f % 2 == p then 1 else 0
  {
    var n := |s| - 1;
    if f < n {
      ParityBump(s[..n], f, p);
      assert s[f := s[f] + 1][..n] == s[..n][f := s[f] + 1];
    } else {
      assert s[f := s[f] + 1][..n] == s[..n];
    }
  }

  lemma {:induction false} ParitySame(s: seq<int>, r: seq<int>, p: nat)
    requires |s| == |r| && forall i :: 0 <= i < |s| && i % 2 == p ==> s[i] == r[i]
    ensures ParityTotal(s, p) == ParityTotal(r, p)
  {
    if s != [] { ParitySame(s[..|s| - 1], r[..|s| - 1], p); }
  }

  /** Credits handed out between two states. */
  function Granted(s: Pools, r: Pools): int { Total(r.target) - Total(s.target) }

  // What the specification guarantees

  /** A frame's credits move from available to target, counted in given, and
      only frames named by the call gain any. */
  ghost predicate Conserved(s: Pools, r: Pools, frames: seq<nat>, f: nat)
    requires |s.target| == |s.available| == |s.given| == |r.target| == |r.available| == |r.given| && f < |s.target|
  {
    && r.target[f] + r.available[f] == s.target[f] + s.available[f]
    && r.given[f] - r.target[f] == s.given[f] - s.target[f]
    && r.given[f] >= s.given[f]
    && (r.given[f] > s.given[f] ==> f in frames && r.available[f] >= 0)
  }

  lemma {:induction false} FillConserves(s: Pools, d: Demand, frames: seq<nat>, n: nat)
    requires Ready(s, d, frames)
    ensures forall f :: 0 <= f < |s.target| ==> Conserved(s, Fill(s, d, frames, n), frames, f)
    decreases n
  {
    hide Best, CreditPriority;
    BestIsBest(s, d, frames);
    if n > 0 && Best(s, d, frames).Some? {
      var g := Best(s, d, frames).value;
      FillConserves(Give(s, g), d, frames, n - 1);
      var r := Fill(s, d, frames, n);
      forall f | 0 <= f < |s.target| ensures Conserved(s, r, frames, f) {
        assert Conserved(Give(s, g), r, frames, f);
      }
    }
  }

  /** Credits run short only when every frame of the call has nothing left to take. */
  lemma {:induction false} FillStops(s: Pools, d: Demand, frames: seq<nat>, n: nat)
    requires Ready(s, d, frames)
    ensures var r := Fill(s, d, frames, n);
            Granted(s, r) <= n && (Granted(s, r) < n ==> forall f :: !Open(r, frames, f))
    decreases n
  {
    hide Best, CreditPriority, ParityTotal;
    BestIsBest(s, d, frames);
    if n > 0 && Best(s, d, frames).Some? {
      var g := Best(s, d, frames).value;
      FillStops(Give(s, g), d, frames, n - 1);
      ParityBump(s.target, g, 0);
      ParityBump(s.target, g, 1);
    }
  }

  /** A credit is worth no more than the one before it. */
  lemma PriorityFalls(d: Demand, f: nat, used: int, later: int)
    requires Covers(d, |d.exactBytes|) && f < |d.exactBytes| && used <= later
    ensures !Above(CreditPriority(d, f, later), CreditPriority(d, f, used))
  {
  }

  lemma StillBehind(p: Priority, p': Priority, f: nat, q: Priority, g: nat)
    requires Outranks(q, g, p, f) && !Above(p', p)
    ensures !Outranks(p', f, q, g)
  {
  }

  /** No open frame's next credit outranks the last credit any other frame received. */
  lemma {:induction false} FillIsFair(s: Pools, d: Demand, frames: seq<nat>, n: nat, f: nat, g: nat)
    requires Ready(s, d, frames) && f < |s.target| && g < |s.target| && f != g
    requires var r := Fill(s, d, frames, n); Open(r, frames, f) && r.given[g] > s.given[g]
    ensures var r := Fill(s, d, frames, n);
            !Outranks(CreditPriority(d, f, r.given[f]), f, CreditPriority(d, g, r.given[g] - 1), g)
    decreases n
  {
    hide Best, CreditPriority, Outranks;
    BestIsBest(s, d, frames);
    var r, b := Fill(s, d, frames, n), Best(s, d, frames).value;
    FillConserves(Give(s, b), d, frames, n - 1);
    assert Conserved(Give(s, b), r, frames, f) && Conserved(Give(s, b), r, frames, g);
    if r.given[g] > Give(s, b).given[g] {
      FillIsFair(Give(s, b), d, frames, n - 1, f, g);
    } else {
      assert g == b && Open(s, frames, f);
      PriorityFalls(d, f, s.given[f], r.given[f]);
      StillBehind(Next(s, d, f), Next(r, d, f), f, Next(s, d, g), g);
    }
  }

  /** The credit after u credits at frame g is due no later than the one after v at f:
      frames still short of their protected count first, by protected bytes left,
      then everybody by exact bytes left, cold count left, and frame. */
  ghost predicate DueBefore(d: Demand, g: nat, u: int, f: nat, v: int)
    requires Covers(d, |d.exactBytes|) && f < |d.exactBytes| && g < |d.exactBytes|
  {
    var gProtected, fProtected := Max(0, d.protectedBytes[g] - 32 * u), Max(0, d.protectedBytes[f] - 32 * v);
    var gExact, fExact := Max(0, d.exactBytes[g] - 32 * u), Max(0, d.exactBytes[f] - 32 * v);
    var gCold, fCold := Max(0, d.exactCold[g] - u), Max(0, d.exactCold[f] - v);
    var byExact := gExact > fExact || (gExact == fExact && (gCold > fCold || (gCold == fCold && g < f)));
    if v < d.protectedCold[f]
    then u < d.protectedCold[g] && (gProtected > fProtected || (gProtected == fProtected && byExact))
    else u < d.protectedCold[g] || byExact
  }

  /** No frame got a credit while another frame, still open, was due one before. */
  ghost predicate GivenInOrder(s: Pools, r: Pools, d: Demand, frames: seq<nat>)
    requires Ready(s, d, frames) && Ready(r, d, frames) && |s.target| == |r.target|
  {
    forall f: nat, g: nat :: f != g && Open(r, frames, f) && Received(s, r, g) ==>
      DueBefore(d, g, r.given[g] - 1, f, r.given[f])
  }

  ghost predicate Received(s: Pools, r: Pools, g: nat)
    requires |s.given| == |r.given|
  {
    g < |s.given| && r.given[g] > s.given[g]
  }

  /** Main result, on the demand itself: nobody is served past its protected count while
      an open frame is still short of its own, and among equals the greater
      demand is served first. */
  lemma FillInOrder(s: Pools, d: Demand, frames: seq<nat>, n: nat)
    requires Ready(s, d, frames)
    ensures GivenInOrder(s, Fill(s, d, frames, n), d, frames)
  {
    hide CreditPriority, Outranks, Fill;
    var r := Fill(s, d, frames, n);
    forall f: nat, g: nat | f != g && Open(r, frames, f) && Received(s, r, g)
      ensures DueBefore(d, g, r.given[g] - 1, f, r.given[f])
    {
      FillIsFair(s, d, frames, n, f, g);
      DueIsRank(d, g, r.given[g] - 1, f, r.given[f]);
    }
  }

  lemma DueIsRank(d: Demand, g: nat, u: int, f: nat, v: int)
    requires Covers(d, |d.exactBytes|) && f < |d.exactBytes| && g < |d.exactBytes| && f != g
    requires !Outranks(CreditPriority(d, f, v), f, CreditPriority(d, g, u), g)
    ensures DueBefore(d, g, u, f, v)
  {
  }

  /** Listing a frame twice, or in another order, changes nothing. */
  lemma {:induction false} FramesAreASet(s: Pools, d: Demand, frames: seq<nat>, others: seq<nat>, n: nat)
    requires Ready(s, d, frames) && Ready(s, d, others) && forall f :: f in frames <==> f in others
    ensures Fill(s, d, frames, n) == Fill(s, d, others, n)
    decreases n
  {
    hide Best, CreditPriority, Outranks;
    BestIsBest(s, d, frames);
    BestIsBest(s, d, others);
    assert forall f :: Open(s, frames, f) <==> Open(s, others, f);
    if n > 0 && Best(s, d, frames).Some? {
      var f := Best(s, d, frames).value;
      OnlyOneBest(s, d, others, f);
      FramesAreASet(Give(s, f), d, frames, others, n - 1);
    }
  }

  /** Two calls that share the arrays act as one with their capacities added. */
  lemma {:induction false} FillResumes(s: Pools, d: Demand, frames: seq<nat>, a: nat, b: nat)
    requires Ready(s, d, frames)
    ensures Fill(Fill(s, d, frames, a), d, frames, b) == Fill(s, d, frames, a + b)
    decreases a
  {
    hide Best, CreditPriority;
    BestIsBest(s, d, frames);
    if a > 0 && Best(s, d, frames).Some? { FillResumes(Give(s, Best(s, d, frames).value), d, frames, a - 1, b); }
  }

  // The code: a heap with stale entries

  datatype Entry = Entry(priority: Priority, frame: nat, generation: int)

  /** The order of the negated tuples a heap entry is compared by. */
  predicate Before(a: Entry, b: Entry) {
    Above(a.priority, b.priority) || (a.priority == b.priority
      && (a.frame < b.frame || (a.frame == b.frame && a.generation <= b.generation)))
  }

  ghost predicate Sorted(heap: seq<Entry>) {
    forall i, j :: 0 <= i <= j < |heap| ==> Before(heap[i], heap[j])
  }

  function Push(heap: seq<Entry>, e: Entry): seq<Entry> {
    if heap == [] || Before(e, heap[0]) then [e] + heap else [heap[0]] + Push(heap[1..], e)
  }

  lemma {:induction false} PushSorts(heap: seq<Entry>, e: Entry)
    requires Sorted(heap)
    ensures Sorted(Push(heap, e)) && multiset(Push(heap, e)) == multiset(heap) + multiset{e}
  {
    hide Before, Sorted;
    if heap == [] || Before(e, heap[0]) {
      AddsInFront(heap, e);
    } else {
      SortedRest(heap);
      PushSorts(heap[1..], e);
      assert heap == [heap[0]] + heap[1..];
      var rest := Push(heap[1..], e);
      assert forall x :: x in rest ==> x in multiset(rest);
      BeforeOrder(heap[0], e, heap[0]);
      FirstIsLeast(heap[0], rest);
    }
  }

  lemma BeforeOrder(a: Entry, b: Entry, c: Entry)
    ensures Before(a, a) && (Before(a, b) || Before(b, a))
    ensures Before(a, b) && Before(b, c) ==> Before(a, c)
  {
  }

  lemma AddsInFront(heap: seq<Entry>, e: Entry)
    requires Sorted(heap) && (heap != [] ==> Before(e, heap[0]))
    ensures Sorted([e] + heap)
  {
    hide Before;
    forall i | 0 <= i < |heap| ensures Before(e, heap[i]) { BeforeOrder(e, heap[0], heap[i]); }
    BeforeOrder(e, e, e);
  }

  lemma SortedRest(heap: seq<Entry>)
    requires Sorted(heap) && heap != []
    ensures Sorted(heap[1..]) && forall x :: x in heap[1..] ==> Before(heap[0], x)
  {
    hide Before;
  }

  lemma FirstIsLeast(first: Entry, rest: seq<Entry>)
    requires Sorted(rest) && forall x :: x in rest ==> Before(first, x)
    ensures Sorted([first] + rest)
  {
    hide Before;
    BeforeOrder(first, first, first);
  }

  lemma PushHolds(heap: seq<Entry>, e: Entry)
    requires Sorted(heap)
    ensures Sorted(Push(heap, e)) && forall x :: x in Push(heap, e) <==> x in heap || x == e
  {
    hide Before;
    PushSorts(heap, e);
    assert forall x :: x in Push(heap, e) <==> x in multiset(Push(heap, e));
    assert forall x :: x in heap <==> x in multiset(heap);
  }

  /** An entry made at some earlier point of the call; a current one is exact. */
  ghost predicate Honest(s: Pools, d: Demand, frames: seq<nat>, e: Entry)
    requires Ready(s, d, frames)
  {
    && e.frame in frames && e.frame < |s.target| && e.generation <= s.given[e.frame]
    && (e.generation == s.given[e.frame] ==> e.priority == Next(s, d, e.frame) && s.available[e.frame] > 0)
  }

  ghost function Current(s: Pools, d: Demand, f: nat): Entry
    requires Covers(d, |s.target|) && |s.given| == |s.target| && f < |s.target|
  {
    Entry(Next(s, d, f), f, s.given[f])
  }

  /** The heap is in order, its entries are honest, and every open frame among
      `frames` has its current entry in it. */
  ghost predicate Faithful(s: Pools, d: Demand, frames: seq<nat>, heap: seq<Entry>)
    requires Ready(s, d, frames)
  {
    && Sorted(heap)
    && (forall e :: e in heap ==> Honest(s, d, frames, e))
  }

  ghost predicate Listed(s: Pools, d: Demand, frames: seq<nat>, heap: seq<Entry>)
    requires Ready(s, d, frames)
  {
    forall f :: Open(s, frames, f) ==> Current(s, d, f) in heap
  }

  /** A current entry on top names the best frame. */
  lemma TopIsBest(s: Pools, d: Demand, frames: seq<nat>, heap: seq<Entry>)
    requires Ready(s, d, frames) && Faithful(s, d, frames, heap) && Listed(s, d, frames, heap)
    requires heap != [] && heap[0].frame < |s.target| && heap[0].generation == s.given[heap[0].frame]
    ensures Best(s, d, frames) == Some(heap[0].frame)
  {
    hide CreditPriority, Best;
    var top := heap[0];
    assert Honest(s, d, frames, top);
    forall g | g != top.frame && Open(s, frames, g) ensures Outranks(top.priority, top.frame, Next(s, d, g), g) {
      var e := Current(s, d, g);
      assert e in heap;
      var i :| 0 <= i < |heap| && heap[i] == e;
      assert Before(top, e);
    }
    OnlyOneBest(s, d, frames, top.frame);
  }

  /** A stale entry can go. */
  lemma DropStale(s: Pools, d: Demand, frames: seq<nat>, heap: seq<Entry>)
    requires Ready(s, d, frames) && Faithful(s, d, frames, heap) && Listed(s, d, frames, heap)
    requires heap != [] && heap[0].frame < |s.target| && heap[0].generation != s.given[heap[0].frame]
    ensures Faithful(s, d, frames, heap[1..]) && Listed(s, d, frames, heap[1..])
  {
    hide CreditPriority, Before;
    assert heap == [heap[0]] + heap[1..];
    forall f | Open(s, frames, f) ensures Current(s, d, f) in heap[1..] {
      assert Current(s, d, f) in heap;
    }
  }

  /** After a credit the heap needs the frame's new entry, unless it is spent. */
  lemma AfterGive(s: Pools, d: Demand, frames: seq<nat>, heap: seq<Entry>, next: seq<Entry>)
    requires Ready(s, d, frames) && Faithful(s, d, frames, heap) && Listed(s, d, frames, heap)
    requires heap != [] && heap[0].frame < |s.target| && heap[0].generation == s.given[heap[0].frame]
    requires var s' := Give(s, heap[0].frame);
             next == if s'.available[heap[0].frame] > 0 then Push(heap[1..], Current(s', d, heap[0].frame))
                     else heap[1..]
    ensures Ready(Give(s, heap[0].frame), d, frames)
    ensures Faithful(Give(s, heap[0].frame), d, frames, next) && Listed(Give(s, heap[0].frame), d, frames, next)
  {
    hide CreditPriority, Before;
    var top, f := heap[0], heap[0].frame;
    var s' := Give(s, f);
    assert heap == [top] + heap[1..] && Honest(s, d, frames, top);
    assert Sorted(heap[1..]);
    forall e | e in heap[1..] ensures Honest(s', d, frames, e) { assert Honest(s, d, frames, e); }
    PushHolds(heap[1..], Current(s', d, f));
    forall g | Open(s', frames, g) ensures Current(s', d, g) in next {
      if g != f { assert Open(s, frames, g) && Current(s, d, g) == Current(s', d, g) && Current(s, d, g) in heap; }
    }
  }

  /** `_allocate_credits`: the heap loop gives the specification's allocation. */
  method AllocateCredits(target: array<int>, available: array<int>, given: array<int>, frames: seq<nat>,
                         capacity: int, d: Demand)
    requires target != available && available != given && target != given
    requires Ready(Pools(target[..], available[..], given[..]), d, frames)
    modifies target, available, given
    ensures Pools(target[..], available[..], given[..])
         == Fill(old(Pools(target[..], available[..], given[..])), d, frames, Max(0, capacity))
    ensures Ready(Pools(target[..], available[..], given[..]), d, frames)
            && GivenInOrder(old(Pools(target[..], available[..], given[..])),
                            Pools(target[..], available[..], given[..]), d, frames)
  {
    hide Best, CreditPriority, Before, Push, Honest, Faithful, Listed, Give, GivenInOrder;
    ghost var start := Pools(target[..], available[..], given[..]);
    ghost var total: nat := Max(0, capacity);
    var heap: seq<Entry> := [];
    StartsEmpty(start, d, frames);
    for i := 0 to |frames|
      invariant Faithful(start, d, frames, heap) && Filed(start, d, frames, heap, i)
      invariant Pools(target[..], available[..], given[..]) == start
    {
      var f := frames[i];
      FilesOne(start, d, frames, heap, i);
      if available[f] > 0 {
        heap := Push(heap, Entry(CreditPriority(d, f, given[f]), f, given[f]));
      }
    }
    AllFiled(start, d, frames, heap);
    var remaining: nat := Max(0, capacity);
    ghost var s := start;
    while remaining > 0 && heap != []
      invariant s == Pools(target[..], available[..], given[..]) && Ready(s, d, frames)
      invariant Faithful(s, d, frames, heap) && Listed(s, d, frames, heap)
      invariant Fill(start, d, frames, total) == Fill(s, d, frames, remaining)
      decreases remaining, |heap|
    {
      TopIsHonest(s, d, frames, heap);
      var top := heap[0];
      var f := top.frame;
      if top.generation != given[f] {
        DropStale(s, d, frames, heap);
        heap := heap[1..];
        continue;
      }
      if available[f] <= 0 { assert false; }  // a current entry is never spent
      TopIsBest(s, d, frames, heap);
      ghost var next := Give(s, f);
      ghost var was := heap;
      heap := heap[1..];
      GiveInPlace(s, f);
      target[f] := target[f] + 1;
      available[f] := available[f] - 1;
      given[f] := given[f] + 1;
      remaining := remaining - 1;
      if available[f] > 0 {
        heap := Push(heap, Entry(CreditPriority(d, f, given[f]), f, given[f]));
      }
      assert next == Pools(target[..], available[..], given[..]);
      AfterGive(s, d, frames, was, heap);
      s := next;
    }
    if heap == [] { EmptyHeapIsDone(s, d, frames, remaining); }
    FillInOrder(start, d, frames, total);
  }

  // The loop's bookkeeping

  /** The current entries of the first i frames are in the heap. */
  ghost predicate Filed(s: Pools, d: Demand, frames: seq<nat>, heap: seq<Entry>, i: nat)
    requires Ready(s, d, frames)
  {
    forall k :: 0 <= k < i && k < |frames| && s.available[frames[k]] > 0 ==> Current(s, d, frames[k]) in heap
  }

  lemma StartsEmpty(s: Pools, d: Demand, frames: seq<nat>)
    requires Ready(s, d, frames)
    ensures Faithful(s, d, frames, []) && Filed(s, d, frames, [], 0)
  {
  }

  lemma FilesOne(s: Pools, d: Demand, frames: seq<nat>, heap: seq<Entry>, i: nat)
    requires Ready(s, d, frames) && i < |frames| && Faithful(s, d, frames, heap) && Filed(s, d, frames, heap, i)
    ensures var next := if s.available[frames[i]] > 0 then Push(heap, Current(s, d, frames[i])) else heap;
            Faithful(s, d, frames, next) && Filed(s, d, frames, next, i + 1)
  {
    hide CreditPriority, Before, Push;
    PushHolds(heap, Current(s, d, frames[i]));
  }

  lemma AllFiled(s: Pools, d: Demand, frames: seq<nat>, heap: seq<Entry>)
    requires Ready(s, d, frames) && Filed(s, d, frames, heap, |frames|)
    ensures Listed(s, d, frames, heap)
  {
  }

  lemma TopIsHonest(s: Pools, d: Demand, frames: seq<nat>, heap: seq<Entry>)
    requires Ready(s, d, frames) && Faithful(s, d, frames, heap) && heap != []
    ensures heap[0].frame < |s.target|
    ensures heap[0].generation == s.given[heap[0].frame] ==> s.available[heap[0].frame] > 0
  {
    assert Honest(s, d, frames, heap[0]);
  }

  lemma GiveInPlace(s: Pools, f: nat)
    requires f < |s.target| == |s.available| == |s.given|
    ensures Give(s, f).target == s.target[f := s.target[f] + 1]
    ensures Give(s, f).available == s.available[f := s.available[f] - 1]
    ensures Give(s, f).given == s.given[f := s.given[f] + 1]
  {
  }

  lemma EmptyHeapIsDone(s: Pools, d: Demand, frames: seq<nat>, n: nat)
    requires Ready(s, d, frames) && Listed(s, d, frames, [])
    ensures Fill(s, d, frames, n) == s
  {
    BestIsBest(s, d, frames);
  }

  // The count-only budget

  /** A forecast as plan_frame_budgets accepts it. */
  predicate Sound(d: Demand) {
    && |d.exactBytes| == |d.protectedBytes| == |d.exactCold| == |d.protectedCold|
    && (forall f :: 0 <= f < |d.exactBytes| ==> d.exactBytes[f] >= 0)
    && (forall f :: 0 <= f < |d.protectedBytes| ==> d.protectedBytes[f] >= 0)
    && (forall f :: 0 <= f < |d.exactCold| ==> 0 <= d.protectedCold[f] <= d.exactCold[f])
  }

  /** range(first, n, 2). */
  function EveryOther(first: nat, n: nat): (r: seq<nat>)
    ensures forall f :: f in r <==> first <= f < n && (f - first) % 2 == 0
    ensures forall k :: 0 <= k < |r| ==> r[k] < n
    decreases n - first
  {
    if first >= n then [] else [first] + EveryOther(first + 2, n)
  }

  function Zeros(n: nat): (z: seq<int>)
    ensures |z| == n && Total(z) == ParityTotal(z, 0) == ParityTotal(z, 1) == 0
  {
    if n == 0 then [] else Zeros(n - 1) + [0]
  }

  /** All but frame 0's demand, which the boot sector serves. */
  function Coverable(exactCold: seq<int>, f: nat): int
    requires f < |exactCold|
  {
    if f == 0 then 0 else exactCold[f]
  }

  /** Every frame's demand is split between what it holds and what it may still take. */
  ghost predicate Splits(s: Pools, cover: seq<int>) {
    && |s.target| == |s.available| == |cover|
    && forall f :: 0 <= f < |cover| ==>
      s.target[f] >= 0 && s.available[f] >= 0 && s.target[f] + s.available[f] == cover[f]
  }

  lemma FillSplits(s: Pools, d: Demand, frames: seq<nat>, n: nat, cover: seq<int>)
    requires Ready(s, d, frames) && Splits(s, cover)
    ensures Splits(Fill(s, d, frames, n), cover)
  {
    hide Fill;
    FillConserves(s, d, frames, n);
    var r := Fill(s, d, frames, n);
    forall f | 0 <= f < |cover|
      ensures r.target[f] >= 0 && r.available[f] >= 0 && r.target[f] + r.available[f] == cover[f] {
      assert Conserved(s, r, frames, f);
    }
  }

  /** One bank only gives to its own parity, within its capacity, and stops early
      only when its frames are covered. */
  lemma OneBank(s: Pools, d: Demand, frames: seq<nat>, n: nat, p: nat)
    requires Ready(s, d, frames) && p < 2 && forall f :: f in frames ==> f % 2 == p
    ensures var r := Fill(s, d, frames, n);
            && (forall f :: 0 <= f < |s.target| && f % 2 != p ==>
                  r.target[f] == s.target[f] && r.available[f] == s.available[f])
            && ParityTotal(r.target, 1 - p) == ParityTotal(s.target, 1 - p)
            && ParityTotal(r.target, p) <= ParityTotal(s.target, p) + n
            && (ParityTotal(r.target, p) < ParityTotal(s.target, p) + n ==> forall f :: !Open(r, frames, f))
  {
    hide Fill, ParityTotal;
    FillConserves(s, d, frames, n);
    FillStops(s, d, frames, n);
    var r := Fill(s, d, frames, n);
    forall f | 0 <= f < |s.target| && f % 2 != p
      ensures r.target[f] == s.target[f] && r.available[f] == s.available[f]
    {
      assert Conserved(s, r, frames, f);
    }
    ParitySame(s.target, r.target, 1 - p);
  }

  function Cover(d: Demand): (c: seq<int>)
    requires Covers(d, |d.exactCold|)
    ensures |c| == |d.exactCold|
  {
    seq(|d.exactCold|, f requires 0 <= f < |d.exactCold| => Coverable(d.exactCold, f))
  }

  ghost function Fresh(d: Demand): Pools
    requires Covers(d, |d.exactCold|)
  {
    Pools(Zeros(|d.exactCold|), Cover(d), Zeros(|d.exactCold|))
  }

  /** Both banks, one after the other. */
  ghost function WordFill(d: Demand, wr0: nat, wr1: nat): Pools
    requires Covers(d, |d.exactCold|)
  {
    var n := |d.exactCold|;
    Fill(Fill(Fresh(d), d, EveryOther(2, n), wr0), d, EveryOther(1, n), wr1)
  }

  lemma WordFillHolds(d: Demand, wr0: nat, wr1: nat)
    requires Sound(d) && d.exactCold != []
    ensures var r := WordFill(d, wr0, wr1);
            && Covers(d, |r.target|) && |r.given| == |r.target|
            && Splits(r, Cover(d)) && ParityTotal(r.target, 0) <= wr0 && ParityTotal(r.target, 1) <= wr1
            && (ParityTotal(r.target, 0) < wr0 ==> Spent(r, 0)) && (ParityTotal(r.target, 1) < wr1 ==> Spent(r, 1))
  {
    hide Fill, ParityTotal, Zeros, Splits;
    var n := |d.exactCold|;
    var s, evens, odds := Fresh(d), EveryOther(2, n), EveryOther(1, n);
    FreshSplits(d);
    FillSplits(s, d, evens, wr0, Cover(d));
    OneBank(s, d, evens, wr0, 0);
    var m := Fill(s, d, evens, wr0);
    FillSplits(m, d, odds, wr1, Cover(d));
    OneBank(m, d, odds, wr1, 1);
    var r := Fill(m, d, odds, wr1);
    if ParityTotal(r.target, 0) < wr0 {
      FrameZero(m, d);
      forall f | 0 <= f < n && f % 2 == 0 ensures r.available[f] <= 0 {
        if f > 0 { assert !Open(m, evens, f); }
      }
    }
    if ParityTotal(r.target, 1) < wr1 {
      forall f | 0 <= f < n && f % 2 == 1 ensures r.available[f] <= 0 { assert !Open(r, odds, f); }
    }
  }

  /** Frames of one parity can take nothing more. */
  ghost predicate Spent(s: Pools, p: nat)
    requires |s.target| == |s.available|
  {
    forall f :: 0 <= f < |s.target| && f % 2 == p ==> s.available[f] <= 0
  }

  lemma FreshSplits(d: Demand)
    requires Sound(d)
    ensures Splits(Fresh(d), Cover(d))
  {
    ZerosAre(|d.exactCold|);
  }

  lemma FrameZero(s: Pools, d: Demand)
    requires Sound(d) && d.exactCold != [] && Splits(s, Cover(d))
    ensures s.available[0] <= 0
  {
  }

  /** The dictionary's share, from what the banks left. */
  lemma DicFillHolds(d: Demand, r: Pools, frames: seq<nat>, dicPatterns: nat)
    requires Sound(d) && d.exactCold != [] && Splits(r, Cover(d)) && |r.given| == |r.target|
    requires forall f :: f in frames <==> 1 <= f < |r.target|
    requires forall k :: 0 <= k < |frames| ==> frames[k] < |r.target|
    ensures var s := Pools(Zeros(|r.target|), r.available, r.given);
            && Ready(s, d, frames)
            && var e := Fill(s, d, frames, dicPatterns);
               && Splits(e, r.available) && Total(e.target) <= dicPatterns
               && (Total(e.target) < dicPatterns ==> forall f :: 0 <= f < |r.target| ==> e.target[f] == r.available[f])
  {
    hide Fill, ParityTotal, Zeros;
    var n := |r.target|;
    var s := Pools(Zeros(n), r.available, r.given);
    ZerosAre(n);
    FillSplits(s, d, frames, dicPatterns, r.available);
    FillStops(s, d, frames, dicPatterns);
    var e := Fill(s, d, frames, dicPatterns);
    if Total(e.target) < dicPatterns {
      FrameZero(r, d);
      forall f | 0 <= f < n ensures e.available[f] <= 0 {
        if f > 0 { assert !Open(e, frames, f); }
      }
    }
  }

  /** The last three calls of plan_frame_budgets, on shared arrays: each WordBuf
      bank takes its parity, then the dictionary takes any frame.  Of the four
      closing checks of the source only the dictionary's can fail, and only for
      a negative capacity. */
  method CountOnlyBudget(d: Demand, wr0: nat, wr1: nat, dicPatterns: int) returns (wr: seq<int>, dic: seq<int>)
    requires Sound(d) && d.exactCold != []
    ensures |wr| == |dic| == |d.exactCold|
    ensures ParityTotal(wr, 0) <= wr0 && ParityTotal(wr, 1) <= wr1
    ensures Total(dic) <= dicPatterns <==> dicPatterns >= 0
    ensures wr[0] == dic[0] == 0
    ensures forall f :: 1 <= f < |wr| ==> wr[f] >= 0 && dic[f] >= 0 && wr[f] + dic[f] <= d.exactCold[f]
    ensures ParityTotal(wr, 0) < wr0 ==> forall f :: 1 <= f < |wr| && f % 2 == 0 ==> wr[f] == d.exactCold[f]
    ensures ParityTotal(wr, 1) < wr1 ==> forall f :: 1 <= f < |wr| && f % 2 == 1 ==> wr[f] == d.exactCold[f]
    ensures Total(dic) < dicPatterns ==> forall f :: 1 <= f < |wr| ==> wr[f] + dic[f] == d.exactCold[f]
  {
    hide Fill, ParityTotal, Zeros, GivenInOrder;
    var n := |d.exactCold|;
    var cover := Cover(d);
    var target, available, given := new int[n], new int[n], new int[n];
    forall f | 0 <= f < n { target[f] := 0; }
    forall f | 0 <= f < n { available[f] := cover[f]; }
    forall f | 0 <= f < n { given[f] := 0; }
    ZerosAre(n);
    assert Pools(target[..], available[..], given[..]) == Fresh(d);
    AllocateCredits(target, available, given, EveryOther(2, n), wr0, d);
    AllocateCredits(target, available, given, EveryOther(1, n), wr1, d);
    ghost var r := Pools(target[..], available[..], given[..]);
    assert r == WordFill(d, wr0, wr1);
    WordFillHolds(d, wr0, wr1);
    wr := target[..];
    forall f | 0 <= f < n { target[f] := 0; }
    assert Pools(target[..], available[..], given[..]) == Pools(Zeros(n), r.available, r.given);
    var frames: seq<nat> := seq(n - 1, i => i + 1);
    forall f | 1 <= f < n ensures f in frames { assert frames[f - 1] == f; }
    DicFillHolds(d, r, frames, Max(0, dicPatterns));
    AllocateCredits(target, available, given, frames, dicPatterns, d);
    dic := target[..];
    TotalNonNegative(dic, 0);
    TotalNonNegative(dic, 1);
  }

  lemma {:induction false} TotalNonNegative(s: seq<int>, p: nat)
    requires forall i :: 0 <= i < |s| ==> s[i] >= 0
    ensures ParityTotal(s, p) >= 0
  {
    if s != [] { TotalNonNegative(s[..|s| - 1], p); }
  }

  lemma {:induction false} ZerosAre(n: nat)
    ensures forall i :: 0 <= i < n ==> Zeros(n)[i] == 0
  {
    if n > 0 { ZerosAre(n - 1); }
  }
}
