/**
  The joint derivation of cold ceilings and accepted payload
  (tools/physical_budget.py, build_joint_plan).

  One planning pass, build_plan, is the parameter `build`: it maps a vector of
  cold ceilings to the accepted Prg payload, or to None when it raises.
*/
module JointPlan {
  import opened Arith

  type Limits = seq<nat>

  type Build = Limits -> Option<Limits>

  datatype Outcome =
    | Planned(cold: Limits, prg: Limits, passes: nat)
    | ScheduleError
    | NotConverged
    | NotSelfConsistent(cold: Limits, required: Limits)

  /** The vectors of one call, normalised: frame 0 is boot. */
  datatype Inputs = Inputs(ceiling: Limits, preload: Limits) {
    predicate Valid() {
      |ceiling| == |preload| && (|ceiling| > 0 ==> ceiling[0] == 0)
    }

    /** What a frame needs: its accepted payload plus its preloaded patterns. */
    function Required(prg: Limits): (r: Limits)
      requires |ceiling| == |preload|
      ensures |r| == |ceiling|
    {
      seq(|ceiling|, i requires 0 <= i < |ceiling| =>
        if i == 0 || i >= |prg| then 0 else Min(ceiling[i], prg[i] + preload[i]))
    }
  }

  predicate Leq(a: Limits, b: Limits) {
    |a| == |b| && forall i :: 0 <= i < |a| ==> a[i] <= b[i]
  }

  function MaxOf(a: Limits, b: Limits): (r: Limits)
    requires |a| == |b|
    ensures |r| == |a| && Leq(a, r) && Leq(b, r)
  {
    seq(|a|, i requires 0 <= i < |a| => Max(a[i], b[i]))
  }

  predicate SameLengths(vs: seq<Limits>, n: nat) {
    forall i :: 0 <= i < |vs| ==> |vs[i]| == n
  }

  /** The elementwise maximum of a non-empty list of vectors. */
  function MaxAll(vs: seq<Limits>, n: nat): (r: Limits)
    requires |vs| > 0 && SameLengths(vs, n)
    ensures |r| == n
  {
    if |vs| == 1 then vs[0] else MaxOf(vs[0], MaxAll(vs[1..], n))
  }

  function IndexOf(vs: seq<Limits>, v: Limits): (i: nat)
    ensures i <= |vs|
    ensures i < |vs| ==> vs[i] == v
    ensures v !in vs[..i]
  {
    if vs == [] || vs[0] == v then 0
    else
      var i := IndexOf(vs[1..], v);
      assert vs[..i + 1] == [vs[0]] + vs[1..][..i];
      i + 1
  }

  /** The last self-consistency check. */
  function Settle(inp: Inputs, cold: Limits, prg: Limits, passes: nat): Outcome
    requires inp.Valid() && |cold| == |inp.ceiling|
  {
    if Leq(inp.Required(prg), cold) then Planned(cold, prg, passes)
    else NotSelfConsistent(cold, inp.Required(prg))
  }

  /** A cycle is replaced by its elementwise maximum, raised once if needed. */
  function SettleCycle(inp: Inputs, build: Build, cycle: seq<Limits>, passes: nat): Outcome
    requires inp.Valid() && |cycle| > 0 && SameLengths(cycle, |inp.ceiling|)
  {
    var top := MaxAll(cycle, |inp.ceiling|);
    if build(top).None? then ScheduleError
    else
      var required := inp.Required(build(top).value);
      if Leq(required, top) then Settle(inp, top, build(top).value, passes)
      else
        var raised := MaxOf(top, required);
        if build(raised).None? then ScheduleError
        else Settle(inp, raised, build(raised).value, passes + 1)
  }

  /** The passes from `cold` on; `seen` are the ceilings already tried. */
  function Passes(inp: Inputs, build: Build, seen: seq<Limits>, cold: Limits, maxPasses: nat): Outcome
    requires inp.Valid() && SameLengths(seen, |inp.ceiling|) && |cold| == |inp.ceiling|
    decreases maxPasses - |seen|
  {
    if |seen| >= maxPasses then NotConverged
    else if build(cold).None? then ScheduleError
    else
      var next := inp.Required(build(cold).value);
      if next == cold then Settle(inp, cold, build(cold).value, |seen| + 1)
      else if IndexOf(seen, next) < |seen| then
        SettleCycle(inp, build, seen[IndexOf(seen, next)..] + [cold, next], |seen| + 1)
      else Passes(inp, build, seen + [cold], next, maxPasses)
  }

  /** build_joint_plan, as the source's loop. */
  method BuildJointPlan(inp: Inputs, build: Build, maxPasses: nat) returns (r: Outcome)
    requires inp.Valid() && maxPasses > 0
    ensures r == Passes(inp, build, [], inp.ceiling, maxPasses)
  {
    var cold, seen := inp.ceiling, [];
    for passes := 1 to maxPasses + 1
      invariant |seen| == passes - 1 && SameLengths(seen, |inp.ceiling|) && |cold| == |inp.ceiling|
      invariant Passes(inp, build, seen, cold, maxPasses) == Passes(inp, build, [], inp.ceiling, maxPasses)
    {
      var plan := build(cold);
      if plan.None? { return ScheduleError; }
      var next := inp.Required(plan.value);
      if next == cold { return Settle(inp, cold, plan.value, passes); }
      var cycleStart := IndexOf(seen, next);
      if cycleStart < |seen| {
        var top := MaxAll(seen[cycleStart..] + [cold, next], |inp.ceiling|);
        var again := build(top);
        if again.None? { return ScheduleError; }
        var required := inp.Required(again.value);
        if Leq(required, top) { return Settle(inp, top, again.value, passes); }
        var raised := MaxOf(top, required);
        var last := build(raised);
        if last.None? { return ScheduleError; }
        return Settle(inp, raised, last.value, passes + 1);
      }
      seen := seen + [cold];
      cold := next;
    }
    r := NotConverged;
  }

  // The operator iterated by the loop, for a payload that never rises with the ceiling

  /** Raising the cold ceiling never raises accepted payload. */
  ghost predicate Antitone(inp: Inputs, build: Build)
    requires inp.Valid()
  {
    forall a, b :: Leq(a, b) && Leq(b, inp.ceiling) && build(a).Some? && build(b).Some? ==>
      Leq(build(b).value, build(a).value)
  }

  lemma RequiredFalls(inp: Inputs, build: Build, a: Limits, b: Limits)
    requires inp.Valid() && Antitone(inp, build)
    requires Leq(a, b) && Leq(b, inp.ceiling) && build(a).Some? && build(b).Some?
    ensures Leq(inp.Required(build(b).value), inp.Required(build(a).value))
  {
    assert Leq(build(b).value, build(a).value);
  }

  /** The ceilings tried so far: each follows from its predecessor, no two are
      equal, and every even one bounds all later ones from above, every odd one
      from below. */
  ghost predicate Chain(inp: Inputs, build: Build, c: seq<Limits>)
    requires inp.Valid()
  {
    && |c| > 0 && c[0] == inp.ceiling && SameLengths(c, |inp.ceiling|)
    && (forall i :: 0 <= i < |c| - 1 ==> build(c[i]).Some? && c[i + 1] == inp.Required(build(c[i]).value))
    && Nested(c)
    && (forall i, j :: 0 <= i < j < |c| ==> c[i] != c[j])
  }

  ghost predicate Bounds(a: Limits, later: Limits, even: bool) {
    if even then Leq(later, a) else Leq(a, later)
  }

  ghost predicate Nested(c: seq<Limits>) {
    forall i, j :: 0 <= i < j < |c| ==> Bounds(c[i], c[j], i % 2 == 0)
  }

  lemma NextIsNested(inp: Inputs, build: Build, c: seq<Limits>, i: nat)
    requires inp.Valid() && Antitone(inp, build) && Chain(inp, build, c)
    requires i < |c| && build(c[|c| - 1]).Some?
    ensures Bounds(c[i], inp.Required(build(c[|c| - 1]).value), i % 2 == 0)
  {
    hide Leq, Inputs.Required;
    var last := c[|c| - 1];
    if i == 0 {
      RequiredUnderCeiling(inp, build(last).value);
    } else {
      var before := c[i - 1];
      assert c[i] == inp.Required(build(before).value);
      assert Bounds(before, last, (i - 1) % 2 == 0);
      UnderCeiling(inp, build, c, i - 1);
      UnderCeiling(inp, build, c, |c| - 1);
      if i % 2 == 0 {
        RequiredFalls(inp, build, before, last);
      } else {
        RequiredFalls(inp, build, last, before);
      }
    }
  }

  lemma RequiredUnderCeiling(inp: Inputs, prg: Limits)
    requires inp.Valid()
    ensures Leq(inp.Required(prg), inp.ceiling)
  {
  }

  lemma UnderCeiling(inp: Inputs, build: Build, c: seq<Limits>, i: nat)
    requires inp.Valid() && Chain(inp, build, c) && i < |c|
    ensures Leq(c[i], inp.ceiling)
  {
    if i > 0 {
      assert Bounds(c[0], c[i], 0 % 2 == 0);
    }
  }

  lemma LeqAntisymmetric(a: Limits, b: Limits)
    requires Leq(a, b) && Leq(b, a)
    ensures a == b
  {
  }

  /** The only earlier ceiling the iteration can return to is the last but one. */
  lemma OnlyTwoCycles(inp: Inputs, build: Build, c: seq<Limits>, j: nat)
    requires inp.Valid() && Antitone(inp, build) && Chain(inp, build, c)
    requires build(c[|c| - 1]).Some? && j < |c| - 1
    requires c[j] == inp.Required(build(c[|c| - 1]).value)
    ensures j == |c| - 2
  {
    hide Leq, Inputs.Required;
    if j < |c| - 2 {
      var next := inp.Required(build(c[|c| - 1]).value);
      NextIsNested(inp, build, c, j + 2);
      assert Bounds(c[j], c[j + 2], j % 2 == 0);
      assert Bounds(c[j + 2], next, j % 2 == 0);
      LeqAntisymmetric(c[j], c[j + 2]);
    }
  }

  lemma ChainGrows(inp: Inputs, build: Build, c: seq<Limits>)
    requires inp.Valid() && Antitone(inp, build) && Chain(inp, build, c)
    requires build(c[|c| - 1]).Some? && inp.Required(build(c[|c| - 1]).value) !in c
    ensures Chain(inp, build, c + [inp.Required(build(c[|c| - 1]).value)])
  {
    hide Leq, Bounds, Inputs.Required;
    var next := inp.Required(build(c[|c| - 1]).value);
    var d := c + [next];
    forall i, j | 0 <= i < j < |d| ensures Bounds(d[i], d[j], i % 2 == 0) {
      if j == |c| { NextIsNested(inp, build, c, i); }
    }
    forall i, j | 0 <= i < j < |d| ensures d[i] != d[j] {
      if j == |c| { assert d[i] in c; }
    }
  }

  lemma MaxOfTwoCycle(a: Limits, b: Limits)
    requires |a| == |b| && (Leq(a, b) || Leq(b, a))
    ensures SameLengths([a, b, a], |a|) && MaxAll([a, b, a], |a|) == if Leq(a, b) then b else a
  {
    MaxOfPair(a, b);
    MaxOfPair(b, a);
    assert [a, b, a][1..] == [b, a] && [b, a][1..] == [a];
    hide Leq, MaxOf;
    assert MaxAll([b, a], |a|) == MaxOf(b, a);
  }

  lemma MaxOfPair(a: Limits, b: Limits)
    requires |a| == |b|
    ensures Leq(a, b) ==> MaxOf(a, b) == MaxOf(b, a) == b && MaxOf(a, a) == a
  {
  }

  /** A found cycle is a two-cycle; its upper element is already self-consistent,
      so it is neither raised nor rejected. */
  lemma CycleSettles(inp: Inputs, build: Build, c: seq<Limits>, j: nat, passes: nat)
    requires inp.Valid() && Antitone(inp, build) && Chain(inp, build, c)
    requires build(c[|c| - 1]).Some? && j < |c| - 1
    requires c[j] == inp.Required(build(c[|c| - 1]).value)
    ensures SameLengths(c[j..|c| - 1] + [c[|c| - 1], c[j]], |inp.ceiling|)
    ensures var r := SettleCycle(inp, build, c[j..|c| - 1] + [c[|c| - 1], c[j]], passes);
            r.Planned? && r.passes == passes && TwoCycle(inp, build, r)
  {
    hide SettleCycle, TwoCycle, Antitone, Leq, Inputs.Required, Nested;
    OnlyTwoCycles(inp, build, c, j);
    var a, b := c[|c| - 2], c[|c| - 1];
    assert c[j..|c| - 1] + [b, c[j]] == [a, b, a];
    LastBounds(inp, build, c);
    PairSettles(inp, build, a, b, passes);
  }

  lemma LastBounds(inp: Inputs, build: Build, c: seq<Limits>)
    requires inp.Valid() && Chain(inp, build, c) && |c| >= 2
    ensures Leq(c[|c| - 2], c[|c| - 1]) || Leq(c[|c| - 1], c[|c| - 2])
  {
    hide Leq;
    assert Bounds(c[|c| - 2], c[|c| - 1], (|c| - 2) % 2 == 0);
  }

  lemma PairSettles(inp: Inputs, build: Build, a: Limits, b: Limits, passes: nat)
    requires inp.Valid() && |a| == |b| == |inp.ceiling| && (Leq(a, b) || Leq(b, a))
    requires build(a).Some? && build(b).Some?
    requires b == inp.Required(build(a).value) && a == inp.Required(build(b).value)
    ensures SameLengths([a, b, a], |inp.ceiling|)
    ensures var r := SettleCycle(inp, build, [a, b, a], passes);
            r.Planned? && r.passes == passes && TwoCycle(inp, build, r)
  {
    MaxOfTwoCycle(a, b);
    IsTwoCycle(inp, build, SettleCycle(inp, build, [a, b, a], passes));
  }

  /** The ceiling that a pass with this accepted payload asks for: no more than the
      original ceiling, and no more than payload plus preload. */
  ghost predicate Follows(inp: Inputs, prg: Limits, next: Limits)
    requires inp.Valid()
  {
    && |next| == |inp.ceiling| && (next != [] ==> next[0] == 0)
    && forall i :: 1 <= i < |next| ==>
         next[i] == if i < |prg| then Min(inp.ceiling[i], prg[i] + inp.preload[i]) else 0
  }

  lemma FollowsRequired(inp: Inputs, prg: Limits, next: Limits)
    requires inp.Valid()
    ensures Follows(inp, prg, next) <==> next == inp.Required(prg)
  {
  }

  /** The accepted ceiling is a fixed point, or the upper of two ceilings that
      lead to each other. */
  ghost predicate TwoCycle(inp: Inputs, build: Build, r: Outcome)
    requires inp.Valid() && r.Planned?
  {
    && build(r.cold) == Some(r.prg)
    && exists low :: Follows(inp, r.prg, low) && LeadsBack(inp, build, low, r.cold)
  }

  ghost predicate LeadsBack(inp: Inputs, build: Build, low: Limits, high: Limits)
    requires inp.Valid()
  {
    && |low| == |high| && (forall i :: 0 <= i < |low| ==> low[i] <= high[i])
    && build(low).Some? && Follows(inp, build(low).value, high)
  }

  lemma IsTwoCycle(inp: Inputs, build: Build, r: Outcome)
    requires inp.Valid() && r.Planned? && build(r.cold) == Some(r.prg) && Leq(inp.Required(r.prg), r.cold)
    requires build(inp.Required(r.prg)).Some? && inp.Required(build(inp.Required(r.prg)).value) == r.cold
    ensures TwoCycle(inp, build, r)
  {
    var low := inp.Required(r.prg);
    FollowsRequired(inp, r.prg, low);
    FollowsRequired(inp, build(low).value, r.cold);
    assert LeadsBack(inp, build, low, r.cold);
  }

  lemma FixedPoint(inp: Inputs, build: Build, cold: Limits, passes: nat)
    requires inp.Valid() && |cold| == |inp.ceiling| && build(cold).Some? && inp.Required(build(cold).value) == cold
    ensures var r := Settle(inp, cold, build(cold).value, passes);
            r.Planned? && TwoCycle(inp, build, r)
  {
    IsTwoCycle(inp, build, Settle(inp, cold, build(cold).value, passes));
  }

  /** Without a schedule error the loop ends in a fixed point or a two-cycle, or
      runs into the pass cap; the final consistency error is unreachable. */
  lemma {:induction false} PassesSettle(inp: Inputs, build: Build, c: seq<Limits>, maxPasses: nat)
    requires inp.Valid() && Antitone(inp, build) && Chain(inp, build, c)
    ensures SameLengths(c[..|c| - 1], |inp.ceiling|)
    ensures var r := Passes(inp, build, c[..|c| - 1], c[|c| - 1], maxPasses);
            !r.NotSelfConsistent? && (r.Planned? ==> TwoCycle(inp, build, r))
    decreases maxPasses - |c|
  {
    hide SettleCycle, TwoCycle, Antitone, Nested, Leq, Inputs.Required;
    var seen, cold := c[..|c| - 1], c[|c| - 1];
    if |seen| < maxPasses && build(cold).Some? {
      var next := inp.Required(build(cold).value);
      if next == cold {
        FixedPoint(inp, build, cold, |seen| + 1);
      } else if IndexOf(seen, next) < |seen| {
        var j := IndexOf(seen, next);
        CycleSettles(inp, build, c, j, |seen| + 1);
        assert seen[j..] == c[j..|c| - 1];
      } else {
        assert seen[..|seen|] == seen;
        assert c == seen + [cold];
        ChainGrows(inp, build, c);
        var d := c + [next];
        assert d[..|d| - 1] == seen + [cold];
        PassesSettle(inp, build, d, maxPasses);
      }
    }
  }

  // The pass cap

  ghost function Distance(a: Limits, b: Limits): nat
    requires |a| == |b|
  {
    if a == [] then 0 else (if a[0] <= b[0] then b[0] - a[0] else a[0] - b[0]) + Distance(a[1..], b[1..])
  }

  lemma {:induction false} DistanceShrinks(low: Limits, mid: Limits, high: Limits)
    requires Leq(low, mid) && Leq(mid, high)
    ensures Distance(low, high) == Distance(low, mid) + Distance(mid, high)
    ensures low != mid ==> Distance(low, mid) > 0
    ensures Distance(low, mid) == Distance(mid, low) && Distance(mid, high) == Distance(high, mid)
    ensures Distance(low, high) == Distance(high, low)
  {
    if low != [] {
      DistanceShrinks(low[1..], mid[1..], high[1..]);
      if low != mid && low[0] == mid[0] {
        assert low == [low[0]] + low[1..] && mid == [mid[0]] + mid[1..];
      }
    }
  }

  ghost function Zero(n: nat): (z: Limits)
    ensures |z| == n && forall i :: 0 <= i < n ==> z[i] == 0
  {
    seq(n, _ => 0)
  }

  ghost function LastGap(c: seq<Limits>, n: nat): nat
    requires |c| >= 2 && SameLengths(c, n)
  {
    Distance(c[|c| - 2], c[|c| - 1])
  }

  lemma GapNarrows(inp: Inputs, build: Build, c: seq<Limits>)
    requires inp.Valid() && Chain(inp, build, c) && |c| >= 3
    ensures LastGap(c, |inp.ceiling|) < Distance(c[|c| - 3], c[|c| - 2])
  {
    hide Distance, Leq;
    var n := |c|;
    var a, b, d := c[n - 3], c[n - 2], c[n - 1];
    assert Bounds(a, d, (n - 3) % 2 == 0) && Bounds(b, d, (n - 2) % 2 == 0);
    assert a != d;
    if n % 2 == 1 {
      DistanceShrinks(b, d, a);
      PositiveDistance(d, a);
    } else {
      DistanceShrinks(a, d, b);
    }
  }

  lemma PositiveDistance(low: Limits, high: Limits)
    requires Leq(low, high) && low != high
    ensures Distance(low, high) == Distance(high, low) > 0
  {
    DistanceShrinks(low, high, high);
  }

  lemma FirstGap(inp: Inputs, build: Build, c: seq<Limits>)
    requires inp.Valid() && Chain(inp, build, c) && |c| == 2
    ensures LastGap(c, |inp.ceiling|) <= Distance(inp.ceiling, Zero(|inp.ceiling|))
  {
    hide Distance;
    assert Bounds(c[0], c[1], 0 % 2 == 0);
    DistanceShrinks(Zero(|inp.ceiling|), c[1], c[0]);
  }

  /** Each pass strictly narrows the gap between the last two ceilings, so their
      number is bounded by the size of the first. */
  lemma {:induction false} ChainIsShort(inp: Inputs, build: Build, c: seq<Limits>)
    requires inp.Valid() && Chain(inp, build, c)
    ensures |c| >= 2 ==> |c| - 2 + LastGap(c, |inp.ceiling|) <= Distance(inp.ceiling, Zero(|inp.ceiling|))
    ensures |c| <= Distance(inp.ceiling, Zero(|inp.ceiling|)) + 1
    decreases |c|
  {
    hide Distance, Chain, Leq, Zero;
    if |c| >= 2 {
      var d := c[..|c| - 1];
      LastTwoDiffer(inp, build, c);
      if |c| == 2 {
        FirstGap(inp, build, c);
      } else {
        ChainPrefix(inp, build, c);
        ChainIsShort(inp, build, d);
        GapNarrows(inp, build, c);
        assert d[|d| - 2] == c[|c| - 3] && d[|d| - 1] == c[|c| - 2];
      }
    }
  }

  lemma LastTwoDiffer(inp: Inputs, build: Build, c: seq<Limits>)
    requires inp.Valid() && Chain(inp, build, c) && |c| >= 2
    ensures LastGap(c, |inp.ceiling|) > 0
  {
    hide Distance, Leq;
    var a, b := c[|c| - 2], c[|c| - 1];
    assert Bounds(a, b, (|c| - 2) % 2 == 0);
    if Leq(a, b) { PositiveDistance(a, b); } else { PositiveDistance(b, a); }
  }

  lemma ChainPrefix(inp: Inputs, build: Build, c: seq<Limits>)
    requires inp.Valid() && Chain(inp, build, c) && |c| >= 2
    ensures Chain(inp, build, c[..|c| - 1])
  {
    var d := c[..|c| - 1];
    forall i, j | 0 <= i < j < |d| ensures Bounds(d[i], d[j], i % 2 == 0) {
      assert Bounds(c[i], c[j], i % 2 == 0);
    }
  }

  lemma {:induction false} CapNotReached(inp: Inputs, build: Build, c: seq<Limits>, maxPasses: nat)
    requires inp.Valid() && Antitone(inp, build) && Chain(inp, build, c)
    requires maxPasses > Distance(inp.ceiling, Zero(|inp.ceiling|))
    ensures SameLengths(c[..|c| - 1], |inp.ceiling|)
    ensures !Passes(inp, build, c[..|c| - 1], c[|c| - 1], maxPasses).NotConverged?
    decreases maxPasses - |c|
  {
    hide Distance, Leq, Antitone, Inputs.Required, Nested;
    var seen, cold := c[..|c| - 1], c[|c| - 1];
    ChainIsShort(inp, build, c);
    if build(cold).Some? {
      var next := inp.Required(build(cold).value);
      if next == cold {
      } else if IndexOf(seen, next) < |seen| {
        assert seen[IndexOf(seen, next)..] + [cold, next] == seen[IndexOf(seen, next)..] + [cold, next];
      } else {
        assert seen[..|seen|] == seen;
        assert c == seen + [cold];
        ChainGrows(inp, build, c);
        var d := c + [next];
        assert d[..|d| - 1] == seen + [cold];
        CapNotReached(inp, build, d, maxPasses);
      }
    }
  }

  /** The joint plan for an antitone pass: every outcome other than a schedule
      error or the pass cap is a self-consistent plan, reached without the final
      raise, and the cap is never reached once it exceeds the total ceiling. */
  lemma JointPlanConverges(inp: Inputs, build: Build, maxPasses: nat)
    requires inp.Valid() && Antitone(inp, build)
    ensures var r := Passes(inp, build, [], inp.ceiling, maxPasses);
            && !r.NotSelfConsistent?
            && (r.Planned? ==> TwoCycle(inp, build, r))
            && (maxPasses > Distance(inp.ceiling, Zero(|inp.ceiling|)) ==> !r.NotConverged?)
  {
    var c := [inp.ceiling];
    assert c[..0] == [];
    PassesSettle(inp, build, c, maxPasses);
    if maxPasses > Distance(inp.ceiling, Zero(|inp.ceiling|)) {
      CapNotReached(inp, build, c, maxPasses);
    }
  }

  // Whatever the pass does

  /** The ceilings of successive passes. */
  ghost predicate Iterates(inp: Inputs, build: Build, c: seq<Limits>)
    requires inp.Valid()
  {
    && |c| > 0 && c[0] == inp.ceiling
    && forall k :: 1 <= k < |c| ==> FollowsAt(inp, build, c, k)
  }

  ghost predicate FollowsAt(inp: Inputs, build: Build, c: seq<Limits>, k: nat)
    requires inp.Valid() && 1 <= k < |c|
  {
    build(c[k - 1]).Some? && Follows(inp, build(c[k - 1]).value, c[k])
  }

  /** t is the elementwise maximum of the ceilings from c[j] on. */
  ghost predicate TopFrom(c: seq<Limits>, j: nat, t: Limits) {
    && (forall k :: j <= k < |c| ==> |c[k]| == |t|)
    && (forall k, i :: j <= k < |c| && 0 <= i < |t| ==> c[k][i] <= t[i])
    && (forall i :: 0 <= i < |t| ==> Attained(c, j, t, i))
  }

  ghost predicate Attained(c: seq<Limits>, j: nat, t: Limits, i: nat)
    requires i < |t| && forall k :: j <= k < |c| ==> |c[k]| == |t|
  {
    exists k :: j <= k < |c| && c[k][i] == t[i]
  }

  /** t raised to what its own pass asks for. */
  ghost predicate RaisedTo(inp: Inputs, build: Build, t: Limits, cold: Limits)
    requires inp.Valid() && |t| == |inp.ceiling|
  {
    && build(t).Some? && |cold| == |t| && (cold != [] ==> cold[0] == t[0])
    && forall i :: 1 <= i < |cold| ==>
         cold[i] == Max(t[i], if i < |build(t).value|
                              then Min(inp.ceiling[i], build(t).value[i] + inp.preload[i]) else 0)
  }

  /** The accepted ceiling is where the passes stand still, or the top of the cycle
      they fell into, or that top raised once. */
  ghost predicate Reached(inp: Inputs, build: Build, c: seq<Limits>, cold: Limits, passes: nat)
    requires inp.Valid()
  {
    || (|c| >= 2 && c[|c| - 2] == c[|c| - 1] == cold && passes == |c| - 1)
    || exists j, t :: Repeats(c, j) && TopFrom(c, j, t) && |t| == |inp.ceiling|
                      && ((cold == t && passes == |c| - 1) || (RaisedTo(inp, build, t, cold) && passes == |c|))
  }

  /** The last ceiling has come up before, two passes or more ago. */
  ghost predicate Repeats(c: seq<Limits>, j: nat) { j < |c| - 2 && c[j] == c[|c| - 1] }

  /** The accepted plan covers payload plus preload within the ceiling. */
  ghost predicate Covers(inp: Inputs, build: Build, r: Outcome)
    requires inp.Valid() && r.Planned?
  {
    && |r.cold| == |inp.ceiling| && build(r.cold) == Some(r.prg) && (r.cold != [] ==> r.cold[0] == 0)
    && forall i :: 1 <= i < |r.cold| ==>
         && r.cold[i] <= inp.ceiling[i]
         && (i < |r.prg| ==> r.cold[i] >= Min(inp.ceiling[i], r.prg[i] + inp.preload[i]))
  }

  lemma {:induction false} TopOfAll(vs: seq<Limits>, n: nat)
    requires |vs| > 0 && SameLengths(vs, n)
    ensures TopFrom(vs, 0, MaxAll(vs, n))
  {
    var t := MaxAll(vs, n);
    if |vs| == 1 {
      forall i | 0 <= i < n ensures Attained(vs, 0, t, i) { assert vs[0][i] == t[i]; }
    } else {
      TopOfAll(vs[1..], n);
      var rest := MaxAll(vs[1..], n);
      assert forall i :: 0 <= i < n ==> vs[0][i] <= t[i] && rest[i] <= t[i];
      forall k, i | 0 <= k < |vs| && 0 <= i < n ensures vs[k][i] <= t[i] {
        if k > 0 { assert vs[1..][k - 1][i] <= rest[i]; }
      }
      forall i | 0 <= i < n ensures Attained(vs, 0, t, i) {
        if t[i] == vs[0][i] {
        } else {
          assert Attained(vs[1..], 0, rest, i);
          var k :| 0 <= k < |vs| - 1 && vs[1..][k][i] == rest[i];
          assert vs[k + 1][i] == t[i];
        }
      }
    }
  }

  lemma TopOfTail(c: seq<Limits>, j: nat, n: nat)
    requires j < |c| && SameLengths(c, n)
    ensures SameLengths(c[j..], n) && TopFrom(c, j, MaxAll(c[j..], n))
  {
    hide MaxAll;
    TopOfAll(c[j..], n);
    var t := MaxAll(c[j..], n);
    forall k, i | j <= k < |c| && 0 <= i < n ensures c[k][i] <= t[i] { assert c[j..][k - j][i] <= t[i]; }
    forall i | 0 <= i < n ensures Attained(c, j, t, i) {
      assert Attained(c[j..], 0, t, i);
      var k :| 0 <= k < |c| - j && c[j..][k][i] == t[i];
      assert c[j + k][i] == t[i];
    }
  }

  lemma IteratesLengths(inp: Inputs, build: Build, c: seq<Limits>)
    requires inp.Valid() && Iterates(inp, build, c)
    ensures |c| > 0 && SameLengths(c, |inp.ceiling|) && SameLengths(c[..|c| - 1], |inp.ceiling|)
    ensures forall k, i :: 0 <= k < |c| && 0 <= i < |inp.ceiling| ==> c[k][i] <= inp.ceiling[i]
  {
    forall k | 0 <= k < |c|
      ensures |c[k]| == |inp.ceiling| && forall i :: 0 <= i < |inp.ceiling| ==> c[k][i] <= inp.ceiling[i]
    {
      if k > 0 { assert FollowsAt(inp, build, c, k); }
    }
  }

  lemma IteratesOn(inp: Inputs, build: Build, c: seq<Limits>)
    requires inp.Valid() && Iterates(inp, build, c) && build(c[|c| - 1]).Some?
    ensures Iterates(inp, build, c + [inp.Required(build(c[|c| - 1]).value)])
  {
    hide Follows;
    var next := inp.Required(build(c[|c| - 1]).value);
    FollowsRequired(inp, build(c[|c| - 1]).value, next);
    var d := c + [next];
    forall k | 1 <= k < |d| ensures FollowsAt(inp, build, d, k) {
      if k < |c| { assert FollowsAt(inp, build, c, k); }
    }
  }

  /** Main result for every pass, antitone or not: an accepted plan covers payload plus
      preload within the ceiling, and its ceiling is a fixed point of the passes
      or the top of their cycle, raised at most once. */
  lemma PlannedCovers(inp: Inputs, build: Build, maxPasses: nat)
    requires inp.Valid()
    ensures var r := Passes(inp, build, [], inp.ceiling, maxPasses);
            r.Planned? ==>
              && Covers(inp, build, r)
              && exists c :: Iterates(inp, build, c) && Reached(inp, build, c, r.cold, r.passes)
  {
    var c := [inp.ceiling];
    assert Iterates(inp, build, c) && c[..0] == [];
    hide Passes, Covers, Reached;
    var d := PassesReach(inp, build, c, maxPasses);
  }

  lemma {:induction false} PassesReach(inp: Inputs, build: Build, c: seq<Limits>, maxPasses: nat)
    returns (d: seq<Limits>)
    requires inp.Valid() && Iterates(inp, build, c)
    ensures SameLengths(c, |inp.ceiling|) && SameLengths(c[..|c| - 1], |inp.ceiling|)
    ensures Iterates(inp, build, d)
    ensures var r := Passes(inp, build, c[..|c| - 1], c[|c| - 1], maxPasses);
            r.Planned? ==> Covers(inp, build, r) && Reached(inp, build, d, r.cold, r.passes)
    decreases maxPasses - |c|
  {
    hide Iterates, Covers, Reached, SettleCycle, Settle, Inputs.Required;
    IteratesLengths(inp, build, c);
    var seen, cold := c[..|c| - 1], c[|c| - 1];
    d := c;
    if |seen| < maxPasses && build(cold).Some? {
      var next := inp.Required(build(cold).value);
      IteratesOn(inp, build, c);
      d := c + [next];
      if next == cold {
        StandsStill(inp, build, c);
      } else if IndexOf(seen, next) < |seen| {
        CycleReached(inp, build, c, IndexOf(seen, next));
      } else {
        assert c == seen + [cold];
        assert d[..|d| - 1] == c;
        d := PassesReach(inp, build, d, maxPasses);
      }
    }
  }

  lemma StandsStill(inp: Inputs, build: Build, c: seq<Limits>)
    requires inp.Valid() && Iterates(inp, build, c) && SameLengths(c, |inp.ceiling|) && build(c[|c| - 1]).Some?
    requires c[|c| - 1] == inp.Required(build(c[|c| - 1]).value)
    ensures var r := Settle(inp, c[|c| - 1], build(c[|c| - 1]).value, |c|);
            r.Planned? && Covers(inp, build, r) && Reached(inp, build, c + [c[|c| - 1]], r.cold, r.passes)
  {
  }

  /** A ceiling that covers what its own pass asks for, within the original ceiling. */
  lemma SettledCovers(inp: Inputs, build: Build, cold: Limits, passes: nat)
    requires inp.Valid() && |cold| == |inp.ceiling| && build(cold).Some? && (cold != [] ==> cold[0] == 0)
    requires forall i :: 0 <= i < |cold| ==> cold[i] <= inp.ceiling[i]
    ensures var r := Settle(inp, cold, build(cold).value, passes);
            r.Planned? ==> r.cold == cold && Covers(inp, build, r)
  {
    assert forall i :: 1 <= i < |cold| && i < |build(cold).value| ==>
      inp.Required(build(cold).value)[i] == Min(inp.ceiling[i], build(cold).value[i] + inp.preload[i]);
  }

  /** The top of a cycle, settled as it is or raised once. */
  lemma TopSettles(inp: Inputs, build: Build, cycle: seq<Limits>, passes: nat)
    requires inp.Valid() && |cycle| > 0 && SameLengths(cycle, |inp.ceiling|)
    requires var t := MaxAll(cycle, |inp.ceiling|);
             (t != [] ==> t[0] == 0) && forall i :: 0 <= i < |t| ==> t[i] <= inp.ceiling[i]
    ensures var r, t := SettleCycle(inp, build, cycle, passes), MaxAll(cycle, |inp.ceiling|);
            r.Planned? ==> Covers(inp, build, r) && ((r.cold == t && r.passes == passes)
                                                     || (RaisedTo(inp, build, t, r.cold) && r.passes == passes + 1))
  {
    hide Covers, Settle, MaxAll, Inputs.Required, RaisedTo, Leq;
    var t := MaxAll(cycle, |inp.ceiling|);
    if build(t).Some? {
      SettledCovers(inp, build, t, passes);
      SettleParts(inp, t, build(t).value, passes);
      RaisedIs(inp, build, t);
      var raised := MaxOf(t, inp.Required(build(t).value));
      if build(raised).Some? {
        SettledCovers(inp, build, raised, passes + 1);
        SettleParts(inp, raised, build(raised).value, passes + 1);
      }
    }
  }

  lemma CycleReached(inp: Inputs, build: Build, c: seq<Limits>, j: nat)
    requires inp.Valid() && Iterates(inp, build, c) && SameLengths(c, |inp.ceiling|) && build(c[|c| - 1]).Some?
    requires j < |c| - 1 && c[j] == inp.Required(build(c[|c| - 1]).value)
    ensures var cycle := c[..|c| - 1][j..] + [c[|c| - 1], c[j]];
            SameLengths(cycle, |inp.ceiling|)
            && var r := SettleCycle(inp, build, cycle, |c|);
               r.Planned? ==> Covers(inp, build, r) && Reached(inp, build, c + [c[j]], r.cold, r.passes)
  {
    hide Covers, SettleCycle, MaxAll, Inputs.Required, RaisedTo, TopFrom, Iterates;
    var d, n := c + [c[j]], |inp.ceiling|;
    assert d[j..] == c[..|c| - 1][j..] + [c[|c| - 1], c[j]];
    assert Repeats(d, j);
    IteratesOn(inp, build, c);
    IteratesLengths(inp, build, d);
    TopOfTail(d, j, n);
    TopWithin(inp, d, j, MaxAll(d[j..], n));
    TopSettles(inp, build, d[j..], |c|);
  }

  lemma SettleParts(inp: Inputs, cold: Limits, prg: Limits, passes: nat)
    requires inp.Valid() && |cold| == |inp.ceiling|
    ensures var r := Settle(inp, cold, prg, passes); r.Planned? ==> r.cold == cold && r.passes == passes
  {
    hide Leq, Inputs.Required;
  }

  lemma TopWithin(inp: Inputs, c: seq<Limits>, j: nat, t: Limits)
    requires inp.Valid() && SameLengths(c, |inp.ceiling|) && |t| == |inp.ceiling| && TopFrom(c, j, t)
    requires forall k, i :: 0 <= k < |c| && 0 <= i < |inp.ceiling| ==> c[k][i] <= inp.ceiling[i]
    ensures forall i :: 0 <= i < |t| ==> t[i] <= inp.ceiling[i]
    ensures t != [] ==> t[0] == 0
  {
    forall i | 0 <= i < |t| ensures t[i] <= inp.ceiling[i] {
      assert Attained(c, j, t, i);
      var k :| j <= k < |c| && c[k][i] == t[i];
    }
  }

  lemma RaisedIs(inp: Inputs, build: Build, t: Limits)
    requires inp.Valid() && |t| == |inp.ceiling| && build(t).Some? && (t != [] ==> t[0] == 0)
    requires forall i :: 0 <= i < |t| ==> t[i] <= inp.ceiling[i]
    ensures var raised := MaxOf(t, inp.Required(build(t).value));
            && RaisedTo(inp, build, t, raised) && (raised != [] ==> raised[0] == 0)
            && forall i :: 0 <= i < |raised| ==> raised[i] <= inp.ceiling[i]
  {
    RequiredUnderCeiling(inp, build(t).value);
  }

  // Without antitonicity the fallback can fail

  /** A pass whose payload is not antitone: two frames trade payload. */
  function Trading(cold: Limits): Option<Limits> {
    if cold == [0, 3, 3] then Some([0, 2, 0])
    else if cold == [0, 2, 0] then Some([0, 0, 2])
    else if cold == [0, 0, 2] then Some([0, 2, 0])
    else if cold == [0, 2, 2] then Some([0, 3, 0])
    else if cold == [0, 3, 2] then Some([0, 0, 3])
    else None
  }

  lemma PassGoesOn(inp: Inputs, build: Build, seen: seq<Limits>, cold: Limits, next: Limits, maxPasses: nat)
    requires inp.Valid() && SameLengths(seen, |inp.ceiling|) && |cold| == |inp.ceiling| && |seen| < maxPasses
    requires build(cold).Some? && next == inp.Required(build(cold).value) && next != cold && next !in seen
    ensures Passes(inp, build, seen, cold, maxPasses) == Passes(inp, build, seen + [cold], next, maxPasses)
  {
  }

  lemma PassCycles(inp: Inputs, build: Build, seen: seq<Limits>, cold: Limits, next: Limits, maxPasses: nat, at: nat)
    requires inp.Valid() && SameLengths(seen, |inp.ceiling|) && |cold| == |inp.ceiling| && |seen| < maxPasses
    requires build(cold).Some? && next == inp.Required(build(cold).value) && next != cold
    requires at < |seen| && seen[at] == next && next !in seen[..at]
    ensures SameLengths(seen[at..] + [cold, next], |inp.ceiling|)
    ensures Passes(inp, build, seen, cold, maxPasses)
         == SettleCycle(inp, build, seen[at..] + [cold, next], |seen| + 1)
  {
    assert IndexOf(seen, next) == at;
  }

  lemma TradingIsNotAntitone()
    ensures var inp := Inputs([0, 3, 3], [0, 0, 0]); inp.Valid() && !Antitone(inp, Trading)
  {
    var inp := Inputs([0, 3, 3], [0, 0, 0]);
    var a: Limits, t: Limits := [0, 2, 0], [0, 2, 2];
    assert Leq(a, t) && Leq(t, inp.ceiling) && Trading(a) == Some([0, 0, 2]) && Trading(t) == Some([0, 3, 0]);
    assert [0, 3, 0][1] > [0, 0, 2][1];
  }

  /** The stated reason for the fallback, that a raised ceiling never raises
      payload, is needed: for this pass the single raise is not enough and the
      final consistency error is reached. */
  lemma FallbackNeedsAntitone()
    ensures var inp := Inputs([0, 3, 3], [0, 0, 0]);
            inp.Valid() && !Antitone(inp, Trading)
            && Passes(inp, Trading, [], inp.ceiling, 32) == NotSelfConsistent([0, 3, 2], [0, 0, 3])
  {
    hide Passes, SettleCycle, Antitone;
    TradingIsNotAntitone();
    TradingSettles();
    var inp := Inputs([0, 3, 3], [0, 0, 0]);
    var a: Limits, b: Limits, c: Limits := [0, 2, 0], [0, 0, 2], [0, 3, 3];
    assert inp.Required(a) == a && inp.Required(b) == b;
    assert a[1] != c[1] && a[1] != b[1];
    PassGoesOn(inp, Trading, [], c, a, 32);
    PassGoesOn(inp, Trading, [c], a, b, 32);
    assert [] + [c] == [c] && [c] + [a] == [c, a] && [c, a][1..] == [a] && [c, a][..1] == [c];
    PassCycles(inp, Trading, [c, a], b, a, 32, 1);
  }

  lemma TradingTop()
    ensures var cycle := [[0, 2, 0]] + [[0, 0, 2], [0, 2, 0]];
            SameLengths(cycle, 3) && MaxAll(cycle, 3) == [0, 2, 2]
  {
    var a: Limits, b: Limits := [0, 2, 0], [0, 0, 2];
    var cycle := [a] + [b, a];
    assert cycle[1..] == [b, a] && [b, a][1..] == [a];
    assert MaxOf(b, a) == [0, 2, 2] && MaxOf(a, [0, 2, 2]) == [0, 2, 2];
    assert MaxAll([b, a], 3) == [0, 2, 2];
  }

  lemma TradingSettles()
    ensures var inp, cycle := Inputs([0, 3, 3], [0, 0, 0]), [[0, 2, 0]] + [[0, 0, 2], [0, 2, 0]];
            SameLengths(cycle, 3)
            && SettleCycle(inp, Trading, cycle, 3) == NotSelfConsistent([0, 3, 2], [0, 0, 3])
  {
    hide MaxAll, MaxOf, Leq, Inputs.Required;
    TradingTop();
    TradingRaises();
    TradingRequires();
  }

  lemma TradingRequires()
    ensures var inp := Inputs([0, 3, 3], [0, 0, 0]);
            inp.Required([0, 3, 0]) == [0, 3, 0] && inp.Required([0, 0, 3]) == [0, 0, 3]
  {
  }

  lemma TradingRaises()
    ensures !Leq([0, 3, 0], [0, 2, 2]) && MaxOf([0, 2, 2], [0, 3, 0]) == [0, 3, 2] && !Leq([0, 0, 3], [0, 3, 2])
  {
    assert [0, 3, 0][1] > [0, 2, 2][1];
    assert [0, 0, 3][2] > [0, 3, 2][2];
  }
}
