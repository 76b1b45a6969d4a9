/** When a scan among other processes succeeds (tools/resource_tokens.py,
    acquire_tokens): exactly when the slots its rivals may lock meanwhile leave
    enough others. */
module TokenScans {
  import opened Arith
  import opened Tokens

  /** Rivals' locks stay inside a set of slots. */
  ghost predicate Confined(s: System, id: nat, rivals: set<nat>) {
    forall k :: 0 <= k < |s.slots| && s.slots[k].Some? && s.slots[k].value != id ==> k in rivals
  }

  /** A step of a rival, or one more try of the scanning claim. */
  predicate Scans(step: Step, id: nat, process: nat) {
    match step
    case Begin(_, _, _) => true
    case TryLock(_) => true
    case EndScan(other) => other != id
    case CloseOne(other) => other != id
    case Sleep(other) => other != id
    case Wake(other) => other != id
    case Refuse(other) => other != id
    case StartRelease(other) => other != id
    case CloseLast(other) => other != id
    case Exit(p) => p != process
  }

  /** The steps lead from s to e, with rivals confined at every point. */
  ghost predicate Path(s: System, steps: seq<Step>, e: System, id: nat, process: nat, rivals: set<nat>)
    decreases |steps|
  {
    && Confined(s, id, rivals)
    && if steps == [] then s == e
       else Scans(steps[0], id, process) && Enabled(s, steps[0])
            && Path(After(s, steps[0]), steps[1..], e, id, process, rivals)
  }

  function Tries(steps: seq<Step>, id: nat): nat {
    if steps == [] then 0 else (if steps[0] == TryLock(id) then 1 else 0) + Tries(steps[1..], id)
  }

  ghost function Below(rivals: set<nat>, n: nat): set<nat> { set k | k in rivals && k < n }

  lemma BelowNext(rivals: set<nat>, n: nat)
    ensures |Below(rivals, n + 1)| == |Below(rivals, n)| + if n in rivals then 1 else 0
    ensures |Below(rivals, n)| <= |rivals|
  {
    assert Below(rivals, n + 1) == Below(rivals, n) + if n in rivals then {n} else {};
    assert rivals == Below(rivals, n) + (rivals - Below(rivals, n));
  }

  // Enough slots left: the scan leases

  /** The claim scans, and every slot it passed without locking is a rival's; or it
      has its lease. */
  ghost predicate OnCourse(s: System, id: nat, process: nat, count: nat, rivals: set<nat>, tries: nat) {
    && id in s.claims && s.claims[id].process == process && s.claims[id].count == count
    && (s.claims[id].phase.Leased?
        || (s.claims[id].phase.Scanning? && s.claims[id].phase.next == tries
            && tries - |s.claims[id].phase.held| <= |Below(rivals, tries)|))
  }

  lemma RivalsLeaveClaim(s: System, step: Step, id: nat, process: nat)
    requires id in s.claims && s.claims[id].process == process && Enabled(s, step) && Scans(step, id, process)
    requires step != TryLock(id)
    ensures id in After(s, step).claims && After(s, step).claims[id] == s.claims[id]
  {
  }

  lemma OwnTry(s: System, capacity: nat, id: nat, process: nat, count: nat, rivals: set<nat>, tries: nat)
    requires Inv(s, capacity) && Confined(s, id, rivals) && OnCourse(s, id, process, count, rivals, tries)
    requires Enabled(s, TryLock(id))
    ensures OnCourse(AfterTry(s, id), id, process, count, rivals, tries + 1)
  {
    hide Below;
    BelowNext(rivals, tries);
    OwnedAt(s, capacity, id, tries);
    assert Sane(s.claims[id], capacity);
  }

  lemma {:induction false} StaysOnCourse(s: System, steps: seq<Step>, e: System, capacity: nat, id: nat, process: nat,
                                         count: nat, rivals: set<nat>, tries: nat)
    requires Inv(s, capacity) && OnCourse(s, id, process, count, rivals, tries)
             && Path(s, steps, e, id, process, rivals)
    ensures Inv(e, capacity) && OnCourse(e, id, process, count, rivals, tries + Tries(steps, id))
    decreases |steps|
  {
    hide Inv, Confined, OnCourse, Enabled, After;
    if steps != [] {
      var next := After(s, steps[0]);
      StepKeeps(s, capacity, steps[0]);
      if steps[0] == TryLock(id) {
        OwnTry(s, capacity, id, process, count, rivals, tries);
        TryIsAfter(s, id);
        StaysOnCourse(next, steps[1..], e, capacity, id, process, count, rivals, tries + 1);
      } else {
        RivalStep(s, steps[0], id, process, count, rivals, tries);
        StaysOnCourse(next, steps[1..], e, capacity, id, process, count, rivals, tries);
      }
    }
  }

  lemma TryIsAfter(s: System, id: nat)
    requires Enabled(s, TryLock(id))
    ensures After(s, TryLock(id)) == AfterTry(s, id)
  {
  }

  lemma RivalStep(s: System, step: Step, id: nat, process: nat, count: nat, rivals: set<nat>, tries: nat)
    requires OnCourse(s, id, process, count, rivals, tries) && Enabled(s, step) && Scans(step, id, process)
    requires step != TryLock(id)
    ensures OnCourse(After(s, step), id, process, count, rivals, tries)
  {
    RivalsLeaveClaim(s, step, id, process);
    hide Enabled, After, Below;
  }

  /** However its rivals interleave, a scan whose rivals stay inside a set that
      leaves `count` other slots is never refused: it leases on the way, at the
      latest with its last try. */
  lemma ConfinedScanLeases(s: System, steps: seq<Step>, e: System, capacity: nat, id: nat, rivals: set<nat>)
    requires Inv(s, capacity) && id in s.claims && s.claims[id].phase == Scanning(0, [])
    requires Path(s, steps, e, id, s.claims[id].process, rivals) && |rivals| + s.claims[id].count <= capacity
    ensures id in e.claims && !Enabled(e, EndScan(id))
    ensures e.claims[id].phase.Leased?
            || (e.claims[id].phase.Scanning? && e.claims[id].phase.next == Tries(steps, id) < capacity)
  {
    hide Path, Inv, Below;
    var claim := s.claims[id];
    StaysOnCourse(s, steps, e, capacity, id, claim.process, claim.count, rivals, 0);
    BelowNext(rivals, Tries(steps, id));
    SaneAt(e, capacity, id);
  }

  lemma SaneAt(s: System, capacity: nat, id: nat)
    requires Inv(s, capacity) && id in s.claims
    ensures Sane(s.claims[id], capacity) && |s.slots| == capacity
  {
  }

  // Too few left: some interleaving refuses it

  /** The slots below n that are not in the set. */
  function Others(rivals: set<nat>, n: nat): (r: seq<nat>)
    ensures forall k :: k in r ==> k < n
  {
    if n == 0 then [] else Others(rivals, n - 1) + if n - 1 in rivals then [] else [n - 1]
  }

  lemma {:induction false} OthersCount(rivals: set<nat>, n: nat)
    ensures |Others(rivals, n)| + |Below(rivals, n)| == n
  {
    if n == 0 {
      assert Below(rivals, 0) == {};
    } else {
      OthersCount(rivals, n - 1);
      BelowNext(rivals, n - 1);
    }
  }

  lemma {:induction false} OthersGrow(rivals: set<nat>, n: nat, m: nat)
    requires n <= m
    ensures |Others(rivals, n)| <= |Others(rivals, m)|
    decreases m
  {
    if n < m { OthersGrow(rivals, n, m - 1); }
  }

  /** Claim 0 has scanned n slots and locked those outside the set; a rival of its
      own holds each slot inside it. */
  function CrowdSlots(capacity: nat, rivals: set<nat>, n: nat): seq<Option<nat>> {
    seq(capacity, k requires 0 <= k < capacity =>
      if k >= n then None else if k in rivals then Some(k + 1) else Some(0))
  }

  function CrowdClaims(count: nat, rivals: set<nat>, n: nat): map<nat, Claim> {
    if n == 0 then map[0 := Claim(0, count, Scanning(0, []))]
    else
      var was := CrowdClaims(count, rivals, n - 1);
      var now := if n - 1 in rivals then was[n := Claim(n, 1, Leased([n - 1]))] else was;
      now[0 := Claim(0, count, Scanning(n, Others(rivals, n)))]
  }

  function Crowd(capacity: nat, count: nat, rivals: set<nat>, n: nat): System {
    System(CrowdSlots(capacity, rivals, n), CrowdClaims(count, rivals, n))
  }

  lemma {:induction false} CrowdClaimsAre(count: nat, rivals: set<nat>, n: nat)
    ensures 0 in CrowdClaims(count, rivals, n)
    ensures CrowdClaims(count, rivals, n)[0] == Claim(0, count, Scanning(n, Others(rivals, n)))
    ensures forall id :: id in CrowdClaims(count, rivals, n) ==> id <= n
  {
    if n > 0 { CrowdClaimsAre(count, rivals, n - 1); }
  }

  /** The rival for slot n, part of the way through its scan. */
  function Arriving(capacity: nat, count: nat, rivals: set<nat>, n: nat, j: nat): System {
    var c := Crowd(capacity, count, rivals, n);
    c.(claims := c.claims[n + 1 := Claim(n + 1, 1, Scanning(j, []))])
  }

  /** ... and with its lock. */
  function Arrived(capacity: nat, count: nat, rivals: set<nat>, n: nat): System
    requires n < capacity
  {
    var c := Crowd(capacity, count, rivals, n);
    System(c.slots[n := Some(n + 1)], c.claims[n + 1 := Claim(n + 1, 1, Leased([n]))])
  }

  lemma CrowdConfined(capacity: nat, count: nat, rivals: set<nat>, n: nat)
    ensures Confined(Crowd(capacity, count, rivals, n), 0, rivals)
    ensures forall j :: Confined(Arriving(capacity, count, rivals, n, j), 0, rivals)
    ensures n < capacity && n in rivals ==> Confined(Arrived(capacity, count, rivals, n), 0, rivals)
  {
    hide CrowdClaims;
  }

  lemma OneStep(s: System, step: Step, e: System, rivals: set<nat>)
    requires Confined(s, 0, rivals) && Confined(e, 0, rivals) && Scans(step, 0, 0) && Enabled(s, step)
             && After(s, step) == e
    ensures Path(s, [step], e, 0, 0, rivals)
  {
    hide Enabled, After, Scans, Confined;
    assert [step][1..] == [];
    assert Path(e, [], e, 0, 0, rivals);
  }

  lemma {:induction false} PathConcat(s: System, a: seq<Step>, m: System, b: seq<Step>, e: System, rivals: set<nat>)
    requires Path(s, a, m, 0, 0, rivals) && Path(m, b, e, 0, 0, rivals)
    ensures Path(s, a + b, e, 0, 0, rivals)
    decreases |a|
  {
    hide Enabled, After, Scans, Confined;
    if a == [] {
      assert a + b == b;
    } else {
      PathConcat(After(s, a[0]), a[1..], m, b, e, rivals);
      assert (a + b)[1..] == a[1..] + b;
    }
  }

  /** The rival passes the locked slots below n. */
  lemma {:induction false} RivalPasses(capacity: nat, count: nat, rivals: set<nat>, n: nat, j: nat)
    returns (steps: seq<Step>)
    requires j <= n < capacity && 0 < count <= capacity
    ensures Path(Crowd(capacity, count, rivals, n), steps, Arriving(capacity, count, rivals, n, j), 0, 0, rivals)
  {
    var c := Crowd(capacity, count, rivals, n);
    CrowdConfined(capacity, count, rivals, n);
    CrowdClaimsAre(count, rivals, n);
    hide CrowdClaims, Confined;
    if j == 0 {
      steps := [Begin(n + 1, n + 1, 1)];
      OneStep(c, steps[0], Arriving(capacity, count, rivals, n, 0), rivals);
    } else {
      var before := RivalPasses(capacity, count, rivals, n, j - 1);
      var mid := Arriving(capacity, count, rivals, n, j - 1);
      assert mid.slots[j - 1].Some?;
      Overwritten(c.claims, n + 1, Claim(n + 1, 1, Scanning(j - 1, [])), Claim(n + 1, 1, Scanning(j, [])));
      OneStep(mid, TryLock(n + 1), Arriving(capacity, count, rivals, n, j), rivals);
      PathConcat(c, before, mid, [TryLock(n + 1)], Arriving(capacity, count, rivals, n, j), rivals);
      steps := before + [TryLock(n + 1)];
    }
  }

  lemma Overwritten(m: map<nat, Claim>, k: nat, a: Claim, b: Claim)
    ensures m[k := a][k := b] == m[k := b] && m[k := a][k] == a
  {
  }

  /** Claim 0's next slot, taken by a rival first if it is in the set. */
  lemma CrowdGrows(capacity: nat, count: nat, rivals: set<nat>, n: nat) returns (steps: seq<Step>)
    requires n < capacity && 0 < count <= capacity && |Others(rivals, n + 1)| < count
    ensures Path(Crowd(capacity, count, rivals, n), steps, Crowd(capacity, count, rivals, n + 1), 0, 0, rivals)
  {
    var c, next := Crowd(capacity, count, rivals, n), Crowd(capacity, count, rivals, n + 1);
    CrowdConfined(capacity, count, rivals, n);
    CrowdConfined(capacity, count, rivals, n + 1);
    CrowdClaimsAre(count, rivals, n);
    hide Confined;
    if n in rivals {
      var before := RivalPasses(capacity, count, rivals, n, n);
      var mid, taken := Arriving(capacity, count, rivals, n, n), Arrived(capacity, count, rivals, n);
      RivalTakes(capacity, count, rivals, n);
      OneStep(mid, TryLock(n + 1), taken, rivals);
      FoundTaken(capacity, count, rivals, n);
      OneStep(taken, TryLock(0), next, rivals);
      PathConcat(c, before, mid, [TryLock(n + 1)], taken, rivals);
      PathConcat(c, before + [TryLock(n + 1)], taken, [TryLock(0)], next, rivals);
      steps := before + [TryLock(n + 1)] + [TryLock(0)];
    } else {
      FoundFree(capacity, count, rivals, n);
      OneStep(c, TryLock(0), next, rivals);
      steps := [TryLock(0)];
    }
  }

  lemma RivalTakes(capacity: nat, count: nat, rivals: set<nat>, n: nat)
    requires n < capacity
    ensures Enabled(Arriving(capacity, count, rivals, n, n), TryLock(n + 1))
    ensures After(Arriving(capacity, count, rivals, n, n), TryLock(n + 1)) == Arrived(capacity, count, rivals, n)
  {
    var c := Crowd(capacity, count, rivals, n);
    Overwritten(c.claims, n + 1, Claim(n + 1, 1, Scanning(n, [])), Claim(n + 1, 1, Leased([n])));
    hide CrowdClaims;
    assert [] + [n] == [n];
  }

  lemma FoundTaken(capacity: nat, count: nat, rivals: set<nat>, n: nat)
    requires n < capacity && n in rivals
    ensures Enabled(Arrived(capacity, count, rivals, n), TryLock(0))
    ensures After(Arrived(capacity, count, rivals, n), TryLock(0)) == Crowd(capacity, count, rivals, n + 1)
  {
    CrowdClaimsAre(count, rivals, n);
    assert Others(rivals, n + 1) == Others(rivals, n);
    assert CrowdSlots(capacity, rivals, n)[n := Some(n + 1)] == CrowdSlots(capacity, rivals, n + 1);
  }

  lemma FoundFree(capacity: nat, count: nat, rivals: set<nat>, n: nat)
    requires n < capacity && n !in rivals && |Others(rivals, n + 1)| < count
    ensures Enabled(Crowd(capacity, count, rivals, n), TryLock(0))
    ensures After(Crowd(capacity, count, rivals, n), TryLock(0)) == Crowd(capacity, count, rivals, n + 1)
  {
    CrowdClaimsAre(count, rivals, n);
    assert CrowdSlots(capacity, rivals, n)[n := Some(0)] == CrowdSlots(capacity, rivals, n + 1);
  }

  lemma {:induction false} CrowdGathers(capacity: nat, count: nat, rivals: set<nat>, n: nat) returns (steps: seq<Step>)
    requires n <= capacity && 0 < count <= capacity && |Others(rivals, capacity)| < count
    ensures Path(Crowd(capacity, count, rivals, 0), steps, Crowd(capacity, count, rivals, n), 0, 0, rivals)
  {
    hide Crowd, Others, Path;
    if n == 0 {
      steps := [];
      NoSteps(capacity, count, rivals);
    } else {
      var before := CrowdGathers(capacity, count, rivals, n - 1);
      OthersGrow(rivals, n, capacity);
      var more := CrowdGrows(capacity, count, rivals, n - 1);
      PathConcat(Crowd(capacity, count, rivals, 0), before, Crowd(capacity, count, rivals, n - 1), more,
                 Crowd(capacity, count, rivals, n), rivals);
      steps := before + more;
    }
  }

  lemma NoSteps(capacity: nat, count: nat, rivals: set<nat>)
    ensures Path(Crowd(capacity, count, rivals, 0), [], Crowd(capacity, count, rivals, 0), 0, 0, rivals)
  {
    CrowdConfined(capacity, count, rivals, 0);
  }

  // The exact condition

  /** A call for `count` slots of an idle resource can come to the end of its scan
      empty-handed although rivals only ever lock slots of the set. */
  ghost predicate Refusable(capacity: nat, count: nat, rivals: set<nat>) {
    exists steps, e :: RefusingRun(capacity, count, rivals, steps, e)
  }

  ghost predicate RefusingRun(capacity: nat, count: nat, rivals: set<nat>, steps: seq<Step>, e: System) {
    && Enabled(Start(capacity), Begin(0, 0, count))
    && Path(After(Start(capacity), Begin(0, 0, count)), steps, e, 0, 0, rivals) && Enabled(e, EndScan(0))
  }

  /** A scan can be refused if and only if its rivals may lock so many slots that
      fewer than `count` are left. */
  lemma RefusableIff(capacity: nat, count: nat, rivals: set<nat>)
    requires 0 < count <= capacity && forall k :: k in rivals ==> k < capacity
    ensures Refusable(capacity, count, rivals) <==> |rivals| + count > capacity
  {
    hide Path;
    var s := After(Start(capacity), Begin(0, 0, count));
    StartsSane(capacity);
    BeginKeeps(Start(capacity), capacity, 0, 0, count);
    if |rivals| + count > capacity {
      assert Below(rivals, capacity) == rivals;
      OthersCount(rivals, capacity);
      var steps := CrowdGathers(capacity, count, rivals, capacity);
      CrowdClaimsAre(count, rivals, capacity);
      assert s == Crowd(capacity, count, rivals, 0);
      assert RefusingRun(capacity, count, rivals, steps, Crowd(capacity, count, rivals, capacity));
    } else if steps, e :| RefusingRun(capacity, count, rivals, steps, e) {
      ConfinedScanLeases(s, steps, e, capacity, 0, rivals);
    }
  }
}
