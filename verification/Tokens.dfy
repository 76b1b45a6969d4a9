/** The counting locks of tools/resource_tokens.py.  Processes that share one
    resource directory take numbered slot files with flock, one try at a time;
    the kernel serialises single tries and closes, so a run of the system is any
    interleaving of the steps below.  Every call of acquire_tokens opens its own
    descriptors and is a claim of its own. */
module Tokens {
  import opened Arith

  /** Where a call stands: scanning the slots, closing what a failed scan got,
      asleep, refused, holding a lease, or done with it. */
  datatype Phase =
    | Scanning(next: nat, held: seq<nat>)
    | Closing(held: seq<nat>)
    | Waiting
    | Refused
    | Leased(held: seq<nat>)
    | Releasing(held: seq<nat>)

  datatype Claim = Claim(process: nat, count: nat, phase: Phase) {
    /** The slots whose descriptors the call has open. */
    function Held(): seq<nat> {
      match phase
      case Scanning(_, held) => held
      case Closing(held) => held
      case Leased(held) => held
      case Releasing(held) => held
      case Waiting => []
      case Refused => []
    }
  }

  /** Which claim has each slot locked, and every claim of a living process. */
  datatype System = System(slots: seq<Option<nat>>, claims: map<nat, Claim>)

  datatype Step =
    | Begin(id: nat, process: nat, count: int)
    | TryLock(id: nat)
    | EndScan(id: nat)
    | CloseOne(id: nat)
    | Sleep(id: nat)
    | Wake(id: nat)
    | Refuse(id: nat)
    | StartRelease(id: nat)
    | CloseLast(id: nat)
    | Exit(process: nat)

  predicate Enabled(s: System, step: Step) {
    match step
    case Begin(id, _, count) => id !in s.claims && 0 < count <= |s.slots|
    case TryLock(id) => id in s.claims && s.claims[id].phase.Scanning? && s.claims[id].phase.next < |s.slots|
    case EndScan(id) => id in s.claims && s.claims[id].phase.Scanning? && s.claims[id].phase.next >= |s.slots|
    case CloseOne(id) =>
      id in s.claims && s.claims[id].phase.Closing? && s.claims[id].phase.held != []
      && s.claims[id].phase.held[0] < |s.slots|
    case Sleep(id) => id in s.claims && s.claims[id].phase == Closing([])
    case Wake(id) => id in s.claims && s.claims[id].phase.Waiting?
    case Refuse(id) => id in s.claims && s.claims[id].phase == Closing([])
    case StartRelease(id) => id in s.claims && s.claims[id].phase.Leased?
    case CloseLast(id) =>
      id in s.claims && s.claims[id].phase.Releasing? && s.claims[id].phase.held != []
      && s.claims[id].phase.held[|s.claims[id].phase.held| - 1] < |s.slots|
    case Exit(_) => true
  }

  function Move(s: System, id: nat, phase: Phase): System
    requires id in s.claims
  {
    s.(claims := s.claims[id := s.claims[id].(phase := phase)])
  }

  /** The flock of one slot and what the scan does with the answer. */
  function AfterTry(s: System, id: nat): System
    requires Enabled(s, TryLock(id))
  {
    var claim, k := s.claims[id], s.claims[id].phase.next;
    if s.slots[k].Some? then Move(s, id, Scanning(k + 1, claim.phase.held))
    else
      var held := claim.phase.held + [k];
      Move(s.(slots := s.slots[k := Some(id)]), id,
           if |held| == claim.count then Leased(held) else Scanning(k + 1, held))
  }

  /** A process exit closes all its descriptors. */
  function AfterExit(s: System, process: nat): System {
    System(seq(|s.slots|, k requires 0 <= k < |s.slots| =>
             if s.slots[k].Some? && s.slots[k].value in s.claims && s.claims[s.slots[k].value].process == process
             then None else s.slots[k]),
           map id | id in s.claims && s.claims[id].process != process :: s.claims[id])
  }

  function After(s: System, step: Step): System
    requires Enabled(s, step)
  {
    match step
    case Begin(id, process, count) => s.(claims := s.claims[id := Claim(process, count, Scanning(0, []))])
    case TryLock(id) => AfterTry(s, id)
    case EndScan(id) => Move(s, id, Closing(s.claims[id].phase.held))
    case CloseOne(id) =>
      var held := s.claims[id].phase.held;
      Move(s.(slots := s.slots[held[0] := None]), id, Closing(held[1..]))
    case Sleep(id) => Move(s, id, Waiting)
    case Wake(id) => Move(s, id, Scanning(0, []))
    case Refuse(id) => Move(s, id, Refused)
    case StartRelease(id) => Move(s, id, Releasing(s.claims[id].phase.held))
    case CloseLast(id) =>
      var held := s.claims[id].phase.held;
      Move(s.(slots := s.slots[held[|held| - 1] := None]), id, Releasing(held[..|held| - 1]))
    case Exit(process) => AfterExit(s, process)
  }

  function Start(capacity: nat): System { System(seq(capacity, _ => None), map[]) }

  /** What an interleaving of steps makes of an idle resource. */
  function Run(capacity: nat, steps: seq<Step>): Option<System> {
    if steps == [] then Some(Start(capacity))
    else
      var was, step := Run(capacity, steps[..|steps| - 1]), steps[|steps| - 1];
      if was.Some? && Enabled(was.value, step) then Some(After(was.value, step)) else None
  }

  // The invariant

  ghost predicate Distinct(held: seq<nat>) { forall i, j :: 0 <= i < j < |held| ==> held[i] != held[j] }

  /** What a claim's phase says about the slots it has. */
  ghost predicate Sane(claim: Claim, capacity: nat) {
    && 0 < claim.count <= capacity && Distinct(claim.Held())
    && (claim.phase.Scanning? ==> |claim.phase.held| < claim.count
                                  && forall k :: k in claim.phase.held ==> k < claim.phase.next)
    && (claim.phase.Closing? ==> |claim.phase.held| < claim.count)
    && (claim.phase.Leased? ==> |claim.phase.held| == claim.count)
    && (claim.phase.Releasing? ==> |claim.phase.held| <= claim.count)
  }

  /** Slot k is locked by exactly the claim that has it open. */
  ghost predicate Owned(s: System, k: nat)
    requires k < |s.slots|
  {
    forall id :: s.slots[k] == Some(id) <==> id in s.claims && k in s.claims[id].Held()
  }

  ghost predicate Inv(s: System, capacity: nat) {
    && |s.slots| == capacity
    && (forall id :: id in s.claims ==> Sane(s.claims[id], capacity))
    && (forall id, k :: id in s.claims && k in s.claims[id].Held() ==> k < capacity)
    && (forall k :: 0 <= k < capacity ==> Owned(s, k))
  }

  lemma OwnedAt(s: System, capacity: nat, id: nat, k: nat)
    requires Inv(s, capacity) && k < capacity
    ensures s.slots[k] == Some(id) <==> id in s.claims && k in s.claims[id].Held()
  {
    assert Owned(s, k);
  }

  /** A claim whose open slots do not change. */
  lemma PhaseKeeps(s: System, capacity: nat, id: nat, phase: Phase)
    requires Inv(s, capacity) && id in s.claims
    requires var claim := s.claims[id].(phase := phase); claim.Held() == s.claims[id].Held() && Sane(claim, capacity)
    ensures Inv(Move(s, id, phase), capacity)
  {
    hide Sane;
    var next := Move(s, id, phase);
    forall k | 0 <= k < capacity ensures Owned(next, k) {
      forall other ensures next.slots[k] == Some(other) <==> other in next.claims && k in next.claims[other].Held() {
        OwnedAt(s, capacity, other, k);
      }
    }
  }

  /** A claim that locks a free slot. */
  lemma TakeKeeps(s: System, capacity: nat, id: nat, k: nat, phase: Phase)
    requires Inv(s, capacity) && id in s.claims && k < capacity && s.slots[k].None?
    requires var claim := s.claims[id].(phase := phase);
             claim.Held() == s.claims[id].Held() + [k] && Sane(claim, capacity)
    ensures Inv(Move(s.(slots := s.slots[k := Some(id)]), id, phase), capacity)
  {
    hide Sane;
    var next := Move(s.(slots := s.slots[k := Some(id)]), id, phase);
    forall j | 0 <= j < capacity ensures Owned(next, j) {
      forall other ensures next.slots[j] == Some(other) <==> other in next.claims && j in next.claims[other].Held() {
        OwnedAt(s, capacity, other, j);
      }
    }
  }

  /** A claim that closes one of its slots. */
  lemma DropKeeps(s: System, capacity: nat, id: nat, k: nat, phase: Phase)
    requires Inv(s, capacity) && id in s.claims && k < capacity && k in s.claims[id].Held()
    requires var claim := s.claims[id].(phase := phase);
             Sane(claim, capacity) && forall j :: j in claim.Held() <==> j in s.claims[id].Held() && j != k
    ensures Inv(Move(s.(slots := s.slots[k := None]), id, phase), capacity)
  {
    hide Sane;
    var next := Move(s.(slots := s.slots[k := None]), id, phase);
    OwnedAt(s, capacity, id, k);
    forall j | 0 <= j < capacity ensures Owned(next, j) {
      forall other ensures next.slots[j] == Some(other) <==> other in next.claims && j in next.claims[other].Held() {
        OwnedAt(s, capacity, other, j);
      }
    }
  }

  lemma BeginKeeps(s: System, capacity: nat, id: nat, process: nat, count: int)
    requires Inv(s, capacity) && Enabled(s, Begin(id, process, count))
    ensures Inv(After(s, Begin(id, process, count)), capacity)
  {
    var next := After(s, Begin(id, process, count));
    forall k | 0 <= k < capacity ensures Owned(next, k) {
      forall other ensures next.slots[k] == Some(other) <==> other in next.claims && k in next.claims[other].Held() {
        OwnedAt(s, capacity, other, k);
      }
    }
  }

  lemma ExitKeeps(s: System, capacity: nat, process: nat)
    requires Inv(s, capacity)
    ensures Inv(AfterExit(s, process), capacity)
  {
    hide Sane;
    var next := AfterExit(s, process);
    forall k | 0 <= k < capacity ensures Owned(next, k) {
      forall other ensures next.slots[k] == Some(other) <==> other in next.claims && k in next.claims[other].Held() {
        OwnedAt(s, capacity, other, k);
      }
    }
  }

  lemma TryKeeps(s: System, capacity: nat, id: nat)
    requires Inv(s, capacity) && Enabled(s, TryLock(id))
    ensures Inv(AfterTry(s, id), capacity)
  {
    var claim, k := s.claims[id], s.claims[id].phase.next;
    var held := claim.phase.held + [k];
    assert |s.slots| == capacity && Sane(claim, capacity);
    hide Inv;
    ScanGoesOn(claim, capacity);
    hide Sane;
    if s.slots[k].Some? {
      PhaseKeeps(s, capacity, id, Scanning(k + 1, claim.phase.held));
    } else {
      TakeKeeps(s, capacity, id, k, if |held| == claim.count then Leased(held) else Scanning(k + 1, held));
    }
  }

  /** A scan step leaves the claim sane, whether it takes the slot or not. */
  lemma ScanGoesOn(claim: Claim, capacity: nat)
    requires Sane(claim, capacity) && claim.phase.Scanning?
    ensures var k, held := claim.phase.next, claim.phase.held + [claim.phase.next];
            && Sane(claim.(phase := Scanning(k + 1, claim.phase.held)), capacity)
            && Sane(claim.(phase := if |held| == claim.count then Leased(held) else Scanning(k + 1, held)), capacity)
  {
    var held := claim.phase.held;
    forall i | 0 <= i < |held| ensures held[i] < claim.phase.next { assert held[i] in held; }
    assert Distinct(held + [claim.phase.next]);
  }

  lemma ClosesFirst(s: System, capacity: nat, id: nat)
    requires Inv(s, capacity) && Enabled(s, CloseOne(id))
    ensures Inv(After(s, CloseOne(id)), capacity)
  {
    var held := s.claims[id].phase.held;
    assert Sane(s.claims[id], capacity) && held == [held[0]] + held[1..];
    DropKeeps(s, capacity, id, held[0], Closing(held[1..]));
  }

  lemma ClosesLast(s: System, capacity: nat, id: nat)
    requires Inv(s, capacity) && Enabled(s, CloseLast(id))
    ensures Inv(After(s, CloseLast(id)), capacity)
  {
    var held := s.claims[id].phase.held;
    var front, last := held[..|held| - 1], held[|held| - 1];
    assert Sane(s.claims[id], capacity) && |s.slots| == capacity;
    hide Inv;
    FrontIsRest(held);
    DropKeeps(s, capacity, id, last, Releasing(front));
  }

  lemma FrontIsRest(held: seq<nat>)
    requires Distinct(held) && held != []
    ensures var front, last := held[..|held| - 1], held[|held| - 1];
            Distinct(front) && last in held && forall j :: j in front <==> j in held && j != last
  {
    assert held == held[..|held| - 1] + [held[|held| - 1]];
  }

  /** Every step, by any process, keeps the invariant. */
  lemma StepKeeps(s: System, capacity: nat, step: Step)
    requires Inv(s, capacity) && Enabled(s, step)
    ensures Inv(After(s, step), capacity)
  {
    hide Owned;
    match step
    case Begin(id, process, count) => BeginKeeps(s, capacity, id, process, count);
    case TryLock(id) => TryKeeps(s, capacity, id);
    case EndScan(id) => PhaseKeeps(s, capacity, id, Closing(s.claims[id].phase.held));
    case CloseOne(id) => ClosesFirst(s, capacity, id);
    case Sleep(id) => PhaseKeeps(s, capacity, id, Waiting);
    case Wake(id) => PhaseKeeps(s, capacity, id, Scanning(0, []));
    case Refuse(id) => PhaseKeeps(s, capacity, id, Refused);
    case StartRelease(id) => PhaseKeeps(s, capacity, id, Releasing(s.claims[id].phase.held));
    case CloseLast(id) => ClosesLast(s, capacity, id);
    case Exit(process) => ExitKeeps(s, capacity, process);
  }

  lemma {:induction false} RunKeeps(capacity: nat, steps: seq<Step>)
    requires Run(capacity, steps).Some?
    ensures Inv(Run(capacity, steps).value, capacity)
  {
    hide Inv, Enabled, After;
    if steps == [] {
      StartsSane(capacity);
    } else {
      RunKeeps(capacity, steps[..|steps| - 1]);
      StepKeeps(Run(capacity, steps[..|steps| - 1]).value, capacity, steps[|steps| - 1]);
    }
  }

  lemma StartsSane(capacity: nat)
    ensures Inv(Start(capacity), capacity)
  {
  }

  // What every interleaving guarantees

  ghost function SetOf(held: seq<nat>): set<nat> { set k | k in held }

  ghost function SlotsOf(claim: Claim): set<nat> { SetOf(claim.Held()) }

  lemma {:induction false} DistinctCount(held: seq<nat>)
    requires Distinct(held)
    ensures |SetOf(held)| == |held|
  {
    if held == [] {
      assert SetOf(held) == {};
    } else {
      var front, last := held[..|held| - 1], held[|held| - 1];
      DistinctCount(front);
      assert held == front + [last] && last !in SetOf(front);
      assert SetOf(held) == SetOf(front) + {last};
    }
  }

  /** Leases are disjoint, each of exactly the requested number of slots; a claim
      that sleeps or was refused has no slot open. */
  lemma LeasesAreExact(capacity: nat, steps: seq<Step>, id: nat, other: nat)
    requires Run(capacity, steps).Some?
    requires id in Run(capacity, steps).value.claims && other in Run(capacity, steps).value.claims
    ensures var claims := Run(capacity, steps).value.claims;
            && (claims[id].phase.Leased? ==> |SlotsOf(claims[id])| == claims[id].count)
            && (id != other ==> SlotsOf(claims[id]) !! SlotsOf(claims[other]))
            && (claims[id].phase.Waiting? || claims[id].phase.Refused? ==>
                  forall k :: 0 <= k < capacity ==> k < |Run(capacity, steps).value.slots|
                                                    && Run(capacity, steps).value.slots[k] != Some(id))
  {
    hide Run;
    RunKeeps(capacity, steps);
    var s := Run(capacity, steps).value;
    DistinctCount(s.claims[id].Held());
    forall k | 0 <= k < capacity
      ensures s.slots[k] == Some(id) <==> k in s.claims[id].Held()
      ensures s.slots[k] == Some(other) <==> k in s.claims[other].Held()
    {
      OwnedAt(s, capacity, id, k);
      OwnedAt(s, capacity, other, k);
    }
  }

  /** Slots open in any of the given claims, counted claim by claim. */
  ghost function TotalHeld(s: System, ids: set<nat>): nat
    requires ids <= s.claims.Keys
    decreases |ids|
  {
    if ids == {} then 0
    else
      var id :| id in ids;
      |SlotsOf(s.claims[id])| + TotalHeld(s, ids - {id})
  }

  /** The slots of the given claims together. */
  ghost function Union(s: System, capacity: nat, ids: set<nat>): set<nat>
    requires ids <= s.claims.Keys
  {
    set k | 0 <= k < capacity && HeldByAny(s, ids, k)
  }

  ghost predicate HeldByAny(s: System, ids: set<nat>, k: nat)
    requires ids <= s.claims.Keys
  {
    exists id :: id in ids && k in s.claims[id].Held()
  }

  lemma {:induction false} TotalIsUnion(s: System, capacity: nat, ids: set<nat>)
    requires Inv(s, capacity) && ids <= s.claims.Keys
    ensures TotalHeld(s, ids) == |Union(s, capacity, ids)|
    decreases |ids|
  {
    hide Inv, Union, SlotsOf;
    if ids == {} {
      NoUnion(s, capacity);
    } else {
      var id :| id in ids && TotalHeld(s, ids) == |SlotsOf(s.claims[id])| + TotalHeld(s, ids - {id});
      hide TotalHeld;
      TotalIsUnion(s, capacity, ids - {id});
      UnionSplits(s, capacity, ids, id);
    }
  }

  lemma NoUnion(s: System, capacity: nat)
    ensures Union(s, capacity, {}) == {}
  {
  }

  /** A claim's slots are nobody else's. */
  lemma UnionSplits(s: System, capacity: nat, ids: set<nat>, id: nat)
    requires Inv(s, capacity) && ids <= s.claims.Keys && id in ids
    ensures var mine, rest := SlotsOf(s.claims[id]), Union(s, capacity, ids - {id});
            Union(s, capacity, ids) == mine + rest && mine !! rest
  {
    hide Sane;
    var mine, rest := SlotsOf(s.claims[id]), Union(s, capacity, ids - {id});
    forall k | k in mine ensures k !in rest {
      forall other | other in ids - {id} ensures k !in s.claims[other].Held() {
        OwnedAt(s, capacity, id, k);
        OwnedAt(s, capacity, other, k);
      }
    }
    forall k ensures k in Union(s, capacity, ids) <==> k in mine + rest {
      assert HeldByAny(s, ids, k) <==> k in s.claims[id].Held() || HeldByAny(s, ids - {id}, k);
    }
  }

  lemma {:induction false} RangeCount(capacity: nat, b: set<nat>)
    requires forall k :: k in b ==> k < capacity
    ensures |b| <= capacity
    decreases capacity
  {
    if capacity > 0 {
      RangeCount(capacity - 1, b - {capacity - 1});
      assert b <= (b - {capacity - 1}) + {capacity - 1};
    } else {
      assert b == {};
    }
  }

  /** All claims together never have more slots open than there are. */
  lemma WithinCapacity(capacity: nat, steps: seq<Step>)
    requires Run(capacity, steps).Some?
    ensures TotalHeld(Run(capacity, steps).value, Run(capacity, steps).value.claims.Keys) <= capacity
  {
    hide Run, Inv;
    RunKeeps(capacity, steps);
    var s := Run(capacity, steps).value;
    TotalIsUnion(s, capacity, s.claims.Keys);
    RangeCount(capacity, Union(s, capacity, s.claims.Keys));
  }

  /** acquire_stem locks one slot of a one-slot resource, so a stem has one owner.
      A re-entrant lease opens nothing and is no claim. */
  lemma OneStemOwner(steps: seq<Step>, id: nat, other: nat)
    requires Run(1, steps).Some?
    requires id in Run(1, steps).value.claims && other in Run(1, steps).value.claims
    requires Run(1, steps).value.claims[id].phase.Leased? && Run(1, steps).value.claims[other].phase.Leased?
    ensures id == other
  {
    hide Run;
    RunKeeps(1, steps);
    var s := Run(1, steps).value;
    assert Sane(s.claims[id], 1) && Sane(s.claims[other], 1);
    assert s.claims[id].Held()[0] in s.claims[id].Held() && s.claims[other].Held()[0] in s.claims[other].Held();
    OwnedAt(s, 1, id, 0);
    OwnedAt(s, 1, other, 0);
  }

  /** Once every claim has ended or its process has exited, all slots are free. */
  lemma NothingLeaks(capacity: nat, steps: seq<Step>)
    requires Run(capacity, steps).Some?
    requires forall id :: id in Run(capacity, steps).value.claims ==> Run(capacity, steps).value.claims[id].Held() == []
    ensures Run(capacity, steps).value.slots == Start(capacity).slots
  {
    hide Run;
    RunKeeps(capacity, steps);
    var s := Run(capacity, steps).value;
    forall k | 0 <= k < capacity ensures s.slots[k].None? {
      if s.slots[k].Some? { OwnedAt(s, capacity, s.slots[k].value, k); }
    }
  }
}
