/** One call of acquire_tokens with nobody else moving, and the lease it returns
    (tools/resource_tokens.py); and what other processes' steps can do to it. */
module TokenLeases {
  import opened Arith
  import opened Tokens

  type Locks = seq<Option<nat>>

  /** Free slots below n, in scan order. */
  function Free(o: Locks, n: nat): (f: seq<nat>)
    requires n <= |o|
    ensures forall k: nat :: k in f <==> k < n && o[k].None?
    ensures forall i :: 0 <= i < |f| ==> f[i] < n
    ensures Distinct(f)
  {
    if n == 0 then [] else Free(o, n - 1) + if o[n - 1].None? then [n - 1] else []
  }

  function Locked(o: Locks, held: seq<nat>, id: nat): (r: Locks)
    ensures |r| == |o|
  {
    seq(|o|, k requires 0 <= k < |o| => if k in held then Some(id) else o[k])
  }

  function Unlocked(o: Locks, held: seq<nat>): (r: Locks)
    ensures |r| == |o|
  {
    seq(|o|, k requires 0 <= k < |o| => if k in held then None else o[k])
  }

  /** A release undoes its acquisition. */
  lemma ReleaseRestores(o: Locks, held: seq<nat>, id: nat)
    requires forall k :: k in held ==> k < |o| && o[k].None?
    ensures Unlocked(Locked(o, held, id), held) == o
  {
  }

  lemma FreeNext(o: Locks, m: nat)
    requires 0 < m <= |o|
    ensures Free(o, m) == Free(o, m - 1) + if o[m - 1].None? then [m - 1] else []
  {
  }

  lemma {:induction false} FreePrefix(o: Locks, n: nat, m: nat)
    requires n <= m <= |o|
    ensures Free(o, n) <= Free(o, m)
  {
    if n < m {
      hide Free;
      FreePrefix(o, n, m - 1);
      FreeNext(o, m);
    }
  }

  /** The slot files of one resource directory. */
  class Directory {
    const owner: array<Option<nat>>

    constructor (capacity: nat)
      ensures fresh(owner) && owner.Length == capacity && owner[..] == Start(capacity).slots
    {
      owner := new Option<nat>[capacity](_ => None);
    }

    /** _open_locked without blocking. */
    method OpenLocked(k: nat, id: nat) returns (locked: bool)
      requires k < owner.Length
      modifies owner
      ensures locked == old(owner[k]).None?
      ensures owner[..] == if locked then old(owner[..])[k := Some(id)] else old(owner[..])
    {
      locked := owner[k].None?;
      if locked { owner[k] := Some(id); }
    }

    /** acquire_tokens with wait=False: the first `count` free slots, or none at all. */
    method Acquire(id: nat, count: int) returns (r: Result<seq<nat>>)
      modifies owner
      ensures r.Ok? <==> 0 < count <= |Free(old(owner[..]), owner.Length)|
      ensures r.Ok? ==> r.value == Free(old(owner[..]), owner.Length)[..count]
                        && owner[..] == Locked(old(owner[..]), r.value, id)
      ensures r.Err? ==> owner[..] == old(owner[..])
    {
      hide Free, Locked, Unlocked;
      ghost var o := owner[..];
      FreeFits(o, owner.Length);
      NoneFree(o);
      if owner.Length == 0 || count <= 0 || count > owner.Length { return Err("invalid token request"); }
      var descriptors: seq<nat> := [];
      for index := 0 to owner.Length
        invariant descriptors == Free(o, index) && |descriptors| < count
        invariant owner[..] == Locked(o, descriptors, id)
      {
        LockedNext(o, descriptors, id, index);
        var locked := OpenLocked(index, id);
        if locked {
          descriptors := descriptors + [index];
          if |descriptors| == count {
            FreePrefix(o, index + 1, owner.Length);
            return Ok(descriptors);
          }
        }
      }
      ReleaseRestores(o, descriptors, id);
      CloseAll(descriptors);
      return Err("resource busy");
    }

    method CloseAll(descriptors: seq<nat>)
      requires forall k :: k in descriptors ==> k < owner.Length
      modifies owner
      ensures owner[..] == Unlocked(old(owner[..]), descriptors)
    {
      ghost var o := owner[..];
      assert Unlocked(o, []) == o;
      for i := 0 to |descriptors|
        invariant owner[..] == Unlocked(o, descriptors[..i])
      {
        assert descriptors[i] in descriptors;
        assert descriptors[..i + 1] == descriptors[..i] + [descriptors[i]];
        owner[descriptors[i]] := None;
      }
      assert descriptors[..|descriptors|] == descriptors;
    }
  }

  lemma {:induction false} FreeFits(o: Locks, n: nat)
    requires n <= |o|
    ensures |Free(o, n)| <= n
  {
    if n > 0 { FreeFits(o, n - 1); }
  }

  lemma LockedNext(o: Locks, held: seq<nat>, id: nat, k: nat)
    requires k < |o| && held == Free(o, k)
    ensures Locked(o, held, id)[k] == o[k]
    ensures Free(o, k + 1) == if o[k].None? then held + [k] else held
    ensures Locked(o, held + [k], id) == Locked(o, held, id)[k := Some(id)]
  {
  }

  /** TokenLease: the descriptors a call got, emptied by its first release. */
  class TokenLease {
    const directory: Directory
    var descriptors: seq<nat>
    const reentrant: bool

    ghost predicate Valid()
      reads this
    {
      forall k :: k in descriptors ==> k < directory.owner.Length
    }

    constructor (directory: Directory, descriptors: seq<nat>, reentrant: bool)
      requires forall k :: k in descriptors ==> k < directory.owner.Length
      ensures Valid() && this.directory == directory && this.descriptors == descriptors && this.reentrant == reentrant
    {
      this.directory, this.descriptors, this.reentrant := directory, descriptors, reentrant;
    }

    method Release()
      requires Valid()
      modifies this`descriptors, directory.owner
      ensures Valid() && descriptors == []
      ensures directory.owner[..] == Unlocked(old(directory.owner[..]), old(descriptors))
    {
      ghost var o, all := directory.owner[..], descriptors;
      assert Unlocked(o, []) == o && forall k :: k in all ==> k < directory.owner.Length;
      while descriptors != []
        invariant |descriptors| <= |all| && descriptors == all[..|descriptors|]
        invariant directory.owner[..] == Unlocked(o, all[|descriptors|..])
        decreases |descriptors|
      {
        var last := descriptors[|descriptors| - 1];
        assert last in all;
        assert all[|descriptors| - 1..] == [last] + all[|descriptors|..];
        descriptors := descriptors[..|descriptors| - 1];
        directory.owner[last] := None;
      }
      assert all[0..] == all;
    }
  }

  /** acquire_stem with wait=False.  A process whose environment already names the
      stem gets a re-entrant lease that locks nothing. */
  method AcquireStem(directory: Directory, stem: nat, heldStems: set<nat>, id: nat) returns (r: Result<TokenLease>)
    requires directory.owner.Length == 1
    modifies directory.owner
    ensures r.Ok? <==> stem in heldStems || old(directory.owner[0]).None?
    ensures r.Ok? ==> fresh(r.value) && r.value.Valid() && r.value.directory == directory
                      && r.value.reentrant == (stem in heldStems)
                      && r.value.descriptors == if stem in heldStems then [] else [0]
    ensures directory.owner[0] == if r.Ok? && stem !in heldStems then Some(id) else old(directory.owner[0])
  {
    if stem in heldStems {
      var lease := new TokenLease(directory, [], true);
      return Ok(lease);
    }
    FreeOne(directory.owner[..]);
    var slots := directory.Acquire(id, 1);
    assert directory.owner[0] == directory.owner[..][0];
    if slots.Err? { return Err(slots.message); }
    var lease := new TokenLease(directory, slots.value, false);
    r := Ok(lease);
  }

  lemma FreeOne(o: Locks)
    requires |o| == 1
    ensures Free(o, 1) == if o[0].None? then [0] else []
  {
    assert Free(o, 0) == [];
  }

  // The uninterrupted scan, inside the system of interleaved steps

  /** n tries of one claim in a row, as long as it scans. */
  function Solo(s: System, id: nat, n: nat): System {
    if n == 0 then s
    else
      var was := Solo(s, id, n - 1);
      if Enabled(was, TryLock(id)) then After(was, TryLock(id)) else was
  }

  /** Left alone, a scan does what Acquire does: it leases the first `count` free
      slots if there are that many, and otherwise ends holding all free ones,
      which it closes before it sleeps or gives up. */
  lemma {:induction false} SoloScan(s: System, id: nat, n: nat)
    requires id in s.claims && s.claims[id].phase == Scanning(0, []) && s.claims[id].count > 0 && n <= |s.slots|
    ensures var free, count := Free(s.slots, n), s.claims[id].count;
            Solo(s, id, n) == if |free| < count
                              then Move(s.(slots := Locked(s.slots, free, id)), id, Scanning(n, free))
                              else Move(s.(slots := Locked(s.slots, free[..count], id)), id, Leased(free[..count]))
  {
    hide Free, Locked, Solo, Move;
    if n == 0 {
      SoloNone(s, id);
    } else {
      SoloScan(s, id, n - 1);
      LockedNext(s.slots, Free(s.slots, n - 1), id, n - 1);
      SoloTry(s, id, n);
    }
  }

  lemma SoloNone(s: System, id: nat)
    requires id in s.claims && s.claims[id].phase == Scanning(0, [])
    ensures Free(s.slots, 0) == [] && Solo(s, id, 0) == Move(s.(slots := Locked(s.slots, [], id)), id, Scanning(0, []))
  {
    NoneFree(s.slots);
    assert s.claims[id].(phase := Scanning(0, [])) == s.claims[id];
    assert s.claims[id := s.claims[id]] == s.claims;
  }

  lemma NoneFree(o: Locks)
    ensures Free(o, 0) == [] && forall id :: Locked(o, [], id) == o
  {
  }

  lemma SoloTry(s: System, id: nat, n: nat)
    requires id in s.claims && 0 < n <= |s.slots| && s.claims[id].count > 0
    requires var free, count, k := Free(s.slots, n - 1), s.claims[id].count, n - 1;
             && Solo(s, id, k) == (if |free| < count
                                  then Move(s.(slots := Locked(s.slots, free, id)), id, Scanning(k, free))
                                  else Move(s.(slots := Locked(s.slots, free[..count], id)), id, Leased(free[..count])))
             && Locked(s.slots, free, id)[k] == s.slots[k]
             && Free(s.slots, n) == (if s.slots[k].None? then free + [k] else free)
             && Locked(s.slots, free + [k], id) == Locked(s.slots, free, id)[k := Some(id)]
    ensures var free, count := Free(s.slots, n), s.claims[id].count;
            Solo(s, id, n) == if |free| < count
                              then Move(s.(slots := Locked(s.slots, free, id)), id, Scanning(n, free))
                              else Move(s.(slots := Locked(s.slots, free[..count], id)), id, Leased(free[..count]))
  {
    hide Free, Locked, Solo;
    var free, count, k: nat := Free(s.slots, n - 1), s.claims[id].count, n - 1;
    SoloNext(s, id, k);
    if |free| < count {
      var was := Move(s.(slots := Locked(s.slots, free, id)), id, Scanning(k, free));
      MoveTwice(s, Locked(s.slots, free, id), Locked(s.slots, Free(s.slots, n), id), id,
                Scanning(k, free), Scanning(n, Free(s.slots, n)));
      MoveTwice(s, Locked(s.slots, free, id), Locked(s.slots, free + [k], id), id,
                Scanning(k, free), Leased(free + [k]));
      assert |free + [k]| == count ==> (free + [k])[..count] == free + [k];
      assert AfterTry(was, id) == Solo(s, id, n);
    } else {
      assert (free + [k])[..count] == free[..count];
    }
  }

  lemma SoloNext(s: System, id: nat, k: nat)
    ensures Solo(s, id, k + 1)
            == if Enabled(Solo(s, id, k), TryLock(id)) then After(Solo(s, id, k), TryLock(id)) else Solo(s, id, k)
  {
  }

  lemma MoveTwice(s: System, o: Locks, o': Locks, id: nat, p: Phase, p': Phase)
    requires id in s.claims
    ensures Move(Move(s.(slots := o), id, p).(slots := o'), id, p') == Move(s.(slots := o'), id, p')
  {
    var c := s.claims;
    assert c[id := c[id].(phase := p)][id := c[id].(phase := p')] == c[id := c[id].(phase := p')];
  }

  // With others moving

  lemma RunStep(capacity: nat, steps: seq<Step>, s: System, step: Step)
    requires Run(capacity, steps) == Some(s) && Enabled(s, step)
    ensures Run(capacity, steps + [step]) == Some(After(s, step))
  {
    hide Enabled, After;
    assert (steps + [step])[..|steps|] == steps;
  }

  const CLASH: seq<Step> :=
    [Begin(1, 1, 2), Begin(2, 2, 2), TryLock(1), TryLock(2), TryLock(2), TryLock(1)]
    + [EndScan(1), EndScan(2), CloseOne(1), CloseOne(2), Refuse(1), Refuse(2)]

  /** Two calls for two slots each, in the given phases. */
  function Rivals(slot0: Option<nat>, slot1: Option<nat>, a: Phase, b: Phase): System {
    System([slot0, slot1], map[1 := Claim(1, 2, a), 2 := Claim(2, 2, b)])
  }

  lemma Rivalry(o0: Option<nat>, o1: Option<nat>, a: Phase, b: Phase)
    ensures forall p :: Move(Rivals(o0, o1, a, b), 1, p) == Rivals(o0, o1, p, b)
    ensures forall p :: Move(Rivals(o0, o1, a, b), 2, p) == Rivals(o0, o1, a, p)
    ensures forall x :: Rivals(o0, o1, a, b).slots[0 := x] == [x, o1] && Rivals(o0, o1, a, b).slots[1 := x] == [o0, x]
  {
    forall p
      ensures Move(Rivals(o0, o1, a, b), 1, p) == Rivals(o0, o1, p, b)
      ensures Move(Rivals(o0, o1, a, b), 2, p) == Rivals(o0, o1, a, p)
    {
      RivalMoves(o0, o1, a, b, p);
    }
  }

  lemma RivalMoves(o0: Option<nat>, o1: Option<nat>, a: Phase, b: Phase, p: Phase)
    ensures Move(Rivals(o0, o1, a, b), 1, p) == Rivals(o0, o1, p, b)
    ensures Move(Rivals(o0, o1, a, b), 2, p) == Rivals(o0, o1, a, p)
  {
    assert Move(Rivals(o0, o1, a, b), 1, p).claims == Rivals(o0, o1, p, b).claims;
    assert Move(Rivals(o0, o1, a, b), 2, p).claims == Rivals(o0, o1, a, p).claims;
  }

  /** A rival locks a slot or closes one. */
  lemma RivalSteps(o0: Option<nat>, o1: Option<nat>, a: Phase, b: Phase, p: Phase, x: Option<nat>)
    ensures Move(Rivals(o0, o1, a, b).(slots := Rivals(o0, o1, a, b).slots[0 := x]), 1, p) == Rivals(x, o1, p, b)
    ensures Move(Rivals(o0, o1, a, b).(slots := Rivals(o0, o1, a, b).slots[1 := x]), 2, p) == Rivals(o0, x, a, p)
  {
    Rivalry(o0, o1, a, b);
    Rivalry(x, o1, a, b);
    Rivalry(o0, x, a, b);
  }

  ghost predicate At(i: nat, s: System)
    requires i <= |CLASH|
  {
    Run(2, CLASH[..i]) == Some(s) && forall id :: id in s.claims ==> !s.claims[id].phase.Leased?
  }

  lemma ClashStep(i: nat, s: System, next: System)
    requires i < |CLASH| && At(i, s) && Enabled(s, CLASH[i]) && After(s, CLASH[i]) == next
    requires forall id :: id in next.claims ==> !next.claims[id].phase.Leased?
    ensures At(i + 1, next)
  {
    hide Enabled, After, Run;
    RunStep(2, CLASH[..i], s, CLASH[i]);
    assert CLASH[..i + 1] == CLASH[..i] + [CLASH[i]];
  }

  lemma ClashBegins()
    ensures At(2, Rivals(None, None, Scanning(0, []), Scanning(0, [])))
  {
    hide At;
    var start, first := Start(2), System([None, None], map[1 := Claim(1, 2, Scanning(0, []))]);
    var both := Rivals(None, None, Scanning(0, []), Scanning(0, []));
    assert At(0, start) by { Unstarted(); }
    ClashStep(0, start, first);
    assert first.claims[2 := Claim(2, 2, Scanning(0, []))] == both.claims;
    ClashStep(1, first, both);
  }

  lemma ClashScans()
    ensures At(4, Rivals(Some(1), None, Scanning(1, [0]), Scanning(1, [])))
  {
    hide At;
    ClashBegins();
    var both := Rivals(None, None, Scanning(0, []), Scanning(0, []));
    var taken := Rivals(Some(1), None, Scanning(1, [0]), Scanning(0, []));
    RivalSteps(None, None, Scanning(0, []), Scanning(0, []), Scanning(1, [0]), Some(1));
    assert After(both, TryLock(1)) == taken by { assert [] + [0] == [0]; }
    ClashStep(2, both, taken);
    Rivalry(Some(1), None, Scanning(1, [0]), Scanning(0, []));
    assert After(taken, TryLock(2)) == Rivals(Some(1), None, Scanning(1, [0]), Scanning(1, []));
    ClashStep(3, taken, Rivals(Some(1), None, Scanning(1, [0]), Scanning(1, [])));
  }

  lemma Unstarted()
    ensures At(0, Start(2))
  {
    assert CLASH[..0] == [];
  }

  lemma ClashEnds()
    ensures At(8, Rivals(Some(1), Some(2), Closing([0]), Closing([1])))
  {
    hide At;
    ClashScans();
    var s4 := Rivals(Some(1), None, Scanning(1, [0]), Scanning(1, []));
    var s5 := Rivals(Some(1), Some(2), Scanning(1, [0]), Scanning(2, [1]));
    var s6 := Rivals(Some(1), Some(2), Scanning(2, [0]), Scanning(2, [1]));
    var s7 := Rivals(Some(1), Some(2), Closing([0]), Scanning(2, [1]));
    RivalSteps(Some(1), None, Scanning(1, [0]), Scanning(1, []), Scanning(2, [1]), Some(2));
    assert After(s4, TryLock(2)) == s5 by { assert [] + [1] == [1]; }
    ClashStep(4, s4, s5);
    Rivalry(Some(1), Some(2), Scanning(1, [0]), Scanning(2, [1]));
    assert After(s5, TryLock(1)) == s6;
    ClashStep(5, s5, s6);
    Rivalry(Some(1), Some(2), Scanning(2, [0]), Scanning(2, [1]));
    assert After(s6, EndScan(1)) == s7;
    ClashStep(6, s6, s7);
    Rivalry(Some(1), Some(2), Closing([0]), Scanning(2, [1]));
    assert After(s7, EndScan(2)) == Rivals(Some(1), Some(2), Closing([0]), Closing([1]));
    ClashStep(7, s7, Rivals(Some(1), Some(2), Closing([0]), Closing([1])));
  }

  /** Two calls can refuse each other: each gets one of the two slots the other
      needs, so both give up although all slots were free and no lease was out. */
  lemma BothRefused()
    ensures At(12, Rivals(None, None, Refused, Refused)) && CLASH[..12] == CLASH
  {
    hide At;
    ClashEnds();
    var s8 := Rivals(Some(1), Some(2), Closing([0]), Closing([1]));
    var s9 := Rivals(None, Some(2), Closing([]), Closing([1]));
    var s10 := Rivals(None, None, Closing([]), Closing([]));
    var s11 := Rivals(None, None, Refused, Closing([]));
    RivalSteps(Some(1), Some(2), Closing([0]), Closing([1]), Closing([]), None);
    assert After(s8, CloseOne(1)) == s9 by { assert [0][1..] == []; }
    ClashStep(8, s8, s9);
    RivalSteps(None, Some(2), Closing([]), Closing([1]), Closing([]), None);
    assert After(s9, CloseOne(2)) == s10 by { assert [1][1..] == []; }
    ClashStep(9, s9, s10);
    Rivalry(None, None, Closing([]), Closing([]));
    assert After(s10, Refuse(1)) == s11;
    ClashStep(10, s10, s11);
    Rivalry(None, None, Refused, Closing([]));
    assert After(s11, Refuse(2)) == Rivals(None, None, Refused, Refused);
    ClashStep(11, s11, Rivals(None, None, Refused, Refused));
  }
}
