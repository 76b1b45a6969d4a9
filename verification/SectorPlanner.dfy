/**
  The online planner that hands out control and Prg work from one sector pool
  (tools/physical_budget.py, SharedSectorPlanner).

  With a ring capacity the source also consults a delivery schedule; here that
  oracle is a parameter of the two calls that use it.
*/
module SectorPlanner {
  import opened Arith
  import opened SectorPrefix

  datatype Limit = Limit(prg: nat, cold: nat, control: nat, cumulativePrg: nat, cumulativeControl: nat, capacity: nat)

  datatype Verified = Proven(margins: seq<int>) | NegativeTrace | LengthsDiffer | NoFrameSectors | NoPrebuffer
                    | Exceeds(frame: nat)

  datatype Committed = Accepted | NoOpenFrame | NegativeWork | PrgExceeds | ColdExceeds | ControlExceeds
                     | CadenceExceeds

  datatype SharedSectorPlan = SharedSectorPlan(
    desired: seq<nat>, prgLimits: seq<nat>, shortfall: seq<nat>, coldLimits: seq<nat>, controlLimits: seq<nat>,
    cumulativePrgLimits: seq<nat>, cumulativeControlLimits: seq<nat>, capacity: seq<nat>,
    realizedPrg: seq<nat>, realizedCold: seq<nat>, realizedControl: seq<nat>)

  predicate NonNegative(trace: seq<int>) {
    forall i :: 0 <= i < |trace| ==> trace[i] >= 0
  }

  /** A timed trace: frame 0 is boot work and counts for nothing. */
  function Timed(trace: seq<int>): (r: seq<nat>)
    requires NonNegative(trace)
    ensures |r| == |trace|
  {
    seq(|trace|, i requires 0 <= i < |trace| => if i == 0 then 0 else trace[i])
  }

  /** Boot work is free: whatever frame 0 holds, the timed work is that of the others. */
  lemma BootIsFree(boot: nat, trace: seq<int>)
    requires NonNegative(trace)
    ensures NonNegative([boot] + trace) && Timed([boot] + trace) == [0] + trace
    ensures Timed([]) == []
  {
  }

  /** The first timed slot whose work does not fit. */
  ghost predicate FirstShort(prg: seq<nat>, control: seq<nat>, capacity: seq<nat>, prebuffer: nat, frame: nat)
    requires |prg| == |control| == |capacity| && 1 <= frame < |prg|
  {
    Margin(prg, control, capacity, prebuffer, frame) < 0
    && forall k :: 1 <= k < frame ==> Margin(prg, control, capacity, prebuffer, k) >= 0
  }

  /** The prefix check, with the source's order of refusals. */
  method VerifyPrefix(prgTrace: seq<int>, controlTrace: seq<int>, prebufferCapacity: int, frameSectors: int,
                      cadence: Option<seq<nat>>) returns (r: Verified)
    requires cadence.Some? ==> |cadence.value| == |prgTrace|
    ensures r.NegativeTrace? <==> (exists i :: 0 <= i < |prgTrace| && prgTrace[i] < 0)
                                  || exists i :: 0 <= i < |controlTrace| && controlTrace[i] < 0
    ensures r.LengthsDiffer? ==> |prgTrace| != |controlTrace|
    ensures r.NoFrameSectors? ==> frameSectors <= 0
    ensures r.NoPrebuffer? ==> prebufferCapacity < PATTERNS_PER_SECTOR
    ensures (r.Proven? || r.Exceeds?) <==>
              && !r.NegativeTrace? && |prgTrace| == |controlTrace|
              && frameSectors > 0 && prebufferCapacity >= PATTERNS_PER_SECTOR
    ensures r.Proven? || r.Exceeds? ==>
              (r.Proven? <==> PrefixHolds(Timed(prgTrace), Timed(controlTrace),
                                UsefulCapacity(|prgTrace|, frameSectors, cadence), WholeSectors(prebufferCapacity)))
    ensures r.Exceeds? ==> 1 <= r.frame < |prgTrace| && FirstShort(Timed(prgTrace), Timed(controlTrace),
                                UsefulCapacity(|prgTrace|, frameSectors, cadence), WholeSectors(prebufferCapacity),
                                r.frame)
    ensures r.Proven? ==> |r.margins| == |prgTrace| && forall i :: 0 <= i < |r.margins| ==>
              r.margins[i] == Margin(Timed(prgTrace), Timed(controlTrace),
                                UsefulCapacity(|prgTrace|, frameSectors, cadence), WholeSectors(prebufferCapacity), i)
  {
    if !NonNegative(prgTrace) || !NonNegative(controlTrace) { return NegativeTrace; }
    if |prgTrace| != |controlTrace| { return LengthsDiffer; }
    if frameSectors <= 0 { return NoFrameSectors; }
    if WholeSectors(prebufferCapacity) <= 0 { return NoPrebuffer; }
    var prg, control := Timed(prgTrace), Timed(controlTrace);
    var prebuffer, capacity := WholeSectors(prebufferCapacity), UsefulCapacity(|prgTrace|, frameSectors, cadence);
    var margins: seq<int> := [];
    for i := 0 to |prg|
      invariant |margins| == i
      invariant forall k :: 0 <= k < i ==> margins[k] == Margin(prg, control, capacity, prebuffer, k)
      invariant forall k :: 1 <= k < i ==> margins[k] >= 0
    {
      var margin := Margin(prg, control, capacity, prebuffer, i);
      if i > 0 && margin < 0 { return Exceeds(i); }
      margins := margins + [margin];
    }
    r := Proven(margins);
  }

  function Excess(wanted: int, limit: int): nat { Max(wanted - limit, 0) }

  /** The part of a buffer made of whole sectors. */
  function WholeSectors(patterns: int): (n: nat)
    ensures n > 0 <==> patterns >= PATTERNS_PER_SECTOR
    ensures n * PATTERN_BYTES % SECTOR == 0 && (patterns >= 0 ==> n <= patterns < n + PATTERNS_PER_SECTOR)
  {
    if patterns < PATTERNS_PER_SECTOR then 0 else patterns / PATTERNS_PER_SECTOR * PATTERNS_PER_SECTOR
  }

  /** The largest trial the search settles on: it fits unless it is zero, and
      the next larger one does not unless the search started there. */
  method LargestFitting(limit: nat, fits: nat -> bool) returns (low: nat)
    ensures low <= limit
    ensures low > 0 ==> fits(low)
    ensures low < limit ==> !fits(low + 1)
    ensures (forall a, b :: 0 <= a <= b && fits(b) ==> fits(a)) ==>
              forall n: nat :: 0 < n <= limit && fits(n) ==> n <= low
  {
    low := 0;
    var high := limit;
    while low < high
      invariant low <= high <= limit
      invariant low > 0 ==> fits(low)
      invariant high < limit ==> !fits(high + 1)
      decreases high - low
    {
      var trial := (low + high + 1) / 2;
      if fits(trial) {
        low := trial;
      } else {
        high := trial - 1;
      }
    }
  }

  lemma FewerBytesFit(patterns: nat, prebuffer: nat, fewer: nat, bytes: nat, sectors: int)
    requires fewer <= bytes && !Overruns(patterns, prebuffer, bytes, sectors)
    ensures !Overruns(patterns, prebuffer, fewer, sectors)
  {
  }

  class SharedSectorPlanner {
    const frameCount: nat
    const maxPrg: nat
    const maxCold: seq<nat>
    const maximumControl: Option<seq<nat>>
    const prebuffer: nat
    const frameSectors: nat
    const cadence: Option<seq<nat>>
    const ringed: bool
    const capacity: seq<nat>

    var nextFrame: nat
    var cumulativePrg: nat
    var cumulativeControl: nat
    var open: Option<Limit>

    const prgLimits: array<nat>
    const coldLimits: array<nat>
    const controlLimits: array<nat>
    const cumulativePrgLimits: array<nat>
    const cumulativeControlLimits: array<nat>
    const realizedPrg: array<nat>
    const realizedCold: array<nat>
    const realizedControl: array<nat>

    ghost predicate Shape()
    {
      && frameCount > 0 && frameSectors > 0 && prebuffer >= PATTERNS_PER_SECTOR
      && prebuffer == WholeSectors(prebuffer)
      && (cadence.Some? ==> |cadence.value| == frameCount)
      && capacity == UsefulCapacity(frameCount, frameSectors, cadence)
      && |maxCold| == frameCount && (maximumControl.Some? ==> |maximumControl.value| == frameCount)
      && prgLimits.Length == coldLimits.Length == controlLimits.Length == frameCount
      && cumulativePrgLimits.Length == cumulativeControlLimits.Length == frameCount
      && realizedPrg.Length == realizedCold.Length == realizedControl.Length == frameCount
      && prgLimits !in {coldLimits, controlLimits, cumulativePrgLimits, cumulativeControlLimits}
      && coldLimits !in {controlLimits, cumulativePrgLimits, cumulativeControlLimits}
      && controlLimits !in {cumulativePrgLimits, cumulativeControlLimits}
      && cumulativePrgLimits != cumulativeControlLimits
      && {prgLimits, coldLimits, controlLimits, cumulativePrgLimits, cumulativeControlLimits}
         !! {realizedPrg, realizedCold, realizedControl}
      && realizedPrg !in {realizedCold, realizedControl} && realizedCold != realizedControl
    }

    /** Between calls: the realized frames are solvent, and an open frame's limit
        is one the sector pool can honour. */
    ghost predicate Valid()
      reads this, realizedPrg, realizedControl
    {
      && Shape() && nextFrame <= frameCount
      && cumulativePrg == Total(realizedPrg[..nextFrame], nextFrame)
      && cumulativeControl == Total(realizedControl[..nextFrame], nextFrame)
      && Solvent(realizedPrg[..nextFrame], realizedControl[..nextFrame], capacity, prebuffer)
      && (open.Some? ==> nextFrame < frameCount && Offered(open.value, nextFrame, cumulativePrg, cumulativeControl))
    }

    function BasePrgLimit(frame: nat, cumPrg: nat, cumControl: nat): nat
      requires Shape() && 0 < frame < frameCount
    {
      Min(maxPrg, PrgRoom(capacity[frame - 1], cumPrg, cumControl, prebuffer))
    }

    function ControlLimit(frame: nat, cumPrg: nat, cumControl: nat, prg: nat): nat
      requires Shape() && frame < frameCount
    {
      var room := ControlRoom(capacity[frame], cumPrg, cumControl, prebuffer, prg);
      if maximumControl.Some? then Min(room, maximumControl.value[frame]) else room
    }

    /** The limits of a frame.  Without a ring the Prg limit is exactly the base
        limit; with one it may be lower. */
    ghost predicate Offered(limit: Limit, frame: nat, cumPrg: nat, cumControl: nat)
      requires Shape() && frame < frameCount
    {
      if frame == 0 then limit == Limit(0, 0, 0, 0, 0, 0)
      else
        && limit.prg <= BasePrgLimit(frame, cumPrg, cumControl)
        && (!ringed ==> limit.prg == BasePrgLimit(frame, cumPrg, cumControl))
        && limit.cold == maxCold[frame]
        && limit.control == ControlLimit(frame, cumPrg, cumControl, limit.prg)
        && limit.cumulativePrg == CumulativePrgLimit(capacity[frame - 1], cumControl, prebuffer)
        && limit.cumulativeControl == cumControl + limit.control
        && limit.capacity == capacity[frame]
    }

    /** One row of the limit table after a begin: the offered frame's entry is
        written, and nothing else. */
    ghost predicate Recorded(row: seq<nat>, was: seq<nat>, r: Option<Limit>, field: Limit -> nat)
      reads this`nextFrame
      requires r.Some? ==> nextFrame < |was|
    {
      row == if r.Some? then was[nextFrame := field(r.value)] else was
    }

    /** The control bytes that the slot can carry beside the Prg work, and no more:
        one byte more overruns it, unless the maximum stops there. */
    ghost predicate ControlIsExact(frame: nat, cumPrg: nat, cumControl: nat, prg: nat, control: nat)
      requires Shape() && frame < frameCount
    {
      && (maximumControl.Some? ==> control <= maximumControl.value[frame])
      && (control > 0 ==> !Overruns(cumPrg + prg, prebuffer, cumControl + control, capacity[frame]))
      && (Overruns(cumPrg + prg, prebuffer, cumControl + control + 1, capacity[frame])
          || (maximumControl.Some? && control == maximumControl.value[frame]))
    }

    /** With a ring, `prg` patterns with their own control limit do not fit the schedule. */
    ghost predicate RingStops(frame: nat, cumPrg: nat, cumControl: nat, prg: nat, fits: (nat, nat) -> bool)
      requires Shape() && frame < frameCount
    {
      ringed && exists control :: ControlIsExact(frame, cumPrg, cumControl, prg, control) && !fits(prg, control)
    }

    /** The offer of a timed frame is as large as it can be: one pattern more passes
        the maximum, overruns the previous slot, or does not fit the ring's schedule. */
    ghost predicate OfferIsExact(limit: Limit, frame: nat, cumPrg: nat, cumControl: nat, fits: (nat, nat) -> bool)
      requires Shape() && 0 < frame < frameCount
    {
      && limit.prg <= maxPrg
      && (limit.prg == maxPrg || Overruns(cumPrg + limit.prg + 1, prebuffer, cumControl, capacity[frame - 1])
          || RingStops(frame, cumPrg, cumControl, limit.prg + 1, fits))
      && ControlIsExact(frame, cumPrg, cumControl, limit.prg, limit.control)
      && limit.cumulativePrg >= prebuffer
      && Overruns(limit.cumulativePrg + 1, prebuffer, cumControl, capacity[frame - 1])
      && (limit.cumulativePrg > prebuffer ==>
            !Overruns(limit.cumulativePrg, prebuffer, cumControl, capacity[frame - 1]))
    }

    lemma BaseLimitEnds(frame: nat, cumPrg: nat, cumControl: nat)
      requires Shape() && 0 < frame < frameCount
      ensures var limit := BasePrgLimit(frame, cumPrg, cumControl);
              limit <= maxPrg
              && (limit == maxPrg || Overruns(cumPrg + limit + 1, prebuffer, cumControl, capacity[frame - 1]))
      ensures var limit := CumulativePrgLimit(capacity[frame - 1], cumControl, prebuffer);
              && limit >= prebuffer && Overruns(limit + 1, prebuffer, cumControl, capacity[frame - 1])
              && (limit > prebuffer ==> !Overruns(limit, prebuffer, cumControl, capacity[frame - 1]))
    {
      hide PrgRoom, CumulativePrgLimit, Overruns, UsefulCapacity;
      PrgRoomEnds(capacity[frame - 1], cumPrg, cumControl, prebuffer);
    }

    lemma ControlLimitIsExact(frame: nat, cumPrg: nat, cumControl: nat, prg: nat)
      requires Shape() && frame < frameCount
      ensures ControlIsExact(frame, cumPrg, cumControl, prg, ControlLimit(frame, cumPrg, cumControl, prg))
    {
      hide ControlRoom, UsefulCapacity;
      var c := ControlLimit(frame, cumPrg, cumControl, prg);
      ControlRoomEnds(capacity[frame], cumPrg, cumControl, prebuffer, prg);
      if c > 0 {
        FewerBytesFit(cumPrg + prg, prebuffer, cumControl + c,
                      cumControl + ControlRoom(capacity[frame], cumPrg, cumControl, prebuffer, prg), capacity[frame]);
      }
    }

    constructor (frameCount: nat, maxPrg: nat, maxCold: seq<nat>, prebufferCapacity: int, frameSectors: nat,
                 cadence: Option<seq<nat>>, maximumControl: Option<seq<nat>>, ringed: bool)
      requires frameCount > 0 && frameSectors > 0 && prebufferCapacity >= PATTERNS_PER_SECTOR
      requires |maxCold| == frameCount && (maximumControl.Some? ==> |maximumControl.value| == frameCount)
      requires cadence.Some? ==> |cadence.value| == frameCount
      requires ringed ==> cadence.Some?
      ensures Valid() && nextFrame == 0 && open.None?
      ensures this.frameCount == frameCount && this.maxPrg == maxPrg && this.maxCold == maxCold
      ensures this.maximumControl == maximumControl && this.ringed == ringed
      ensures prebuffer == WholeSectors(prebufferCapacity)
      ensures capacity == UsefulCapacity(frameCount, frameSectors, cadence)
      ensures fresh(prgLimits) && fresh(coldLimits) && fresh(controlLimits)
      ensures fresh(cumulativePrgLimits) && fresh(cumulativeControlLimits)
      ensures fresh(realizedPrg) && fresh(realizedCold) && fresh(realizedControl)
    {
      this.frameCount, this.maxPrg, this.maxCold, this.maximumControl := frameCount, maxPrg, maxCold, maximumControl;
      prebuffer := WholeSectors(prebufferCapacity);
      this.frameSectors, this.cadence, this.ringed := frameSectors, cadence, ringed;
      capacity := UsefulCapacity(frameCount, frameSectors, cadence);
      nextFrame, cumulativePrg, cumulativeControl, open := 0, 0, 0, None;
      prgLimits := new nat[frameCount](_ => 0);
      coldLimits := new nat[frameCount](_ => 0);
      controlLimits := new nat[frameCount](_ => 0);
      cumulativePrgLimits := new nat[frameCount](_ => 0);
      cumulativeControlLimits := new nat[frameCount](_ => 0);
      realizedPrg := new nat[frameCount](_ => 0);
      realizedCold := new nat[frameCount](_ => 0);
      realizedControl := new nat[frameCount](_ => 0);
    }

    lemma RingHasStopped(frame: nat, cumPrg: nat, cumControl: nat, prg: nat, fits: (nat, nat) -> bool)
      requires Shape() && frame < frameCount && ringed
      requires !fits(prg, ControlLimit(frame, cumPrg, cumControl, prg))
      ensures RingStops(frame, cumPrg, cumControl, prg, fits)
    {
      hide ControlLimit, ControlIsExact;
      ControlLimitIsExact(frame, cumPrg, cumControl, prg);
    }

    /** The limits that begin_frame computes for a timed frame. */
    method OfferFor(frame: nat, fits: (nat, nat) -> bool) returns (limit: Limit)
      requires Shape() && 0 < frame < frameCount
      ensures Offered(limit, frame, cumulativePrg, cumulativeControl)
      ensures OfferIsExact(limit, frame, cumulativePrg, cumulativeControl, fits)
      ensures ringed && limit.prg > 0 ==> fits(limit.prg, limit.control)
    {
      hide UsefulCapacity, PrgRoom, ControlRoom, CumulativePrgLimit, Overruns, ControlIsExact, RingStops;
      var cumulativePrgLimit := CumulativePrgLimit(capacity[frame - 1], cumulativeControl, prebuffer);
      var prgLimit := BasePrgLimit(frame, cumulativePrg, cumulativeControl);
      BaseLimitEnds(frame, cumulativePrg, cumulativeControl);
      if ringed && prgLimit > 0 {
        var cumPrg, cumControl, base := cumulativePrg, cumulativeControl, prgLimit;
        prgLimit := LargestFitting(prgLimit,
          (trial: nat) => fits(trial, ControlLimit(frame, cumPrg, cumControl, trial)));
        if prgLimit < base { RingHasStopped(frame, cumPrg, cumControl, prgLimit + 1, fits); }
      }
      ControlLimitIsExact(frame, cumulativePrg, cumulativeControl, prgLimit);
      var controlLimit := ControlLimit(frame, cumulativePrg, cumulativeControl, prgLimit);
      limit := Limit(prgLimit, maxCold[frame], controlLimit, cumulativePrgLimit,
                     cumulativeControl + controlLimit, capacity[frame]);
    }

    /** begin_frame; None is the source's refusal of a frame out of turn. */
    method BeginFrame(frame: int, fits: (nat, nat) -> bool) returns (r: Option<Limit>)
      requires Valid()
      modifies this`open, prgLimits, coldLimits, controlLimits, cumulativePrgLimits, cumulativeControlLimits
      ensures Valid()
      ensures r.Some? <==> frame == nextFrame < frameCount && old(open).None?
      ensures r.Some? ==> open == r && Offered(r.value, nextFrame, cumulativePrg, cumulativeControl)
      ensures r.Some? && frame > 0 ==> OfferIsExact(r.value, nextFrame, cumulativePrg, cumulativeControl, fits)
      ensures r.None? ==> open == old(open)
      ensures Recorded(prgLimits[..], old(prgLimits[..]), r, (l: Limit) => l.prg)
      ensures Recorded(coldLimits[..], old(coldLimits[..]), r, (l: Limit) => l.cold)
      ensures Recorded(controlLimits[..], old(controlLimits[..]), r, (l: Limit) => l.control)
      ensures Recorded(cumulativePrgLimits[..], old(cumulativePrgLimits[..]), r, (l: Limit) => l.cumulativePrg)
      ensures Recorded(cumulativeControlLimits[..], old(cumulativeControlLimits[..]), r,
                       (l: Limit) => l.cumulativeControl)
      ensures r.Some? && ringed && r.value.prg > 0 ==> fits(r.value.prg, r.value.control)
    {
      hide Total, Solvent, UsefulCapacity, BasePrgLimit, ControlLimit, OfferIsExact, CumulativePrgLimit;
      if frame != nextFrame || open.Some? || frame >= frameCount {
        return None;
      }
      var limit: Limit;
      if frame == 0 {
        limit := Limit(0, 0, 0, 0, 0, 0);
      } else {
        limit := OfferFor(frame, fits);
      }
      prgLimits[frame] := limit.prg;
      coldLimits[frame] := limit.cold;
      controlLimits[frame] := limit.control;
      cumulativePrgLimits[frame] := limit.cumulativePrg;
      cumulativeControlLimits[frame] := limit.cumulativeControl;
      open := Some(limit);
      r := open;
    }

    /** Work within an offered limit keeps the realized prefix solvent. */
    lemma WithinLimitIsSolvent(prg: nat, control: nat)
      requires Valid() && open.Some?
      requires if nextFrame == 0 then prg == control == 0
               else prg <= open.value.prg && control <= open.value.control
      ensures Solvent(realizedPrg[..nextFrame] + [prg], realizedControl[..nextFrame] + [control], capacity, prebuffer)
    {
      CapacityNonDecreasing(frameCount, frameSectors, cadence);
      if nextFrame > 0 {
        OfferIsSafe(realizedPrg[..nextFrame], realizedControl[..nextFrame], capacity, prebuffer,
                    open.value.prg, prg, control);
      }
    }

    /** The prefix check as commit_frame and finish run it; on a solvent prefix it
        never raises. */
    method CheckPrefix(n: nat) returns (proof: Verified)
      requires Shape() && n <= frameCount
      requires Solvent(realizedPrg[..n], realizedControl[..n], capacity, prebuffer)
      ensures proof.Proven?
    {
      hide Total, Margin, UsefulCapacity, Timed, Solvent, FirstShort;
      RealizedIsProven(realizedPrg[..n], realizedControl[..n], n);
      proof := VerifyPrefix(realizedPrg[..n], realizedControl[..n], prebuffer, frameSectors,
        if cadence.Some? then Some(cadence.value[..n]) else None);
    }

    /** The part of commit_frame after its refusals: the open frame's work is
        recorded and the prefix checked. */
    method Record(prg: nat, cold: nat, control: nat)
      requires Valid() && open.Some?
      requires if nextFrame == 0 then prg == control == 0
               else prg <= open.value.prg && control <= open.value.control
      modifies this`open, this`nextFrame, this`cumulativePrg, this`cumulativeControl
      modifies realizedPrg, realizedCold, realizedControl
      ensures Valid() && nextFrame == old(nextFrame) + 1 && open.None?
      ensures old(nextFrame) < realizedPrg.Length == realizedCold.Length == realizedControl.Length
      ensures realizedPrg[..] == old(realizedPrg[..])[old(nextFrame) := prg]
      ensures realizedCold[..] == old(realizedCold[..])[old(nextFrame) := cold]
      ensures realizedControl[..] == old(realizedControl[..])[old(nextFrame) := control]
    {
      hide Total, Margin, UsefulCapacity, PrgRoom, ControlRoom, CumulativePrgLimit, Solvent, PrefixHolds, Timed,
           Offered;
      WithinLimitIsSolvent(prg, control);
      var frame := nextFrame;
      ghost var prgWas, controlWas := realizedPrg[..frame], realizedControl[..frame];
      realizedPrg[frame] := prg;
      realizedCold[frame] := cold;
      realizedControl[frame] := control;
      assert realizedPrg[..frame + 1] == prgWas + [prg];
      assert realizedControl[..frame + 1] == controlWas + [control];
      cumulativePrg := cumulativePrg + prg;
      cumulativeControl := cumulativeControl + control;
      TotalsAppend(prgWas, prg, frame);
      TotalsAppend(controlWas, control, frame);
      var proof := CheckPrefix(frame + 1);
      assert proof.Proven?;  // so the source's prefix error is never raised here
      open := None;
      nextFrame := nextFrame + 1;
    }

    /** commit_frame.  `cadenceFits` is the schedule oracle's answer for this exact
        frame; it is consulted only with a ring. */
    method CommitFrame(frame: int, prgPatterns: int, coldPatterns: int, controlBytes: int, cadenceFits: bool)
      returns (r: Committed)
      requires Valid()
      modifies this`open, this`nextFrame, this`cumulativePrg, this`cumulativeControl
      modifies realizedPrg, realizedCold, realizedControl
      ensures Valid()
      ensures r.Accepted? <==>
                && frame == old(nextFrame) && old(open).Some?
                && prgPatterns >= 0 && coldPatterns >= 0 && controlBytes >= 0
                && (frame > 0 ==> prgPatterns <= old(open).value.prg && coldPatterns <= old(open).value.cold
                                  && controlBytes <= old(open).value.control)
                && (ringed ==> cadenceFits)
      ensures r.Accepted? ==> nextFrame == old(nextFrame) + 1 && open.None?
      ensures !r.Accepted? ==> nextFrame == old(nextFrame) && open == old(open)
      ensures Realized(realizedPrg[..], old(realizedPrg[..]), old(nextFrame), r, prgPatterns)
      ensures Realized(realizedCold[..], old(realizedCold[..]), old(nextFrame), r, coldPatterns)
      ensures Realized(realizedControl[..], old(realizedControl[..]), old(nextFrame), r, controlBytes)
    {
      hide Valid, Shape;
      if frame != nextFrame || open.None? { return NoOpenFrame; }
      var limit := open.value;
      if prgPatterns < 0 || coldPatterns < 0 || controlBytes < 0 { return NegativeWork; }
      var prg: nat, cold: nat, control: nat := prgPatterns, coldPatterns, controlBytes;
      if frame == 0 { prg, cold, control := 0, 0, 0; }
      if prg > limit.prg { return PrgExceeds; }
      if cold > limit.cold { return ColdExceeds; }
      if control > limit.control { return ControlExceeds; }
      if ringed && !cadenceFits { return CadenceExceeds; }
      Record(prg, cold, control);
      r := Accepted;
    }

    /** One row of the realized table after a commit; frame 0 always records 0. */
    static ghost predicate Realized(row: seq<nat>, was: seq<nat>, frame: nat, r: Committed, work: int)
    {
      if r.Accepted? then frame < |was| && (frame > 0 ==> work >= 0)
                          && row == was[frame := if frame == 0 then 0 else Max(0, work)]
      else row == was
    }

    /** The check that commit_frame runs on a solvent prefix succeeds. */
    lemma RealizedIsProven(prg: seq<nat>, control: seq<nat>, n: nat)
      requires Shape() && n <= frameCount && |prg| == |control| == n
      requires Solvent(prg, control, capacity, prebuffer)
      ensures var cut := if cadence.Some? then Some(cadence.value[..n]) else None;
              Timed(prg) == prg && Timed(control) == control
              && PrefixHolds(prg, control, UsefulCapacity(n, frameSectors, cut), prebuffer)
    {
      var cut := if cadence.Some? then Some(cadence.value[..n]) else None;
      var shorter := UsefulCapacity(n, frameSectors, cut);
      forall i | 0 <= i < n ensures shorter[i] == capacity[i] {
        if cadence.Some? {
          assert cadence.value[..n][..i + 1] == cadence.value[..i + 1];
          TotalPrefix(cadence.value[..n], cadence.value, i + 1);
        }
      }
      forall i | 1 <= i < n ensures Margin(prg, control, shorter, prebuffer, i) >= 0 {
        assert Margin(prg, control, capacity, prebuffer, i) >= 0;
      }
    }

    /** finish: only a complete movie has a plan, and its prefix always checks. */
    method Finish(desired: seq<int>) returns (r: Option<SharedSectorPlan>)
      requires Valid()
      ensures r.Some? <==> open.None? && nextFrame == frameCount && |desired| == frameCount && NonNegative(desired)
      ensures r.Some? ==> r.value.desired == (if frameCount > 0 then [0] + desired[1..] else [])
      ensures r.Some? ==> |r.value.shortfall| == frameCount && forall i :: 0 <= i < frameCount ==>
                && r.value.shortfall[i] >= 0 && r.value.desired[i] <= prgLimits[i] + r.value.shortfall[i]
                && (r.value.shortfall[i] > 0 ==> r.value.desired[i] == prgLimits[i] + r.value.shortfall[i])
      ensures r.Some? ==> r.value.prgLimits == prgLimits[..] && r.value.coldLimits == coldLimits[..]
      ensures r.Some? ==> r.value.controlLimits == controlLimits[..] && r.value.capacity == capacity
      ensures r.Some? ==> r.value.cumulativePrgLimits == cumulativePrgLimits[..]
      ensures r.Some? ==> r.value.cumulativeControlLimits == cumulativeControlLimits[..]
      ensures r.Some? ==> r.value.realizedPrg == realizedPrg[..] && r.value.realizedCold == realizedCold[..]
      ensures r.Some? ==> r.value.realizedControl == realizedControl[..]
      ensures r.Some? ==> PrefixHolds(r.value.realizedPrg, r.value.realizedControl, capacity, prebuffer)
    {
      hide Total, Margin, UsefulCapacity, Offered;
      if open.Some? || nextFrame != frameCount || |desired| != frameCount || !NonNegative(desired) {
        return None;
      }
      assert realizedPrg[..nextFrame] == realizedPrg[..] && realizedControl[..nextFrame] == realizedControl[..];
      var proof := CheckPrefix(frameCount);
      assert proof.Proven?;
      RealizedIsProven(realizedPrg[..], realizedControl[..], frameCount);
      assert cadence.Some? ==> cadence.value[..frameCount] == cadence.value;
      if frameCount > 0 { BootIsFree(desired[0], desired[1..]); }
      var timed, limits := Timed(desired), prgLimits[..];
      var shortfall := seq(frameCount, i requires 0 <= i < frameCount => Excess(timed[i], limits[i]));
      r := Some(SharedSectorPlan(timed, limits, shortfall, coldLimits[..], controlLimits[..],
                                 cumulativePrgLimits[..], cumulativeControlLimits[..], capacity,
                                 realizedPrg[..], realizedCold[..], realizedControl[..]));
    }
  }
}
