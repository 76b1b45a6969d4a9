/**
  The cumulative deadlines of one shared sector pool
  (tools/physical_budget.py, verify_shared_sector_prefix and the limits of
  SharedSectorPlanner), on values.

  Control bytes and Prg patterns are rounded to whole sectors independently.
  At the end of slot i control must cover frames through i, and payload must
  cover Prg consumption through frame i + 1.
*/
module SectorPrefix {
  import opened Arith

  /** The sum of the first n entries. */
  function Total(s: seq<nat>, n: nat): nat
    requires n <= |s|
  {
    if n == 0 then 0 else Total(s, n - 1) + s[n - 1]
  }

  lemma {:induction false} TotalPrefix(s: seq<nat>, t: seq<nat>, n: nat)
    requires n <= |s| && n <= |t| && s[..n] == t[..n]
    ensures Total(s, n) == Total(t, n)
  {
    if n > 0 {
      assert s[..n][..n - 1] == s[..n - 1] && t[..n][..n - 1] == t[..n - 1];
      assert s[..n][n - 1] == t[..n][n - 1];
      TotalPrefix(s, t, n - 1);
    }
  }

  /** Whole sectors that carry the patterns beyond the prebuffer. */
  function PayloadSectors(patterns: nat, prebuffer: nat): nat {
    CeilDiv(Max(0, patterns - prebuffer), PATTERNS_PER_SECTOR)
  }

  function ControlSectors(bytes: nat): nat {
    CeilDiv(bytes, SECTOR)
  }

  /** Patterns whose deadline is the end of slot i: through frame i + 1, or
      through the last frame. */
  function PayloadDeadline(prg: seq<nat>, i: nat): nat
    requires i < |prg|
  {
    if i + 1 < |prg| then Total(prg, i + 2) else Total(prg, |prg|)
  }

  /** Sectors left over at the end of slot i. */
  function Margin(prg: seq<nat>, control: seq<nat>, capacity: seq<nat>, prebuffer: nat, i: nat): int
    requires |prg| == |control| <= |capacity| && i < |prg|
  {
    capacity[i] - ControlSectors(Total(control, i + 1)) - PayloadSectors(PayloadDeadline(prg, i), prebuffer)
  }

  /** Every timed deadline is met; slot 0 is boot and is not checked. */
  ghost predicate PrefixHolds(prg: seq<nat>, control: seq<nat>, capacity: seq<nat>, prebuffer: nat)
    requires |prg| == |control| <= |capacity|
  {
    forall i :: 1 <= i < |prg| ==> Margin(prg, control, capacity, prebuffer, i) >= 0
  }

  // The limits offered before a frame

  /** Patterns the stream may have consumed through the next frame: what the
      previous slot can still deliver beside its control sectors. */
  function CumulativePrgLimit(previousCapacity: nat, cumControl: nat, prebuffer: nat): nat {
    prebuffer + Max(0, previousCapacity - ControlSectors(cumControl)) * PATTERNS_PER_SECTOR
  }

  function PrgRoom(previousCapacity: nat, cumPrg: nat, cumControl: nat, prebuffer: nat): nat {
    Max(0, CumulativePrgLimit(previousCapacity, cumControl, prebuffer) - cumPrg)
  }

  /** Control bytes this slot can still carry if the frame takes `prg` patterns. */
  function ControlRoom(capacity: nat, cumPrg: nat, cumControl: nat, prebuffer: nat, prg: nat): nat {
    Max(0, Max(0, capacity - PayloadSectors(cumPrg + prg, prebuffer)) * SECTOR - cumControl)
  }

  /** The state before frame |prg|: the traces so far meet every deadline, also
      those of the last slot taken on its own. */
  ghost predicate Solvent(prg: seq<nat>, control: seq<nat>, capacity: seq<nat>, prebuffer: nat) {
    && |prg| == |control| <= |capacity|
    && PrefixHolds(prg, control, capacity, prebuffer)
    && (|prg| > 0 ==> prg[0] == 0 && control[0] == 0)
  }

  ghost predicate NonDecreasing(capacity: seq<nat>) {
    forall i, j :: 0 <= i <= j < |capacity| ==> capacity[i] <= capacity[j]
  }

  // Rounding: whole sectors cover a count exactly when the count fits in them

  lemma CeilFits(n: nat, unit: nat, k: nat)
    requires unit > 0
    ensures CeilDiv(n, unit) <= k <==> n <= k * unit
  {
    var q := (n + unit - 1) / unit;
    assert n + unit - 1 == q * unit + (n + unit - 1) % unit;
    if q <= k {
      MulMono(q, k, unit);
    } else {
      MulMono(k + 1, q, unit);
      assert (k + 1) * unit == k * unit + unit;
    }
  }

  lemma PayloadFits(patterns: nat, prebuffer: nat, sectors: nat)
    ensures PayloadSectors(patterns, prebuffer) <= sectors <==> patterns <= prebuffer + sectors * PATTERNS_PER_SECTOR
  {
    CeilFits(Max(0, patterns - prebuffer), PATTERNS_PER_SECTOR, sectors);
  }

  lemma ControlFits(bytes: nat, sectors: nat)
    ensures ControlSectors(bytes) <= sectors <==> bytes <= sectors * SECTOR
  {
    CeilFits(bytes, SECTOR, sectors);
  }

  /** The demand as the drive sees it: patterns of 32 bytes beyond the prebuffer and
      control bytes, each in whole sectors of 2048 bytes, need more sectors than
      there are. */
  predicate Overruns(patterns: nat, prebuffer: nat, bytes: nat, sectors: int) {
    (Max(0, patterns - prebuffer) * 32 + 2047) / 2048 + (bytes + 2047) / 2048 > sectors
  }

  lemma OverrunsIs(patterns: nat, prebuffer: nat, bytes: nat, sectors: int)
    ensures Overruns(patterns, prebuffer, bytes, sectors)
       <==> PayloadSectors(patterns, prebuffer) + ControlSectors(bytes) > sectors
  {
    var x := Max(0, patterns - prebuffer);
    assert (x * 32 + 2047) / 2048 == (x + 63) / 64;
  }

  /** The Prg room ends where the previous slot overruns. */
  lemma PrgRoomEnds(capacity: nat, cumPrg: nat, cumControl: nat, prebuffer: nat)
    ensures var room := PrgRoom(capacity, cumPrg, cumControl, prebuffer);
            Overruns(cumPrg + room + 1, prebuffer, cumControl, capacity)
            && (room > 0 && !Overruns(prebuffer, prebuffer, cumControl, capacity)
                ==> !Overruns(cumPrg + room, prebuffer, cumControl, capacity))
    ensures var limit := CumulativePrgLimit(capacity, cumControl, prebuffer);
            Overruns(limit + 1, prebuffer, cumControl, capacity)
            && limit >= prebuffer && (limit > prebuffer ==> !Overruns(limit, prebuffer, cumControl, capacity))
  {
    var limit := CumulativePrgLimit(capacity, cumControl, prebuffer);
    var room := PrgRoom(capacity, cumPrg, cumControl, prebuffer);
    var left := Max(0, capacity - ControlSectors(cumControl));
    OverrunsIs(cumPrg + room + 1, prebuffer, cumControl, capacity);
    OverrunsIs(cumPrg + room, prebuffer, cumControl, capacity);
    OverrunsIs(prebuffer, prebuffer, cumControl, capacity);
    OverrunsIs(limit + 1, prebuffer, cumControl, capacity);
    OverrunsIs(limit, prebuffer, cumControl, capacity);
    PayloadFits(cumPrg + room + 1, prebuffer, left);
    PayloadFits(cumPrg + room, prebuffer, left);
    PayloadFits(limit + 1, prebuffer, left);
    PayloadFits(limit, prebuffer, left);
    hide PayloadSectors, ControlSectors, Overruns;
  }

  /** The control room ends where this slot overruns. */
  lemma ControlRoomEnds(capacity: nat, cumPrg: nat, cumControl: nat, prebuffer: nat, prg: nat)
    ensures var room := ControlRoom(capacity, cumPrg, cumControl, prebuffer, prg);
            Overruns(cumPrg + prg, prebuffer, cumControl + room + 1, capacity)
            && (room > 0 ==> !Overruns(cumPrg + prg, prebuffer, cumControl + room, capacity))
  {
    var room := ControlRoom(capacity, cumPrg, cumControl, prebuffer, prg);
    var left := Max(0, capacity - PayloadSectors(cumPrg + prg, prebuffer));
    OverrunsIs(cumPrg + prg, prebuffer, cumControl + room + 1, capacity);
    OverrunsIs(cumPrg + prg, prebuffer, cumControl + room, capacity);
    ControlFits(cumControl + room + 1, left);
    ControlFits(cumControl + room, left);
    hide PayloadSectors, ControlSectors, Overruns;
  }

  // Appending one frame

  lemma TotalsAppend(s: seq<nat>, x: nat, n: nat)
    requires n <= |s|
    ensures Total(s + [x], n) == Total(s, n)
    ensures Total(s + [x], |s| + 1) == Total(s, |s|) + x
  {
    assert (s + [x])[..n] == s[..n];
    TotalPrefix(s + [x], s, n);
    assert (s + [x])[..|s|] == s[..|s|];
    TotalPrefix(s + [x], s, |s|);
  }

  /** Only the last two deadlines see a new frame. */
  lemma MarginAppend(prg: seq<nat>, control: seq<nat>, capacity: seq<nat>, prebuffer: nat, p: nat, c: nat, i: nat)
    requires |prg| == |control| < |capacity| && i <= |prg|
    ensures i + 1 < |prg| ==>
              Margin(prg + [p], control + [c], capacity, prebuffer, i) == Margin(prg, control, capacity, prebuffer, i)
    ensures i + 1 == |prg| ==>
              Margin(prg + [p], control + [c], capacity, prebuffer, i)
              == capacity[i] - ControlSectors(Total(control, |prg|))
                             - PayloadSectors(Total(prg, |prg|) + p, prebuffer)
    ensures i == |prg| ==>
              Margin(prg + [p], control + [c], capacity, prebuffer, i)
              == capacity[i] - ControlSectors(Total(control, |prg|) + c)
                             - PayloadSectors(Total(prg, |prg|) + p, prebuffer)
  {
    hide PayloadSectors, ControlSectors, Total;
    if i < |prg| {
      TotalsAppend(control, c, i + 1);
    } else {
      TotalsAppend(control, c, i);
    }
    if i + 1 < |prg| {
      TotalsAppend(prg, p, i + 2);
    } else {
      TotalsAppend(prg, p, |prg|);
    }
  }

  /** The last slot of a solvent state also holds on its own. */
  lemma LastSlot(prg: seq<nat>, control: seq<nat>, capacity: seq<nat>, prebuffer: nat)
    requires Solvent(prg, control, capacity, prebuffer) && |prg| > 0
    ensures ControlSectors(Total(control, |prg|)) + PayloadSectors(Total(prg, |prg|), prebuffer) <= capacity[|prg| - 1]
  {
    var i := |prg| - 1;
    if i > 0 {
      assert Margin(prg, control, capacity, prebuffer, i) >= 0;
    } else {
      assert Total(prg, 1) == 0 && Total(control, 1) == 0;
    }
  }

  /** The exact condition for one more frame, from frame 2 on: the Prg work fits
      what the previous slot delivers, and the control block fits this slot. */
  lemma FrameFits(prg: seq<nat>, control: seq<nat>, capacity: seq<nat>, prebuffer: nat, p: nat, c: nat)
    requires Solvent(prg, control, capacity, prebuffer) && 2 <= |prg| < |capacity|
    ensures PrefixHolds(prg + [p], control + [c], capacity, prebuffer) <==>
              && p <= PrgRoom(capacity[|prg| - 1], Total(prg, |prg|), Total(control, |prg|), prebuffer)
              && PayloadSectors(Total(prg, |prg|) + p, prebuffer)
                 + ControlSectors(Total(control, |prg|) + c) <= capacity[|prg|]
  {
    hide Total, PayloadSectors, ControlSectors, Margin;
    var f, P, C := |prg|, Total(prg, |prg|), Total(control, |prg|);
    LastSlot(prg, control, capacity, prebuffer);
    PayloadFits(P + p, prebuffer, capacity[f - 1] - ControlSectors(C));
    PayloadFits(P, prebuffer, capacity[f - 1] - ControlSectors(C));
    forall i | 1 <= i <= f
      ensures i + 1 < f ==> Margin(prg + [p], control + [c], capacity, prebuffer, i) >= 0
    {
      MarginAppend(prg, control, capacity, prebuffer, p, c, i);
      if i + 1 < f { assert Margin(prg, control, capacity, prebuffer, i) >= 0; }
    }
    MarginAppend(prg, control, capacity, prebuffer, p, c, f - 1);
    MarginAppend(prg, control, capacity, prebuffer, p, c, f);
  }

  /** Safety of the offer: any frame within the limits meets every deadline,
      those of all earlier slots included.  `offer` is the Prg limit the control
      limit was computed for; the frame may take less. */
  lemma OfferIsSafe(prg: seq<nat>, control: seq<nat>, capacity: seq<nat>, prebuffer: nat, offer: nat, p: nat, c: nat)
    requires Solvent(prg, control, capacity, prebuffer) && NonDecreasing(capacity)
    requires 1 <= |prg| < |capacity|
    requires p <= offer <= PrgRoom(capacity[|prg| - 1], Total(prg, |prg|), Total(control, |prg|), prebuffer)
    requires c <= ControlRoom(capacity[|prg|], Total(prg, |prg|), Total(control, |prg|), prebuffer, offer)
    ensures Solvent(prg + [p], control + [c], capacity, prebuffer)
  {
    hide Total, Margin, PrgRoom, ControlRoom;
    var f, P, C := |prg|, Total(prg, |prg|), Total(control, |prg|);
    OfferLeavesControl(prg, control, capacity, prebuffer, offer);
    PayloadMono(P + p, P + offer, prebuffer);
    PayloadFits(P + p, prebuffer, capacity[f - 1] - ControlSectors(C));
    ControlFits(C + c, capacity[f] - PayloadSectors(P + offer, prebuffer));
    forall i | 1 <= i <= f ensures Margin(prg + [p], control + [c], capacity, prebuffer, i) >= 0 {
      MarginAppend(prg, control, capacity, prebuffer, p, c, i);
      if i + 1 < f { assert Margin(prg, control, capacity, prebuffer, i) >= 0; }
    }
  }

  lemma PayloadMono(a: nat, b: nat, prebuffer: nat)
    requires a <= b
    ensures PayloadSectors(a, prebuffer) <= PayloadSectors(b, prebuffer)
  {
    PayloadFits(b, prebuffer, PayloadSectors(b, prebuffer));
    PayloadFits(a, prebuffer, PayloadSectors(b, prebuffer));
  }

  /** Taking the whole Prg offer never eats into sectors that control has used:
      no clipping at zero happens in a solvent state. */
  lemma OfferLeavesControl(prg: seq<nat>, control: seq<nat>, capacity: seq<nat>, prebuffer: nat, offer: nat)
    requires Solvent(prg, control, capacity, prebuffer) && NonDecreasing(capacity)
    requires 1 <= |prg| < |capacity|
    requires offer <= PrgRoom(capacity[|prg| - 1], Total(prg, |prg|), Total(control, |prg|), prebuffer)
    ensures PayloadSectors(Total(prg, |prg|) + offer, prebuffer) + ControlSectors(Total(control, |prg|))
            <= capacity[|prg| - 1] <= capacity[|prg|]
    ensures Total(control, |prg|)
            + ControlRoom(capacity[|prg|], Total(prg, |prg|), Total(control, |prg|), prebuffer, offer)
            == (capacity[|prg|] - PayloadSectors(Total(prg, |prg|) + offer, prebuffer)) * SECTOR
  {
    hide Total, PayloadSectors, ControlSectors, Margin;
    var f, P, C := |prg|, Total(prg, |prg|), Total(control, |prg|);
    LastSlot(prg, control, capacity, prebuffer);
    PayloadFits(P, prebuffer, capacity[f - 1] - ControlSectors(C));
    PayloadFits(P + offer, prebuffer, capacity[f - 1] - ControlSectors(C));
    ControlFits(C, capacity[f] - PayloadSectors(P + offer, prebuffer));
  }

  /** Exactness of the Prg limit from frame 2 on: one pattern more overruns the
      previous slot, whatever the control block. */
  lemma PrgLimitIsTight(prg: seq<nat>, control: seq<nat>, capacity: seq<nat>, prebuffer: nat, c: nat)
    requires Solvent(prg, control, capacity, prebuffer) && 2 <= |prg| < |capacity|
    ensures var room := PrgRoom(capacity[|prg| - 1], Total(prg, |prg|), Total(control, |prg|), prebuffer);
            Margin(prg + [room + 1], control + [c], capacity, prebuffer, |prg| - 1) < 0
  {
    var f, P, C := |prg|, Total(prg, |prg|), Total(control, |prg|);
    var room := PrgRoom(capacity[f - 1], P, C, prebuffer);
    LastSlot(prg, control, capacity, prebuffer);
    PayloadFits(P, prebuffer, capacity[f - 1] - ControlSectors(C));
    PayloadFits(P + room + 1, prebuffer, capacity[f - 1] - ControlSectors(C));
    MarginAppend(prg, control, capacity, prebuffer, room + 1, c, f - 1);
  }

  /** Exactness of the control limit: with the whole Prg offer taken, one byte
      more overruns the current slot. */
  lemma ControlLimitIsTight(prg: seq<nat>, control: seq<nat>, capacity: seq<nat>, prebuffer: nat, offer: nat)
    requires Solvent(prg, control, capacity, prebuffer) && NonDecreasing(capacity)
    requires 1 <= |prg| < |capacity|
    requires offer <= PrgRoom(capacity[|prg| - 1], Total(prg, |prg|), Total(control, |prg|), prebuffer)
    ensures var room := ControlRoom(capacity[|prg|], Total(prg, |prg|), Total(control, |prg|), prebuffer, offer);
            Margin(prg + [offer], control + [room + 1], capacity, prebuffer, |prg|) < 0
  {
    hide Total, Margin, PrefixHolds, PrgRoom;
    var f, P, C := |prg|, Total(prg, |prg|), Total(control, |prg|);
    var room := ControlRoom(capacity[f], P, C, prebuffer, offer);
    OfferLeavesControl(prg, control, capacity, prebuffer, offer);
    ControlFits(C + room + 1, capacity[f] - PayloadSectors(P + offer, prebuffer));
    MarginAppend(prg, control, capacity, prebuffer, offer, room + 1, f);
  }

  ghost predicate ObeysOffer(prg: seq<nat>, control: seq<nat>, offers: seq<nat>, capacity: seq<nat>, prebuffer: nat,
                             f: nat)
    requires |prg| == |control| == |offers| <= |capacity| && f < |prg|
  {
    if f == 0 then prg[0] == control[0] == 0
    else
      && prg[f] <= offers[f] <= PrgRoom(capacity[f - 1], Total(prg, f), Total(control, f), prebuffer)
      && control[f] <= ControlRoom(capacity[f], Total(prg, f), Total(control, f), prebuffer, offers[f])
  }

  /** A run in which every frame stays within what it was offered. */
  ghost predicate ObeysOffers(prg: seq<nat>, control: seq<nat>, offers: seq<nat>, capacity: seq<nat>, prebuffer: nat) {
    && |prg| == |control| == |offers| <= |capacity|
    && forall f :: 0 <= f < |prg| ==> ObeysOffer(prg, control, offers, capacity, prebuffer, f)
  }

  /** Safety over whole runs: however the frames use their offers, no deadline
      of any slot is ever missed, at the end and at every point on the way. */
  lemma {:induction false} RunIsSolvent(prg: seq<nat>, control: seq<nat>, offers: seq<nat>, capacity: seq<nat>,
                                        prebuffer: nat, n: nat)
    requires ObeysOffers(prg, control, offers, capacity, prebuffer) && NonDecreasing(capacity)
    requires n <= |prg|
    ensures Solvent(prg[..n], control[..n], capacity, prebuffer)
  {
    if n > 0 {
      var f := n - 1;
      RunIsSolvent(prg, control, offers, capacity, prebuffer, f);
      assert ObeysOffer(prg, control, offers, capacity, prebuffer, f);
      assert prg[..n] == prg[..f] + [prg[f]] && control[..n] == control[..f] + [control[f]];
      TotalPrefix(prg[..f], prg, f);
      TotalPrefix(control[..f], control, f);
      if f > 0 {
        OfferIsSafe(prg[..f], control[..f], capacity, prebuffer, offers[f], prg[f], control[f]);
      }
    }
  }

  // Capacity

  /** Sectors available through each slot: the route's cap, and the drive's own
      delivery when a cadence is given. */
  function UsefulCapacity(count: nat, frameSectors: nat, cadence: Option<seq<nat>>): (capacity: seq<nat>)
    requires cadence.Some? ==> |cadence.value| == count
    ensures |capacity| == count
  {
    seq(count, i requires 0 <= i < count => UsefulAt(i, frameSectors, cadence))
  }

  function UsefulAt(i: nat, frameSectors: nat, cadence: Option<seq<nat>>): nat
    requires cadence.Some? ==> i < |cadence.value|
  {
    if cadence.Some? then Min(i * frameSectors, Total(cadence.value, i + 1)) else i * frameSectors
  }

  lemma {:induction false} TotalMono(s: seq<nat>, i: nat, j: nat)
    requires i <= j <= |s|
    ensures Total(s, i) <= Total(s, j)
  {
    if i < j { TotalMono(s, i, j - 1); }
  }

  lemma CapacityNonDecreasing(count: nat, frameSectors: nat, cadence: Option<seq<nat>>)
    requires cadence.Some? ==> |cadence.value| == count
    ensures NonDecreasing(UsefulCapacity(count, frameSectors, cadence))
    ensures count > 0 ==> UsefulCapacity(count, frameSectors, cadence)[0] == 0
  {
    forall i, j | 0 <= i <= j < count
      ensures UsefulCapacity(count, frameSectors, cadence)[i] <= UsefulCapacity(count, frameSectors, cadence)[j]
    {
      MulMono(i, j, frameSectors);
      if cadence.Some? { TotalMono(cadence.value, i + 1, j + 1); }
    }
  }

  /** Through any slot the useful capacity is within the route's sectors and within
      what the drive has delivered, and it is one of the two. */
  lemma CapacityIsTheLesser(count: nat, frameSectors: nat, cadence: Option<seq<nat>>, i: nat)
    requires i < count && (cadence.Some? ==> |cadence.value| == count)
    ensures var c := UsefulCapacity(count, frameSectors, cadence)[i];
            && c <= i * frameSectors && (cadence.Some? ==> c <= Total(cadence.value, i) + cadence.value[i])
            && (c == i * frameSectors || (cadence.Some? && c == Total(cadence.value, i) + cadence.value[i]))
  {
    assert UsefulCapacity(count, frameSectors, cadence)[i] == UsefulAt(i, frameSectors, cadence);
    if cadence.Some? { assert Total(cadence.value, i + 1) == Total(cadence.value, i) + cadence.value[i]; }
  }
}
