/** BODY.DAT: the slot writer inside write_stream and verify_body_delivery_file of
    tools/pack_stream.py.  A route says how many sectors of each slot carry
    control, WordBuf refill and Prg payload; the rest is padding.  Frame 0 is in
    the arm, so the timed slots start at frame 1. */
module BodySlots {
  import opened Arith

  type Bytes = seq<Byte>

  /** Sectors per frame; `payload` counts the refill sectors as well. */
  datatype Route = Route(control: seq<nat>, payload: seq<nat>, word: seq<nat>, slots: seq<nat>)
  {
    /** What the routing table's encoder accepts. */
    ghost predicate Valid() {
      && |control| == |payload| == |word| == |slots|
      && forall i :: 0 <= i < |slots| ==> word[i] <= payload[i]
    }
  }

  /** `prebuffer` counts the payload bytes that HEADER.DAT has already carried. */
  datatype Streams = Streams(arm: Bytes, control: Bytes, word0: Bytes, word1: Bytes, payload: Bytes, prebuffer: nat) {
    function Word(p: nat): Bytes { if p == 0 then word0 else word1 }
  }

  function Zeros(n: nat): (z: Bytes)
    ensures |z| == n && forall k :: 0 <= k < n ==> z[k] == 0
  {
    seq(n, _ => 0)
  }

  /** Python's ljust with zero bytes. */
  function Padded(s: Bytes, n: nat): Bytes {
    s + Zeros(Max(0, n - |s|))
  }

  /** n bytes of s from `at` on, zeros past its end. */
  function Window(s: Bytes, at: nat, n: nat): (w: Bytes)
    ensures |w| == n
  {
    seq(n, k requires 0 <= k < n => if at + k < |s| then s[at + k] else 0)
  }

  lemma PaddedSlice(s: Bytes, at: nat, n: nat)
    ensures Padded(Slice(s, at, at + n), n) == Window(s, at, n)
  {
  }

  lemma WindowJoin(s: Bytes, at: nat, n: nat, m: nat)
    ensures Window(s, at, n) + Window(s, at + n, m) == Window(s, at, n + m)
  {
  }

  lemma WindowAll(s: Bytes, at: nat, n: nat)
    requires |s| <= at + n
    ensures Window(s, at, n) == Padded(Slice(s, at, |s|), n)
    ensures at == 0 ==> Window(s, at, n) == Padded(s, n)
  {
  }

  // Cursors: how far each stream has been consumed before frame i

  function ControlAt(r: Route, i: nat): nat
    requires i <= |r.control|
  {
    if i <= 1 then 0 else ControlAt(r, i - 1) + r.control[i - 1] * SECTOR
  }

  function WordAt(r: Route, i: nat, p: nat): nat
    requires i <= |r.word|
  {
    if i <= 1 then 0 else WordAt(r, i - 1, p) + if (i - 1) % 2 == p then r.word[i - 1] * SECTOR else 0
  }

  function PayloadAt(r: Route, i: nat): nat
    requires r.Valid() && i <= |r.slots|
  {
    if i <= 1 then 0 else PayloadAt(r, i - 1) + (r.payload[i - 1] - r.word[i - 1]) * SECTOR
  }

  function SlotAt(r: Route, i: nat): nat
    requires i <= |r.slots|
  {
    if i <= 1 then 0 else SlotAt(r, i - 1) + r.slots[i - 1] * SECTOR
  }

  /** The sectors of every timed slot hold what the route puts in them. */
  ghost predicate Fits(r: Route)
    requires r.Valid()
  {
    forall i :: 1 <= i < |r.slots| ==> r.control[i] + r.payload[i] <= r.slots[i]
  }

  /** The route has room for all of every stream. */
  ghost predicate Covers(r: Route, s: Streams)
    requires r.Valid()
  {
    var n := |r.slots|;
    && |s.control| <= ControlAt(r, n) && |s.payload| <= s.prebuffer + PayloadAt(r, n)
    && |s.word0| <= WordAt(r, n, 0) && |s.word1| <= WordAt(r, n, 1)
  }

  // What is written

  function ControlPart(r: Route, s: Streams, i: nat): Bytes
    requires r.Valid() && i < |r.slots|
  {
    Window(s.control, ControlAt(r, i), r.control[i] * SECTOR)
  }

  function WordPart(r: Route, s: Streams, i: nat): Bytes
    requires r.Valid() && i < |r.slots|
  {
    Window(s.Word(i % 2), WordAt(r, i, i % 2), r.word[i] * SECTOR)
  }

  function PayloadPart(r: Route, s: Streams, i: nat): Bytes
    requires r.Valid() && i < |r.slots|
  {
    Window(s.payload, s.prebuffer + PayloadAt(r, i), (r.payload[i] - r.word[i]) * SECTOR)
  }

  /** One timed slot: control, then refill, then payload, then padding. */
  function SlotBytes(r: Route, s: Streams, i: nat): Bytes
    requires r.Valid() && i < |r.slots|
  {
    Padded(ControlPart(r, s, i) + WordPart(r, s, i) + PayloadPart(r, s, i), r.slots[i] * SECTOR)
  }

  function BodyTo(r: Route, s: Streams, i: nat): Bytes
    requires r.Valid() && i <= |r.slots|
  {
    if i <= 1 then s.arm else BodyTo(r, s, i - 1) + SlotBytes(r, s, i - 1)
  }

  function Body(r: Route, s: Streams): Bytes
    requires r.Valid()
  {
    BodyTo(r, s, |r.slots|)
  }

  lemma SlotLength(r: Route, s: Streams, i: nat)
    requires r.Valid() && 1 <= i < |r.slots|
    ensures |SlotBytes(r, s, i)| >= r.slots[i] * SECTOR
    ensures |SlotBytes(r, s, i)| == r.slots[i] * SECTOR <==> r.control[i] + r.payload[i] <= r.slots[i]
  {
  }

  /** The file has the scheduled size exactly when every slot holds its sectors. */
  lemma {:induction false} BodyLength(r: Route, s: Streams, n: nat)
    requires r.Valid() && n <= |r.slots|
    ensures |BodyTo(r, s, n)| >= |s.arm| + SlotAt(r, n)
    ensures |BodyTo(r, s, n)| == |s.arm| + SlotAt(r, n)
       <==> forall i :: 1 <= i < n ==> r.control[i] + r.payload[i] <= r.slots[i]
  {
    hide SlotBytes;
    if n > 1 {
      BodyLength(r, s, n - 1);
      SlotLength(r, s, n - 1);
    }
  }

  method WriteBody(r: Route, s: Streams) returns (out: Result<Bytes>)
    requires r.Valid()
    ensures out.Ok? <==> Fits(r) && Covers(r, s)
    ensures out.Ok? ==> out.value == Body(r, s)
  {
    hide SlotBytes, ControlAt, WordAt, PayloadAt, SlotAt, Window, Padded;
    var cc, pc, wc0, wc1 := 0, s.prebuffer, 0, 0;
    var f, sectors := s.arm, 0;
    CursorsStart(r);
    if |r.slots| > 0 {
      for i := 1 to |r.slots|
        invariant f == BodyTo(r, s, i) && sectors * SECTOR == SlotAt(r, i)
        invariant cc == ControlAt(r, i) && pc == s.prebuffer + PayloadAt(r, i)
        invariant wc0 == WordAt(r, i, 0) && wc1 == WordAt(r, i, 1)
      {
        CursorsAdvance(r, i);
        var nwb := r.word[i] * SECTOR;
        var npb := (r.payload[i] - r.word[i]) * SECTOR;
        var ncb := r.control[i] * SECTOR;
        var fr := Padded(Slice(s.control, cc, cc + ncb), ncb);
        cc := cc + ncb;
        var parity := i % 2;
        var wc := if parity == 0 then wc0 else wc1;
        fr := fr + Padded(Slice(s.Word(parity), wc, wc + nwb), nwb);
        if parity == 0 { wc0 := wc0 + nwb; } else { wc1 := wc1 + nwb; }
        fr := fr + Padded(Slice(s.payload, pc, pc + npb), npb);
        pc := pc + npb;
        fr := Padded(fr, r.slots[i] * SECTOR);
        SlotWritten(r, s, i);
        f := f + fr;
        sectors := sectors + r.slots[i];
      }
    }
    BodyLength(r, s, |r.slots|);
    if cc < |s.control| { return Err("control bytes omitted"); }
    if pc < |s.payload| { return Err("payload bytes omitted"); }
    if wc0 < |s.word0| || wc1 < |s.word1| { return Err("WordBuf refill bytes omitted"); }
    if |f| != |s.arm| + sectors * SECTOR { return Err("size disagrees with the schedule"); }
    return Ok(f);
  }

  lemma CursorsStart(r: Route)
    requires r.Valid()
    ensures forall i :: 0 <= i <= 1 && i <= |r.slots| ==>
      ControlAt(r, i) == WordAt(r, i, 0) == WordAt(r, i, 1) == PayloadAt(r, i) == SlotAt(r, i) == 0
  {
  }

  lemma CursorsAdvance(r: Route, i: nat)
    requires r.Valid() && 1 <= i < |r.slots|
    ensures ControlAt(r, i + 1) == ControlAt(r, i) + r.control[i] * SECTOR
    ensures WordAt(r, i + 1, i % 2) == WordAt(r, i, i % 2) + r.word[i] * SECTOR
    ensures WordAt(r, i + 1, 1 - i % 2) == WordAt(r, i, 1 - i % 2)
    ensures PayloadAt(r, i + 1) == PayloadAt(r, i) + (r.payload[i] - r.word[i]) * SECTOR
    ensures SlotAt(r, i + 1) == SlotAt(r, i) + r.slots[i] * SECTOR
  {
  }

  lemma SlotWritten(r: Route, s: Streams, i: nat)
    requires r.Valid() && 1 <= i < |r.slots|
    ensures var ncb, nwb, npb := r.control[i] * SECTOR, r.word[i] * SECTOR, (r.payload[i] - r.word[i]) * SECTOR;
            var cc, wc, pc := ControlAt(r, i), WordAt(r, i, i % 2), s.prebuffer + PayloadAt(r, i);
            SlotBytes(r, s, i)
              == Padded(Padded(Slice(s.control, cc, cc + ncb), ncb) + Padded(Slice(s.Word(i % 2), wc, wc + nwb), nwb)
                        + Padded(Slice(s.payload, pc, pc + npb), npb), r.slots[i] * SECTOR)
  {
    hide Padded, Window, Slice, ControlAt, WordAt, PayloadAt;
    PaddedSlice(s.control, ControlAt(r, i), r.control[i] * SECTOR);
    PaddedSlice(s.Word(i % 2), WordAt(r, i, i % 2), r.word[i] * SECTOR);
    PaddedSlice(s.payload, s.prebuffer + PayloadAt(r, i), (r.payload[i] - r.word[i]) * SECTOR);
  }

  // Cutting the file by the route

  function Piece(f: Bytes, at: nat, n: nat): (p: Bytes)
    ensures at + n <= |f| ==> |p| == n
  {
    Slice(f, at, at + n)
  }

  /** The control areas of slots 1 .. i - 1, one after another. */
  function CutControl(f: Bytes, arm: nat, r: Route, i: nat): Bytes
    requires r.Valid() && i <= |r.slots|
  {
    if i <= 1 then [] else CutControl(f, arm, r, i - 1) + Piece(f, arm + SlotAt(r, i - 1), r.control[i - 1] * SECTOR)
  }

  /** The refill areas of one parity. */
  function CutWord(f: Bytes, arm: nat, r: Route, i: nat, p: nat): Bytes
    requires r.Valid() && i <= |r.slots|
  {
    if i <= 1 then []
    else CutWord(f, arm, r, i - 1, p)
         + if (i - 1) % 2 == p
           then Piece(f, arm + SlotAt(r, i - 1) + r.control[i - 1] * SECTOR, r.word[i - 1] * SECTOR) else []
  }

  function CutPayload(f: Bytes, arm: nat, r: Route, i: nat): Bytes
    requires r.Valid() && i <= |r.slots|
  {
    if i <= 1 then []
    else CutPayload(f, arm, r, i - 1)
         + Piece(f, arm + SlotAt(r, i - 1) + (r.control[i - 1] + r.word[i - 1]) * SECTOR,
                 (r.payload[i - 1] - r.word[i - 1]) * SECTOR)
  }

  lemma {:induction false} BodySlotted(f: Bytes, r: Route, s: Streams, n: nat)
    requires r.Valid() && Fits(r) && n <= |r.slots| && BodyTo(r, s, n) <= f
    ensures forall i :: 1 <= i < n ==> Piece(f, |s.arm| + SlotAt(r, i), r.slots[i] * SECTOR) == SlotBytes(r, s, i)
  {
    hide SlotBytes, SlotAt;
    if n > 1 {
      BodySlotted(f, r, s, n - 1);
      BodyLength(r, s, n - 1);
      SlotLength(r, s, n - 1);
      var was, slot := BodyTo(r, s, n - 1), SlotBytes(r, s, n - 1);
      assert f[..|was| + |slot|] == was + slot;
      assert f[|was|..|was| + |slot|] == (was + slot)[|was|..];
    }
  }

  /** The three areas of one slot hold the three parts. */
  lemma AreasAre(f: Bytes, at: nat, r: Route, s: Streams, i: nat)
    requires r.Valid() && Fits(r) && 1 <= i < |r.slots|
    requires Piece(f, at, r.slots[i] * SECTOR) == SlotBytes(r, s, i)
    ensures Piece(f, at, r.control[i] * SECTOR) == ControlPart(r, s, i)
    ensures Piece(f, at + r.control[i] * SECTOR, r.word[i] * SECTOR) == WordPart(r, s, i)
    ensures Piece(f, at + (r.control[i] + r.word[i]) * SECTOR, (r.payload[i] - r.word[i]) * SECTOR)
            == PayloadPart(r, s, i)
  {
    hide ControlPart, WordPart, PayloadPart, Piece, Slice, Padded;
    var a, b, c := ControlPart(r, s, i), WordPart(r, s, i), PayloadPart(r, s, i);
    PartLengths(r, s, i);
    Thirds(a, b, c, r.slots[i] * SECTOR);
    SubPiece(f, at, r.slots[i] * SECTOR, 0, |a|);
    SubPiece(f, at, r.slots[i] * SECTOR, |a|, |b|);
    SubPiece(f, at, r.slots[i] * SECTOR, |a| + |b|, |c|);
  }

  lemma PartLengths(r: Route, s: Streams, i: nat)
    requires r.Valid() && i < |r.slots|
    ensures |ControlPart(r, s, i)| == r.control[i] * SECTOR && |WordPart(r, s, i)| == r.word[i] * SECTOR
    ensures |PayloadPart(r, s, i)| == (r.payload[i] - r.word[i]) * SECTOR
  {
  }

  lemma SubPiece(f: Bytes, at: nat, n: nat, from: nat, m: nat)
    requires from + m <= n == |Piece(f, at, n)|
    ensures Piece(f, at + from, m) == Piece(f, at, n)[from..from + m]
  {
    if n > 0 {
      assert at + n <= |f| && Piece(f, at, n) == f[at..at + n];
      SliceOfSlice(f, at, n, from, m);
    }
  }

  lemma SliceOfSlice<T>(f: seq<T>, at: nat, n: nat, from: nat, m: nat)
    requires at + n <= |f| && from + m <= n
    ensures f[at..at + n][from..from + m] == f[at + from..at + from + m]
  {
    var piece := f[at..at + n];
    var left, right := piece[from..from + m], f[at + from..at + from + m];
    forall k | 0 <= k < m ensures left[k] == right[k] {
      assert left[k] == piece[from + k] && right[k] == f[at + from + k];
    }
  }

  lemma Thirds(a: Bytes, b: Bytes, c: Bytes, n: nat)
    requires |a| + |b| + |c| <= n
    ensures var slot := Padded(a + b + c, n);
            && |slot| == n && slot[..|a|] == a && slot[|a|..|a| + |b|] == b && slot[|a| + |b|..|a| + |b| + |c|] == c
  {
  }

  lemma {:induction false} CutsAre(f: Bytes, arm: nat, r: Route, s: Streams, n: nat)
    requires r.Valid() && Fits(r) && n <= |r.slots|
    requires forall i :: 1 <= i < n ==> Piece(f, arm + SlotAt(r, i), r.slots[i] * SECTOR) == SlotBytes(r, s, i)
    ensures CutControl(f, arm, r, n) == Window(s.control, 0, ControlAt(r, n))
    ensures CutPayload(f, arm, r, n) == Window(s.payload, s.prebuffer, PayloadAt(r, n))
  {
    hide Piece, SlotBytes, SlotAt, Window;
    if n > 1 {
      CutsAre(f, arm, r, s, n - 1);
      AreasAre(f, arm + SlotAt(r, n - 1), r, s, n - 1);
      WindowJoin(s.control, 0, ControlAt(r, n - 1), r.control[n - 1] * SECTOR);
      WindowJoin(s.payload, s.prebuffer, PayloadAt(r, n - 1), (r.payload[n - 1] - r.word[n - 1]) * SECTOR);
    } else {
      NoBytes(s.control, 0);
      NoBytes(s.payload, s.prebuffer);
    }
  }

  lemma {:induction false} WordCutsAre(f: Bytes, arm: nat, r: Route, s: Streams, n: nat, p: nat)
    requires r.Valid() && Fits(r) && n <= |r.slots| && p < 2
    requires forall i :: 1 <= i < n ==> Piece(f, arm + SlotAt(r, i), r.slots[i] * SECTOR) == SlotBytes(r, s, i)
    ensures CutWord(f, arm, r, n, p) == Window(s.Word(p), 0, WordAt(r, n, p))
  {
    hide Piece, SlotBytes, SlotAt, Window;
    if n > 1 {
      WordCutsAre(f, arm, r, s, n - 1, p);
      AreasAre(f, arm + SlotAt(r, n - 1), r, s, n - 1);
      WindowJoin(s.Word(p), 0, WordAt(r, n - 1, p), r.word[n - 1] * SECTOR);
    } else {
      NoBytes(s.Word(p), 0);
    }
  }

  lemma NoBytes(s: Bytes, at: nat)
    ensures Window(s, at, 0) == []
  {
  }

  /** The file a route writes gives back the arm, the control stream, both refill
      streams and the payload after the prebuffer, each followed only by zeros. */
  lemma CutsBack(r: Route, s: Streams)
    requires r.Valid() && Fits(r) && Covers(r, s)
    ensures var f, n := Body(r, s), |r.slots|;
            && s.arm <= f && |f| == |s.arm| + SlotAt(r, n)
            && CutControl(f, |s.arm|, r, n) == Padded(s.control, ControlAt(r, n))
            && CutWord(f, |s.arm|, r, n, 0) == Padded(s.word0, WordAt(r, n, 0))
            && CutWord(f, |s.arm|, r, n, 1) == Padded(s.word1, WordAt(r, n, 1))
            && CutPayload(f, |s.arm|, r, n) == Padded(Slice(s.payload, s.prebuffer, |s.payload|), PayloadAt(r, n))
  {
    hide BodyTo, CutControl, CutWord, CutPayload, SlotAt, ControlAt, WordAt, PayloadAt, Padded, Window;
    var n := |r.slots|;
    BodySlotted(Body(r, s), r, s, n);
    BodyLength(r, s, n);
    ArmLeads(r, s, n);
    CutsAre(Body(r, s), |s.arm|, r, s, n);
    WordCutsAre(Body(r, s), |s.arm|, r, s, n, 0);
    WordCutsAre(Body(r, s), |s.arm|, r, s, n, 1);
    WindowAll(s.control, 0, ControlAt(r, n));
    WindowAll(s.word0, 0, WordAt(r, n, 0));
    WindowAll(s.word1, 0, WordAt(r, n, 1));
    WindowAll(s.payload, s.prebuffer, PayloadAt(r, n));
  }

  lemma {:induction false} ArmLeads(r: Route, s: Streams, n: nat)
    requires r.Valid() && n <= |r.slots|
    ensures s.arm <= BodyTo(r, s, n)
  {
    if n > 1 { ArmLeads(r, s, n - 1); }
  }

  // verify_body_delivery_file

  /** The useful bytes of each slot as the schedule recorded them. */
  datatype Trace = Trace(control: seq<int>, payload: seq<int>, pad: seq<int>)

  function UsefulControl(r: Route, s: Streams, i: nat): int
    requires r.Valid() && i < |r.slots|
  {
    if i == 0 then 0 else |Slice(s.control, ControlAt(r, i), ControlAt(r, i) + r.control[i] * SECTOR)|
  }

  function UsefulPayload(r: Route, s: Streams, i: nat): int
    requires r.Valid() && i < |r.slots|
  {
    if i == 0 then 0
    else
      var at, from := WordAt(r, i, i % 2), s.prebuffer + PayloadAt(r, i);
      |Slice(s.Word(i % 2), at, at + r.word[i] * SECTOR)|
      + |Slice(s.payload, from, from + (r.payload[i] - r.word[i]) * SECTOR)|
  }

  function PadBytes(r: Route, s: Streams, i: nat): int
    requires r.Valid() && i < |r.slots|
  {
    if i == 0 then 0 else r.slots[i] * SECTOR - UsefulControl(r, s, i) - UsefulPayload(r, s, i)
  }

  ghost predicate Traced(r: Route, s: Streams, t: Trace)
    requires r.Valid() && |t.control| == |t.payload| == |t.pad| == |r.slots|
  {
    && (forall i :: 0 <= i < |r.slots| ==> t.control[i] == UsefulControl(r, s, i))
    && (forall i :: 0 <= i < |r.slots| ==> t.payload[i] == UsefulPayload(r, s, i))
    && (forall i :: 0 <= i < |r.slots| ==> t.pad[i] == PadBytes(r, s, i))
  }

  predicate AllZero(s: Bytes) { forall k :: 0 <= k < |s| ==> s[k] == 0 }

  /** An area holds its source and then zeros. */
  predicate Holds(area: Bytes, source: Bytes) {
    |source| <= |area| && area[..|source|] == source && AllZero(area[|source|..])
  }

  lemma HoldsPadded(area: Bytes, source: Bytes)
    requires |source| <= |area|
    ensures Holds(area, source) <==> area == Padded(source, |area|)
  {
    if Holds(area, source) {
      assert area == area[..|source|] + area[|source|..];
      assert area[|source|..] == Zeros(|area| - |source|);
    }
  }

  // The verifier slices each slot into areas, and Python's slices stop at the
  // slot's end; the file it looks for is therefore made of slots cut to size.

  /** As much of slot i as its sectors hold. */
  function CutSlot(r: Route, s: Streams, i: nat): (b: Bytes)
    requires r.Valid() && 1 <= i < |r.slots|
    ensures |b| == r.slots[i] * SECTOR
  {
    SlotLength(r, s, i);
    SlotBytes(r, s, i)[..r.slots[i] * SECTOR]
  }

  function DiskTo(r: Route, s: Streams, i: nat): Bytes
    requires r.Valid() && i <= |r.slots|
  {
    if i <= 1 then s.arm else DiskTo(r, s, i - 1) + CutSlot(r, s, i - 1)
  }

  /** No source byte lies in what is cut off. */
  ghost predicate Uncut(r: Route, s: Streams, i: nat)
    requires r.Valid() && i < |r.slots|
  {
    var size := r.slots[i] * SECTOR;
    var ncb, nwb, npb := r.control[i] * SECTOR, r.word[i] * SECTOR, (r.payload[i] - r.word[i]) * SECTOR;
    var cc, wc, pc := ControlAt(r, i), WordAt(r, i, i % 2), s.prebuffer + PayloadAt(r, i);
    && |Slice(s.control, cc, cc + ncb)| <= Min(ncb, size)
    && |Slice(s.Word(i % 2), wc, wc + nwb)| <= Min(nwb, Max(0, size - ncb))
    && |Slice(s.payload, pc, pc + npb)| <= Min(npb, Max(0, size - ncb - nwb))
  }

  ghost predicate UncutBelow(r: Route, s: Streams, n: nat)
    requires r.Valid() && n <= |r.slots|
  {
    forall i :: 1 <= i < n ==> Uncut(r, s, i)
  }

  lemma {:induction false} DiskLength(r: Route, s: Streams, n: nat)
    requires r.Valid() && n <= |r.slots|
    ensures |DiskTo(r, s, n)| == |s.arm| + SlotAt(r, n)
  {
    hide CutSlot;
    if n > 1 { DiskLength(r, s, n - 1); }
  }

  lemma {:induction false} DiskGrows(r: Route, s: Streams, i: nat, n: nat)
    requires r.Valid() && i <= n <= |r.slots|
    ensures DiskTo(r, s, i) <= DiskTo(r, s, n)
  {
    hide CutSlot;
    if i < n && n > 1 { DiskGrows(r, s, i, n - 1); }
  }

  /** When every slot holds its sectors nothing is cut, and the file looked for is
      the file written. */
  lemma {:induction false} FittingIsUncut(r: Route, s: Streams, n: nat)
    requires r.Valid() && Fits(r) && n <= |r.slots|
    ensures DiskTo(r, s, n) == BodyTo(r, s, n) && UncutBelow(r, s, n)
  {
    hide SlotBytes, Uncut;
    if n > 1 {
      FittingIsUncut(r, s, n - 1);
      SlotLength(r, s, n - 1);
      FittingSlot(r, s, n - 1);
    }
  }

  lemma FittingSlot(r: Route, s: Streams, i: nat)
    requires r.Valid() && Fits(r) && 1 <= i < |r.slots|
    ensures Uncut(r, s, i)
  {
    hide ControlAt, WordAt, PayloadAt, Slice;
    SliceLength(s.control, ControlAt(r, i), r.control[i] * SECTOR);
    SliceLength(s.Word(i % 2), WordAt(r, i, i % 2), r.word[i] * SECTOR);
    SliceLength(s.payload, s.prebuffer + PayloadAt(r, i), (r.payload[i] - r.word[i]) * SECTOR);
  }

  lemma SliceLength(s: Bytes, at: nat, n: nat)
    ensures |Slice(s, at, at + n)| <= n
  {
  }

  /** A part of w that lies at x, where cut follows w as far as it goes. */
  lemma PartOfCut(w: Bytes, cut: Bytes, x: nat, part: Bytes)
    requires x + |part| <= |w| && w[x..x + |part|] == part
    requires forall k :: 0 <= k < |cut| && k < |w| ==> cut[k] == w[k]
    ensures Slice(cut, x, x + |part|) == Slice(part, 0, Min(|part|, Max(0, |cut| - x)))
  {
    var m := Min(|part|, Max(0, |cut| - x));
    var piece := Slice(cut, x, x + |part|);
    forall k | 0 <= k < m ensures piece[k] == part[k] {
      assert w[x..x + |part|][k] == part[k] && piece[k] == cut[x + k];
    }
    assert piece == part[..m];
  }

  /** Three parts, padded and cut to size, piece by piece. */
  lemma CutPieces(a: Bytes, b: Bytes, c: Bytes, size: nat)
    ensures |Padded(a + b + c, size)| >= size
    ensures var cut := Padded(a + b + c, size)[..size];
            && Slice(cut, 0, |a|) == Slice(a, 0, Min(|a|, size))
            && Slice(cut, |a|, |a| + |b|) == Slice(b, 0, Min(|b|, Max(0, size - |a|)))
            && Slice(cut, |a| + |b|, |a| + |b| + |c|) == Slice(c, 0, Min(|c|, Max(0, size - |a| - |b|)))
            && AllZero(Slice(cut, |a| + |b| + |c|, size))
  {
    var w, cut := a + b + c, Padded(a + b + c, size)[..size];
    hide Padded, Slice, AllZero;
    PartsOf(a, b, c);
    CutFollows(w, size);
    assert |cut| == size && |w| == |a| + |b| + |c|;
    PartOfCut(w, cut, 0, a);
    PartOfCut(w, cut, |a|, b);
    PartOfCut(w, cut, |a| + |b|, c);
  }

  lemma PartsOf(a: Bytes, b: Bytes, c: Bytes)
    ensures var w := a + b + c;
            w[0..|a|] == a && w[|a|..|a| + |b|] == b && w[|a| + |b|..|a| + |b| + |c|] == c
  {
  }

  lemma CutFollows(w: Bytes, size: nat)
    ensures |Padded(w, size)| >= size
    ensures var cut := Padded(w, size)[..size];
            (forall k :: 0 <= k < size && k < |w| ==> cut[k] == w[k]) && AllZero(Slice(cut, |w|, size))
  {
    var cut := Padded(w, size)[..size];
    assert forall k :: |w| <= k < size ==> cut[k] == 0;
    var rest := Slice(cut, |w|, size);
    forall k | 0 <= k < |rest| ensures rest[k] == 0 { assert rest[k] == cut[|w| + k]; }
  }

  /** A slot is put together from its four areas. */
  lemma FourAreas(slot: Bytes, x: nat, y: nat, z: nat)
    requires x <= y <= z
    ensures Slice(slot, 0, x) + Slice(slot, x, y) + Slice(slot, y, z) + Slice(slot, z, |slot|) == slot
  {
    SliceJoin(slot, 0, x, y);
    SliceJoin(slot, 0, y, z);
    SliceRest(slot, z);
    hide Slice;
  }

  lemma SliceJoin(s: Bytes, x: nat, y: nat, z: nat)
    requires x <= y <= z
    ensures Slice(s, x, y) + Slice(s, y, z) == Slice(s, x, z)
  {
  }

  lemma SliceRest(s: Bytes, x: nat)
    ensures Slice(s, 0, x) + Slice(s, x, |s|) == s
  {
  }

  lemma ZerosAgree(a: Bytes, b: Bytes)
    requires AllZero(a) && AllZero(b) && |a| == |b|
    ensures a == b
  {
  }

  lemma AreasDecide(slot: Bytes, a: Bytes, b: Bytes, c: Bytes)
    ensures var size, cut := |slot|, Padded(a + b + c, |slot|)[..|slot|];
            slot == cut <==>
              && Slice(slot, 0, |a|) == Slice(a, 0, Min(|a|, size))
              && Slice(slot, |a|, |a| + |b|) == Slice(b, 0, Min(|b|, Max(0, size - |a|)))
              && Slice(slot, |a| + |b|, |a| + |b| + |c|) == Slice(c, 0, Min(|c|, Max(0, size - |a| - |b|)))
              && AllZero(Slice(slot, |a| + |b| + |c|, size))
  {
    CutPieces(a, b, c, |slot|);
    var cut := Padded(a + b + c, |slot|)[..|slot|];
    var x, y, z := |a|, |a| + |b|, |a| + |b| + |c|;
    FourAreas(slot, x, y, z);
    FourAreas(cut, x, y, z);
    assert |Slice(slot, z, |slot|)| == |Slice(cut, z, |slot|)|;
    hide Padded, AllZero, Slice;
    if AllZero(Slice(slot, z, |slot|)) { ZerosAgree(Slice(slot, z, |slot|), Slice(cut, z, |slot|)); }
  }

  /** What one round of the verifier's loop looks at. */
  predicate SlotAccepted(r: Route, slot: Bytes, i: nat, control: Bytes, word: Bytes, payload: Bytes)
    requires r.Valid() && i < |r.slots|
  {
    var ncb, nwb, npb := r.control[i] * SECTOR, r.word[i] * SECTOR, (r.payload[i] - r.word[i]) * SECTOR;
    && Holds(Slice(slot, 0, ncb), control) && Holds(Slice(slot, ncb, ncb + nwb), word)
    && Holds(Slice(slot, ncb + nwb, ncb + nwb + npb), payload) && AllZero(Slice(slot, ncb + nwb + npb, |slot|))
  }

  lemma AcceptedIsExact(r: Route, s: Streams, i: nat, slot: Bytes)
    requires r.Valid() && 1 <= i < |r.slots| && |slot| == r.slots[i] * SECTOR
    ensures var cc, wc, pc := ControlAt(r, i), WordAt(r, i, i % 2), s.prebuffer + PayloadAt(r, i);
            SlotAccepted(r, slot, i, Slice(s.control, cc, cc + r.control[i] * SECTOR),
                         Slice(s.Word(i % 2), wc, wc + r.word[i] * SECTOR),
                         Slice(s.payload, pc, pc + (r.payload[i] - r.word[i]) * SECTOR))
            <==> slot == CutSlot(r, s, i) && Uncut(r, s, i)
  {
    hide ControlAt, WordAt, PayloadAt, Padded, Window, Holds, AllZero, Slice;
    var ncb, nwb, npb := r.control[i] * SECTOR, r.word[i] * SECTOR, (r.payload[i] - r.word[i]) * SECTOR;
    var cc, wc, pc := ControlAt(r, i), WordAt(r, i, i % 2), s.prebuffer + PayloadAt(r, i);
    SlotLength(r, s, i);
    PartLengths(r, s, i);
    AreasDecide(slot, ControlPart(r, s, i), WordPart(r, s, i), PayloadPart(r, s, i));
    AreaLengths(slot, ncb, nwb, npb);
    AreaChecked(Slice(slot, 0, ncb), s.control, cc, ncb);
    AreaChecked(Slice(slot, ncb, ncb + nwb), s.Word(i % 2), wc, nwb);
    AreaChecked(Slice(slot, ncb + nwb, ncb + nwb + npb), s.payload, pc, npb);
  }

  lemma AreaLengths(slot: Bytes, n: nat, m: nat, k: nat)
    ensures |Slice(slot, 0, n)| == Min(n, |slot|) && |Slice(slot, n, n + m)| == Min(m, Max(0, |slot| - n))
    ensures |Slice(slot, n + m, n + m + k)| == Min(k, Max(0, |slot| - n - m))
  {
  }

  /** An area, perhaps shorter than the n bytes meant for it, holds its source. */
  lemma AreaChecked(area: Bytes, s: Bytes, at: nat, n: nat)
    requires |area| <= n
    ensures Holds(area, Slice(s, at, at + n)) <==>
              |Slice(s, at, at + n)| <= |area| && area == Slice(Window(s, at, n), 0, |area|)
  {
    var source := Slice(s, at, at + n);
    if |source| <= |area| {
      HoldsPadded(area, source);
      assert Padded(source, |area|) == Window(s, at, n)[..|area|];
    }
  }

  /** What the verifier accepts: exactly the file of the cut slots when no source byte
      is cut off, with the traces of its streams, a control sector in frame 1, and
      room for both refill streams.  Room for the control stream and the payload is
      the writer's check alone. */
  ghost predicate Accepts(file: Bytes, r: Route, s: Streams, t: Trace)
    requires r.Valid() && |t.control| == |t.payload| == |t.pad| == |r.slots|
  {
    && (|r.slots| > 1 ==> r.control[1] >= 1)
    && file == DiskTo(r, s, |r.slots|) && UncutBelow(r, s, |r.slots|)
    && |s.word0| <= WordAt(r, |r.slots|, 0) && |s.word1| <= WordAt(r, |r.slots|, 1)
    && Traced(r, s, t)
  }

  /** Of a route that fits, that is the file the writer makes. */
  lemma AcceptsWritten(r: Route, s: Streams, file: Bytes, t: Trace)
    requires r.Valid() && Fits(r) && Covers(r, s) && |t.control| == |t.payload| == |t.pad| == |r.slots|
    ensures Accepts(file, r, s, t) <==> (|r.slots| > 1 ==> r.control[1] >= 1) && file == Body(r, s) && Traced(r, s, t)
  {
    hide Traced, WordAt, ControlAt, PayloadAt;
    FittingIsUncut(r, s, |r.slots|);
  }

  /** A file that starts with the slots so far goes on with slot i exactly when its
      next bytes are that slot. */
  lemma NextSlot(file: Bytes, r: Route, s: Streams, i: nat)
    requires r.Valid() && 1 <= i < |r.slots| && DiskTo(r, s, i) <= file
    ensures var at, size := |s.arm| + SlotAt(r, i), r.slots[i] * SECTOR;
            DiskTo(r, s, i + 1) <= file <==> at + size <= |file| && file[at..at + size] == CutSlot(r, s, i)
    ensures |DiskTo(r, s, i)| == |s.arm| + SlotAt(r, i)
  {
    hide CutSlot, SlotAt;
    DiskLength(r, s, i);
    var was, slot := DiskTo(r, s, i), CutSlot(r, s, i);
    assert DiskTo(r, s, i + 1) == was + slot;
    hide DiskTo;
    Extends(file, was, slot);
  }

  lemma Extends(file: Bytes, was: Bytes, slot: Bytes)
    requires was <= file
    ensures was + slot <= file <==> |was| + |slot| <= |file| && file[|was|..|was| + |slot|] == slot
  {
    if |was| + |slot| <= |file| {
      assert file[..|was| + |slot|] == file[..|was|] + file[|was|..|was| + |slot|];
      assert (was + slot)[|was|..] == slot;
    }
  }

  lemma NotYet(file: Bytes, r: Route, s: Streams, i: nat)
    requires r.Valid() && 1 <= i < |r.slots| && !(DiskTo(r, s, i + 1) <= file && Uncut(r, s, i))
    ensures !(DiskTo(r, s, |r.slots|) <= file && UncutBelow(r, s, |r.slots|))
  {
    hide DiskTo, Uncut;
    DiskGrows(r, s, i + 1, |r.slots|);
  }

  /** What has been seen of the slots below i. */
  ghost predicate Seen(r: Route, s: Streams, t: Trace, i: nat)
    requires r.Valid()
  {
    && |t.control| == |t.payload| == |t.pad| == |r.slots|
    && forall k :: 0 <= k < i && k < |r.slots| ==>
         t.control[k] == UsefulControl(r, s, k) && t.payload[k] == UsefulPayload(r, s, k)
         && t.pad[k] == PadBytes(r, s, k)
  }

  /** Whether every slot of the file is right, and what each one carried. */
  method ScanSlots(file: Bytes, r: Route, s: Streams) returns (right: bool, seen: Trace)
    requires r.Valid() && s.arm <= file
    ensures right <==> DiskTo(r, s, |r.slots|) <= file && UncutBelow(r, s, |r.slots|)
    ensures right ==> |seen.control| == |seen.payload| == |seen.pad| == |r.slots| && Traced(r, s, seen)
  {
    hide ControlAt, WordAt, PayloadAt, SlotAt, CutSlot, Uncut, UncutBelow, SlotAccepted, Slice, DiskTo, Seen, Traced;
    var n, i := |r.slots|, 1;
    var cc, pc, wc0, wc1, at := 0, s.prebuffer, 0, 0, |s.arm|;
    seen := Trace(seq(n, _ => 0), seq(n, _ => 0), seq(n, _ => 0));
    CursorsStart(r);
    NothingScanned(r, s, seen);
    while i < n
      invariant 1 <= i && (i <= n || n == 0)
      invariant DiskTo(r, s, Min(i, n)) <= file && at == |s.arm| + SlotAt(r, Min(i, n))
      invariant UncutBelow(r, s, Min(i, n))
      invariant cc == ControlAt(r, Min(i, n)) && pc == s.prebuffer + PayloadAt(r, Min(i, n))
      invariant wc0 == WordAt(r, Min(i, n), 0) && wc1 == WordAt(r, Min(i, n), 1)
      invariant |seen.control| == |seen.payload| == |seen.pad| == n && Seen(r, s, seen, i)
    {
      CursorsAdvance(r, i);
      NextSlot(file, r, s, i);
      var ncb, nwb, npb := r.control[i] * SECTOR, r.word[i] * SECTOR, (r.payload[i] - r.word[i]) * SECTOR;
      var size := r.slots[i] * SECTOR;
      var slot := Slice(file, at, at + size);
      SliceInside(file, at, size);
      if |slot| != size {
        NotYet(file, r, s, i);
        return false, seen;
      }
      var parity := i % 2;
      var wc := if parity == 0 then wc0 else wc1;
      var controlSrc := Slice(s.control, cc, cc + ncb);
      var wordSrc := Slice(s.Word(parity), wc, wc + nwb);
      var payloadSrc := Slice(s.payload, pc, pc + npb);
      AcceptedIsExact(r, s, i, slot);
      if !SlotAccepted(r, slot, i, controlSrc, wordSrc, payloadSrc) {
        NotYet(file, r, s, i);
        return false, seen;
      }
      UncutNext(r, s, i);
      SeenNext(r, s, seen, i);
      seen := Trace(seen.control[i := |controlSrc|], seen.payload[i := |wordSrc| + |payloadSrc|],
                    seen.pad[i := size - |controlSrc| - |wordSrc| - |payloadSrc|]);
      cc, pc, at := cc + ncb, pc + npb, at + size;
      if parity == 0 { wc0 := wc0 + nwb; } else { wc1 := wc1 + nwb; }
      i := i + 1;
    }
    right := true;
    AllSeen(r, s, seen, i);
  }

  lemma UncutNext(r: Route, s: Streams, i: nat)
    requires r.Valid() && i < |r.slots| && UncutBelow(r, s, i) && Uncut(r, s, i)
    ensures UncutBelow(r, s, i + 1)
  {
    hide Uncut;
  }

  lemma SeenNext(r: Route, s: Streams, t: Trace, i: nat)
    requires r.Valid() && 1 <= i < |r.slots| && Seen(r, s, t, i)
    ensures |t.control| == |t.payload| == |t.pad| == |r.slots|
    ensures var cc, wc, pc := ControlAt(r, i), WordAt(r, i, i % 2), s.prebuffer + PayloadAt(r, i);
            var control := |Slice(s.control, cc, cc + r.control[i] * SECTOR)|;
            var word := |Slice(s.Word(i % 2), wc, wc + r.word[i] * SECTOR)|;
            var payload := |Slice(s.payload, pc, pc + (r.payload[i] - r.word[i]) * SECTOR)|;
            Seen(r, s, Trace(t.control[i := control], t.payload[i := word + payload],
                             t.pad[i := r.slots[i] * SECTOR - control - word - payload]), i + 1)
  {
    hide Slice, ControlAt, WordAt, PayloadAt, UsefulControl, UsefulPayload, PadBytes;
    UsefulAre(r, s, i);
    SeenUpdate(r, s, t, i, UsefulControl(r, s, i), UsefulPayload(r, s, i), PadBytes(r, s, i));
  }

  lemma SeenUpdate(r: Route, s: Streams, t: Trace, i: nat, control: int, payload: int, pad: int)
    requires r.Valid() && i < |r.slots| && Seen(r, s, t, i)
    requires control == UsefulControl(r, s, i) && payload == UsefulPayload(r, s, i) && pad == PadBytes(r, s, i)
    ensures Seen(r, s, Trace(t.control[i := control], t.payload[i := payload], t.pad[i := pad]), i + 1)
  {
    hide UsefulControl, UsefulPayload, PadBytes;
  }

  lemma AllSeen(r: Route, s: Streams, t: Trace, i: nat)
    requires r.Valid() && i >= |r.slots| && Seen(r, s, t, i)
    ensures |t.control| == |t.payload| == |t.pad| == |r.slots| && Traced(r, s, t)
  {
    hide UsefulControl, UsefulPayload, PadBytes;
  }

  lemma SliceInside(s: Bytes, at: nat, n: nat)
    requires at <= |s|
    ensures at + n <= |s| ==> Slice(s, at, at + n) == s[at..at + n]
    ensures |Slice(s, at, at + n)| == n <==> at + n <= |s|
  {
  }

  lemma NothingScanned(r: Route, s: Streams, t: Trace)
    requires r.Valid() && |t.control| == |t.payload| == |t.pad| == |r.slots|
    requires |r.slots| > 0 ==> t.control[0] == t.payload[0] == t.pad[0] == 0
    ensures Seen(r, s, t, 1)
    ensures forall i :: 0 <= i <= 1 && i <= |r.slots| ==> DiskTo(r, s, i) == s.arm && UncutBelow(r, s, i)
  {
  }

  lemma UsefulAre(r: Route, s: Streams, i: nat)
    requires r.Valid() && 1 <= i < |r.slots|
    ensures var cc, wc, pc := ControlAt(r, i), WordAt(r, i, i % 2), s.prebuffer + PayloadAt(r, i);
            && UsefulControl(r, s, i) == |Slice(s.control, cc, cc + r.control[i] * SECTOR)|
            && UsefulPayload(r, s, i) == |Slice(s.Word(i % 2), wc, wc + r.word[i] * SECTOR)|
                                         + |Slice(s.payload, pc, pc + (r.payload[i] - r.word[i]) * SECTOR)|
            && PadBytes(r, s, i) == r.slots[i] * SECTOR - UsefulControl(r, s, i) - UsefulPayload(r, s, i)
  {
    hide Slice, ControlAt, WordAt, PayloadAt;
  }

  method VerifyBody(file: Bytes, r: Route, s: Streams, t: Trace) returns (out: Result<()>)
    requires r.Valid() && |t.control| == |t.payload| == |t.pad| == |r.slots|
    ensures out.Ok? <==> Accepts(file, r, s, t)
  {
    hide UsefulControl, UsefulPayload, PadBytes, WordAt, SlotAt, UncutBelow, CutSlot;
    var n := |r.slots|;
    if n > 1 && r.control[1] < 1 { return Err("frame 1 must start with a control sector"); }
    DiskGrows(r, s, 0, n);
    DiskLength(r, s, n);
    assert DiskTo(r, s, 0) == s.arm;
    hide DiskTo;
    if Slice(file, 0, |s.arm|) != s.arm { return Err("arm prefix differs from packed input"); }
    var right, seen := ScanSlots(file, r, s);
    if !right { return Err("slot bytes differ"); }
    if |file| > |s.arm| + SlotAt(r, n) { return Err("bytes beyond the slot schedule"); }
    if WordAt(r, n, 0) < |s.word0| || WordAt(r, n, 1) < |s.word1| { return Err("WordBuf refill bytes omitted"); }
    if seen.control != t.control { return Err("useful control trace mismatch"); }
    if seen.payload != t.payload { return Err("useful payload trace mismatch"); }
    if seen.pad != t.pad { return Err("pad trace mismatch"); }
    out := Ok(());
  }

  function TotalTo(t: seq<int>, n: nat): int
    requires n <= |t|
  {
    if n == 0 then 0 else TotalTo(t, n - 1) + t[n - 1]
  }

  /** Bytes of a stream of the given length that a window of n bytes takes. */
  function Taken(length: nat, at: nat, n: nat): nat { Min(n, Max(0, length - at)) }

  /** Every byte is accounted for once: the useful bytes of an accepted route that
      covers its streams are the streams, and the rest of the slots is padding. */
  lemma {:induction false} UsefulTotals(r: Route, s: Streams, t: Trace, n: nat)
    requires r.Valid() && |t.control| == |t.payload| == |t.pad| == |r.slots| && Traced(r, s, t) && n <= |r.slots|
    ensures TotalTo(t.control, n) == Taken(|s.control|, 0, ControlAt(r, n))
    ensures TotalTo(t.payload, n) == Taken(|s.word0|, 0, WordAt(r, n, 0)) + Taken(|s.word1|, 0, WordAt(r, n, 1))
                                     + Taken(|s.payload|, s.prebuffer, PayloadAt(r, n))
    ensures TotalTo(t.control, n) + TotalTo(t.payload, n) + TotalTo(t.pad, n) == SlotAt(r, n)
  {
    hide Slice, Taken, ControlAt, WordAt, PayloadAt, SlotAt, UsefulControl, UsefulPayload, PadBytes, Traced, TotalTo;
    if n > 1 {
      var i := n - 1;
      UsefulTotals(r, s, t, i);
      UsefulAre(r, s, i);
      CursorsAdvance(r, i);
      TracedNext(r, s, t, i);
      TakenOn(s.control, 0, ControlAt(r, i), r.control[i] * SECTOR);
      TakenOn(s.Word(i % 2), 0, WordAt(r, i, i % 2), r.word[i] * SECTOR);
      TakenOn(s.payload, s.prebuffer, PayloadAt(r, i), (r.payload[i] - r.word[i]) * SECTOR);
    } else {
      TakenNone(s);
      TracedFirst(r, s, t, n);
    }
  }

  lemma TracedNext(r: Route, s: Streams, t: Trace, i: nat)
    requires r.Valid() && |t.control| == |t.payload| == |t.pad| == |r.slots| && Traced(r, s, t) && i < |r.slots|
    ensures TotalTo(t.control, i + 1) == TotalTo(t.control, i) + UsefulControl(r, s, i)
    ensures TotalTo(t.payload, i + 1) == TotalTo(t.payload, i) + UsefulPayload(r, s, i)
    ensures TotalTo(t.pad, i + 1) == TotalTo(t.pad, i) + PadBytes(r, s, i)
  {
    hide UsefulControl, UsefulPayload, PadBytes;
  }

  lemma TracedFirst(r: Route, s: Streams, t: Trace, n: nat)
    requires r.Valid() && |t.control| == |t.payload| == |t.pad| == |r.slots| && Traced(r, s, t)
    requires n <= |r.slots| && n <= 1
    ensures TotalTo(t.control, n) == TotalTo(t.payload, n) == TotalTo(t.pad, n) == 0
    ensures ControlAt(r, n) == WordAt(r, n, 0) == WordAt(r, n, 1) == PayloadAt(r, n) == SlotAt(r, n) == 0
  {
    if n == 1 { TracedNext(r, s, t, 0); }
  }

  lemma TakenOn(s: Bytes, from: nat, n: nat, m: nat)
    ensures Taken(|s|, from, n) + |Slice(s, from + n, from + n + m)| == Taken(|s|, from, n + m)
  {
  }

  lemma TakenNone(s: Streams)
    ensures Taken(|s.control|, 0, 0) == Taken(|s.word0|, 0, 0) == Taken(|s.word1|, 0, 0) == 0
    ensures Taken(|s.payload|, s.prebuffer, 0) == 0
  {
  }

  /** The verifier does not look for control or payload bytes left over, but the
      traces tell: an accepted file carries every stream in full exactly when the
      useful bytes add up to the streams. */
  lemma AcceptedInFull(file: Bytes, r: Route, s: Streams, t: Trace)
    requires r.Valid() && |t.control| == |t.payload| == |t.pad| == |r.slots| && Accepts(file, r, s, t)
    ensures Covers(r, s) <==>
              && TotalTo(t.control, |r.slots|) == |s.control|
              && TotalTo(t.payload, |r.slots|) == |s.word0| + |s.word1| + Max(0, |s.payload| - s.prebuffer)
  {
    hide TotalTo, ControlAt, WordAt, PayloadAt, DiskTo, UncutBelow, Traced;
    UsefulTotals(r, s, t, |r.slots|);
  }
}
