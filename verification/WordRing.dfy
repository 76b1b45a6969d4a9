/**
  Splitting WordBuf runs at the physical ring end
  (tools/pattern_supply.py, split_word_ring_runs), and why the split addresses
  read exactly what a queue would hand out.
*/
module WordRing {
  import opened Arith
  import opened PatternRuns

  // The split

  /** The records of one WordBuf run of n patterns starting at a ring cursor. */
  function SplitOne(slot: int, n: nat, capacity: nat, cursor: nat): (rs: seq<Run>)
    requires cursor < capacity
    decreases n
  {
    if n == 0 then []
    else
      var k := Min(n, capacity - cursor);
      [Run(slot, k, WR, 0)] + SplitOne(slot + k, n - k, capacity, Wrap(cursor + k, capacity))
  }

  function Wrap(at: nat, capacity: nat): (r: nat)
    requires at <= capacity && capacity > 0
    ensures r < capacity
  {
    if at == capacity then 0 else at
  }

  /** The ring cursor n patterns further on. */
  function Advance(cursor: nat, n: nat, capacity: nat): (r: nat)
    requires capacity > 0
    ensures r < capacity
  {
    (cursor + n) % capacity
  }

  function WordCount(r: Run): nat { if r.source == WR then Max(0, r.count) else 0 }

  function WordTotal(runs: seq<Run>): nat {
    if runs == [] then 0 else WordTotal(runs[..|runs| - 1]) + WordCount(runs[|runs| - 1])
  }

  function Split(runs: seq<Run>, capacity: nat, cursor: nat): seq<Run>
    requires cursor < capacity
  {
    if runs == [] then []
    else
      var init, r := runs[..|runs| - 1], runs[|runs| - 1];
      Split(init, capacity, cursor)
      + if r.source == WR then SplitOne(r.slot, WordCount(r), capacity, Advance(cursor, WordTotal(init), capacity))
        else [r]
  }

  predicate Positive(runs: seq<Run>) {
    forall i :: 0 <= i < |runs| ==> runs[i].count > 0
  }

  lemma WrapIsAdvance(cursor: nat, k: nat, n: nat, capacity: nat)
    requires cursor < capacity && k <= n && cursor + k <= capacity
    ensures Advance(Wrap(cursor + k, capacity), n - k, capacity) == Advance(cursor, n, capacity)
  {
    if cursor + k == capacity {
      AddWhole(n - k, capacity);
    }
  }

  lemma AddWhole(x: nat, m: nat)
    requires m > 0
    ensures (x + m) % m == x % m
  {
    var q, r := x / m, x % m;
    assert x + m == m * (q + 1) + r;
    DivisionUnique(x + m, m, q + 1, r);
  }

  lemma AdvanceTwice(cursor: nat, a: nat, b: nat, capacity: nat)
    requires capacity > 0
    ensures Advance(Advance(cursor, a, capacity), b, capacity) == Advance(cursor, a + b, capacity)
  {
    var x := cursor + a;
    var q, r := x / capacity, x % capacity;
    assert x == capacity * q + r;
    var s, t := (r + b) / capacity, (r + b) % capacity;
    assert r + b == capacity * s + t;
    assert capacity * (q + s) == capacity * q + capacity * s;
    DivisionUnique(x + b, capacity, q + s, t);
  }

  lemma AdvanceNone(cursor: nat, capacity: nat)
    requires cursor < capacity
    ensures Advance(cursor, 0, capacity) == cursor
  {
    DivisionUnique(cursor, capacity, 0, cursor);
  }

  /** split_word_ring_runs, as the source's nested loops. */
  method SplitWordRingRuns(runs: seq<Run>, capacity: int, cursor: int) returns (r: Result<(seq<Run>, nat)>)
    ensures r.Ok? <==> capacity > 0 && 0 <= cursor < capacity && Positive(runs)
    ensures r.Ok? ==> r.value.0 == Split(runs, capacity, cursor)
    ensures r.Ok? ==> r.value.1 == Advance(cursor, WordTotal(runs), capacity)
  {
    if capacity <= 0 { return Err("ring capacity must be positive"); }
    if !(0 <= cursor < capacity) { return Err("ring cursor is outside capacity"); }
    hide Advance, Split, SplitOne, WordTotal, Splitting;
    var size: nat, at: nat, split: seq<Run> := capacity, cursor, [];
    NothingSplit(size, at);
    for i := 0 to |runs|
      invariant at < size && at == Advance(cursor, WordTotal(runs[..i]), size)
      invariant forall k :: 0 <= k < i ==> runs[k].count > 0
      invariant split == Split(runs[..i], size, cursor)
    {
      var slot, remaining, source, dic := runs[i].slot, runs[i].count, runs[i].source, runs[i].dic;
      if remaining <= 0 { return Err("invalid source run count"); }
      SplitNext(runs, i, size, cursor);
      if source != WR {
        split := split + [Run(slot, remaining, source, dic)];
      } else {
        AdvanceTwice(cursor, WordTotal(runs[..i]), remaining, size);
        ghost var target := Split(runs[..i + 1], size, cursor);
        ghost var final := Advance(cursor, WordTotal(runs[..i + 1]), size);
        SplittingStarts(split, slot, remaining, size, at, target, final);
        while remaining > 0
          invariant remaining >= 0 && at < size
          invariant Splitting(split, slot, remaining, size, at, target, final)
          decreases remaining
        {
          var count := Min(remaining, size - at);
          SplittingOn(split, slot, remaining, size, at, target, final);
          split := split + [Run(slot, count, source, 0)];
          slot := slot + count;
          remaining := remaining - count;
          at := at + count;
          if at == size { at := 0; }
        }
        SplittingEnds(split, slot, size, at, target, final);
      }
    }
    assert runs[..|runs|] == runs;
    r := Ok((split, at));
  }

  /** The rest of a run still has to be split, from the current cursor. */
  ghost predicate Splitting(split: seq<Run>, slot: int, n: nat, capacity: nat, cursor: nat, target: seq<Run>,
                            final: nat)
    requires cursor < capacity
  {
    split + SplitOne(slot, n, capacity, cursor) == target && Advance(cursor, n, capacity) == final
  }

  lemma SplittingStarts(split: seq<Run>, slot: int, n: nat, capacity: nat, cursor: nat, target: seq<Run>, final: nat)
    requires cursor < capacity && split + SplitOne(slot, n, capacity, cursor) == target
    requires Advance(cursor, n, capacity) == final
    ensures Splitting(split, slot, n, capacity, cursor, target, final)
  {
  }

  lemma SplittingOn(split: seq<Run>, slot: int, n: nat, capacity: nat, cursor: nat, target: seq<Run>, final: nat)
    requires cursor < capacity && n > 0 && Splitting(split, slot, n, capacity, cursor, target, final)
    ensures var k := Min(n, capacity - cursor);
            Splitting(split + [Run(slot, k, WR, 0)], slot + k, n - k, capacity, Wrap(cursor + k, capacity), target,
                      final)
  {
    hide Advance, SplitOne;
    WordStep(split, slot, n, capacity, cursor);
  }

  lemma SplittingEnds(split: seq<Run>, slot: int, capacity: nat, cursor: nat, target: seq<Run>, final: nat)
    requires cursor < capacity && Splitting(split, slot, 0, capacity, cursor, target, final)
    ensures split == target && cursor == final
  {
    hide Advance;
    AdvanceNone(cursor, capacity);
  }

  lemma WordStep(split: seq<Run>, slot: int, n: nat, capacity: nat, cursor: nat)
    requires cursor < capacity && n > 0
    ensures var k := Min(n, capacity - cursor);
            && (split + [Run(slot, k, WR, 0)]) + SplitOne(slot + k, n - k, capacity, Wrap(cursor + k, capacity))
               == split + SplitOne(slot, n, capacity, cursor)
            && Advance(Wrap(cursor + k, capacity), n - k, capacity) == Advance(cursor, n, capacity)
  {
    hide Advance;
    WrapIsAdvance(cursor, Min(n, capacity - cursor), n, capacity);
  }

  lemma NothingSplit(capacity: nat, cursor: nat)
    requires cursor < capacity
    ensures Split([], capacity, cursor) == [] && WordTotal([]) == 0 && Advance(cursor, 0, capacity) == cursor
  {
    AdvanceNone(cursor, capacity);
  }

  lemma SplitNext(runs: seq<Run>, i: nat, capacity: nat, cursor: nat)
    requires i < |runs| && cursor < capacity && runs[i].count > 0
    ensures WordTotal(runs[..i + 1]) == WordTotal(runs[..i]) + if runs[i].source == WR then runs[i].count else 0
    ensures Split(runs[..i + 1], capacity, cursor) == Split(runs[..i], capacity, cursor)
              + if runs[i].source == WR
                then SplitOne(runs[i].slot, runs[i].count, capacity, Advance(cursor, WordTotal(runs[..i]), capacity))
                else [runs[i]]
  {
    hide SplitOne, Advance;
    assert runs[..i + 1][..i] == runs[..i];
  }

  // What the split keeps

  lemma {:induction false} ExpandAllConcat(a: seq<Run>, b: seq<Run>)
    ensures ExpandAll(a + b) == ExpandAll(a) + ExpandAll(b)
  {
    hide Expand, ExpandAll;
    if b == [] {
      assert a + b == a;
      NothingExpands();
    } else {
      var init, last := b[..|b| - 1], b[|b| - 1];
      ExpandAllConcat(a, init);
      assert b == init + [last] && a + b == (a + init) + [last];
      ExpandAllAppend(a + init, last);
      ExpandAllAppend(init, last);
    }
  }

  lemma NothingExpands()
    ensures ExpandAll([]) == []
  {
  }

  lemma ExpandAllOne(r: Run)
    ensures ExpandAll([r]) == Expand(r)
  {
    assert [r][..0] == [];
  }

  lemma {:induction false} SplitOneExpands(slot: int, n: nat, capacity: nat, cursor: nat)
    requires cursor < capacity
    ensures ExpandAll(SplitOne(slot, n, capacity, cursor)) == Expand(Run(slot, n, WR, 0))
    decreases n
  {
    hide Expand, ExpandAll;
    if n == 0 {
      ExpandNothing(slot);
    } else {
      var k := Min(n, capacity - cursor);
      SplitOneExpands(slot + k, n - k, capacity, Wrap(cursor + k, capacity));
      ExpandAllConcat([Run(slot, k, WR, 0)], SplitOne(slot + k, n - k, capacity, Wrap(cursor + k, capacity)));
      ExpandAllOne(Run(slot, k, WR, 0));
      ExpandJoin(slot, k, n);
    }
  }

  lemma ExpandNothing(slot: int)
    ensures ExpandAll([]) == Expand(Run(slot, 0, WR, 0)) == []
  {
  }

  lemma ExpandJoin(slot: int, k: nat, n: nat)
    requires k <= n
    ensures Expand(Run(slot, k, WR, 0)) + Expand(Run(slot + k, n - k, WR, 0)) == Expand(Run(slot, n, WR, 0))
  {
  }

  /** Splitting changes no destination, source or order: both lists expand to the
      same items. */
  lemma {:induction false} SplitExpands(runs: seq<Run>, capacity: nat, cursor: nat)
    requires cursor < capacity
    ensures ExpandAll(Split(runs, capacity, cursor)) == ExpandAll(runs)
  {
    if runs != [] {
      hide SplitOne, Advance, Expand;
      var init, r := runs[..|runs| - 1], runs[|runs| - 1];
      SplitExpands(init, capacity, cursor);
      var at := Advance(cursor, WordTotal(init), capacity);
      var tail := if r.source == WR then SplitOne(r.slot, WordCount(r), capacity, at) else [r];
      ExpandAllConcat(Split(init, capacity, cursor), tail);
      if r.source == WR {
        SplitOneExpands(r.slot, WordCount(r), capacity, at);
        SameExpand(r);
      } else {
        ExpandAllOne(r);
      }
    }
  }

  lemma SameExpand(r: Run)
    requires r.source == WR
    ensures Expand(Run(r.slot, WordCount(r), WR, 0)) == Expand(r)
  {
  }

  // Records and ring addresses

  /** Every WordBuf record lies inside the ring, starting where its predecessor ended. */
  ghost predicate Inside(records: seq<Run>, capacity: nat, cursor: nat)
    requires cursor < capacity
  {
    if records == [] then true
    else
      var r := records[0];
      if r.source != WR then Inside(records[1..], capacity, cursor)
      else r.count > 0 && cursor + r.count <= capacity
           && Inside(records[1..], capacity, Wrap(cursor + r.count, capacity))
  }

  lemma {:induction false} InsideConcat(a: seq<Run>, b: seq<Run>, capacity: nat, cursor: nat)
    requires cursor < capacity && Inside(a, capacity, cursor)
    requires Inside(b, capacity, Advance(cursor, WordTotal(a), capacity))
    ensures Inside(a + b, capacity, cursor)
    decreases |a|
  {
    hide Advance, Wrap;
    if a == [] {
      assert a + b == b;
      AdvanceNone(cursor, capacity);
    } else {
      assert (a + b)[1..] == a[1..] + b;
      WordTotalFront(a);
      if a[0].source == WR {
        WrapIsAdvance(cursor, a[0].count, WordTotal(a), capacity);
        InsideConcat(a[1..], b, capacity, Wrap(cursor + a[0].count, capacity));
      } else {
        InsideConcat(a[1..], b, capacity, cursor);
      }
    }
  }

  lemma {:induction false} WordTotalFront(a: seq<Run>)
    requires a != []
    ensures WordTotal(a) == WordCount(a[0]) + WordTotal(a[1..])
  {
    if |a| > 1 {
      var init := a[..|a| - 1];
      WordTotalFront(init);
      assert init[1..] == a[1..][..|a| - 2];
    } else {
      assert a[1..] == [] && a[..0] == [];
    }
  }

  lemma {:induction false} WordTotalConcat(a: seq<Run>, b: seq<Run>)
    ensures WordTotal(a + b) == WordTotal(a) + WordTotal(b)
  {
    if b == [] {
      assert a + b == a;
    } else {
      var init := b[..|b| - 1];
      WordTotalConcat(a, init);
      assert (a + b)[..|a + b| - 1] == a + init;
    }
  }

  lemma {:induction false} SplitOneInside(slot: int, n: nat, capacity: nat, cursor: nat)
    requires cursor < capacity
    ensures Inside(SplitOne(slot, n, capacity, cursor), capacity, cursor)
    ensures WordTotal(SplitOne(slot, n, capacity, cursor)) == n
    decreases n
  {
    if n > 0 {
      hide WordTotal, Inside, SplitOne;
      SplitOneStep(slot, n, capacity, cursor);
      var k := Min(n, capacity - cursor);
      var rest := SplitOne(slot + k, n - k, capacity, Wrap(cursor + k, capacity));
      SplitOneInside(slot + k, n - k, capacity, Wrap(cursor + k, capacity));
      InsideFirst(Run(slot, k, WR, 0), rest, capacity, cursor);
    }
  }

  lemma SplitOneStep(slot: int, n: nat, capacity: nat, cursor: nat)
    requires cursor < capacity && n > 0
    ensures var k := Min(n, capacity - cursor);
            SplitOne(slot, n, capacity, cursor)
              == [Run(slot, k, WR, 0)] + SplitOne(slot + k, n - k, capacity, Wrap(cursor + k, capacity))
  {
  }

  lemma InsideFirst(r: Run, rest: seq<Run>, capacity: nat, cursor: nat)
    requires r.source == WR && r.count > 0 && cursor + r.count <= capacity
    requires Inside(rest, capacity, Wrap(cursor + r.count, capacity))
    ensures Inside([r] + rest, capacity, cursor) && WordTotal([r] + rest) == r.count + WordTotal(rest)
  {
    hide WordTotal;
    assert ([r] + rest)[1..] == rest;
    WordTotalFront([r] + rest);
  }

  /** No record crosses the ring end, and the records take exactly the total. */
  lemma {:induction false} SplitInside(runs: seq<Run>, capacity: nat, cursor: nat)
    requires cursor < capacity
    ensures Inside(Split(runs, capacity, cursor), capacity, cursor)
    ensures WordTotal(Split(runs, capacity, cursor)) == WordTotal(runs)
  {
    if runs != [] {
      hide SplitOne, Advance, Inside;
      var init, r := runs[..|runs| - 1], runs[|runs| - 1];
      SplitInside(init, capacity, cursor);
      var at := Advance(cursor, WordTotal(init), capacity);
      if r.source == WR {
        SplitOneInside(r.slot, WordCount(r), capacity, at);
        InsideConcat(Split(init, capacity, cursor), SplitOne(r.slot, WordCount(r), capacity, at), capacity, cursor);
        WordTotalConcat(Split(init, capacity, cursor), SplitOne(r.slot, WordCount(r), capacity, at));
      } else {
        OtherInside(r, capacity, at);
        InsideConcat(Split(init, capacity, cursor), [r], capacity, cursor);
        WordTotalConcat(Split(init, capacity, cursor), [r]);
      }
    } else {
      assert Split(runs, capacity, cursor) == [];
    }
  }

  lemma OtherInside(r: Run, capacity: nat, cursor: nat)
    requires cursor < capacity && r.source != WR
    ensures Inside([r], capacity, cursor) && WordTotal([r]) == 0
  {
    assert [r][1..] == [] && [r][..0] == [];
  }

  // A circular store read at those addresses is a queue

  /** The store holds the queue from the cursor on, wrapping at its end. */
  ghost predicate Holds<P>(store: seq<P>, queue: seq<P>, cursor: nat) {
    && cursor < |store| && |queue| <= |store|
    && forall k :: 0 <= k < |queue| ==> store[Slot(cursor, k, |store|)] == queue[k]
  }

  function Slot(cursor: nat, k: nat, capacity: nat): (at: nat)
    requires cursor < capacity && k < capacity
    ensures at < capacity
  {
    if cursor + k < capacity then cursor + k else cursor + k - capacity
  }

  /** Linear reads of the WordBuf records, one after the other. */
  function ReadRecords<P>(store: seq<P>, records: seq<Run>, cursor: nat): seq<P>
    requires cursor < |store| && Inside(records, |store|, cursor)
  {
    if records == [] then []
    else if records[0].source != WR then ReadRecords(store, records[1..], cursor)
    else store[cursor..cursor + records[0].count]
         + ReadRecords(store, records[1..], Wrap(cursor + records[0].count, |store|))
  }

  lemma LinearRead<P>(store: seq<P>, queue: seq<P>, cursor: nat, n: nat)
    requires Holds(store, queue, cursor) && n <= |queue| && cursor + n <= |store|
    ensures store[cursor..cursor + n] == queue[..n]
    ensures Holds(store, queue[n..], Wrap(cursor + n, |store|))
  {
    forall k | 0 <= k < n ensures store[cursor + k] == queue[k] {
      assert store[Slot(cursor, k, |store|)] == queue[k];
    }
    forall k | 0 <= k < |queue| - n
      ensures store[Slot(Wrap(cursor + n, |store|), k, |store|)] == queue[n..][k]
    {
      assert store[Slot(cursor, n + k, |store|)] == queue[n + k];
    }
  }

  lemma {:induction false} RecordsReadQueue<P>(store: seq<P>, queue: seq<P>, records: seq<Run>, cursor: nat)
    requires Holds(store, queue, cursor) && Inside(records, |store|, cursor) && WordTotal(records) <= |queue|
    ensures ReadRecords(store, records, cursor) == queue[..WordTotal(records)]
    ensures Holds(store, queue[WordTotal(records)..], Advance(cursor, WordTotal(records), |store|))
    decreases |records|
  {
    assert cursor < |store|;
    hide Holds, Advance, WordTotal;
    if records == [] {
      NoWords();
      AdvanceNone(cursor, |store|);
      assert queue[0..] == queue;
    } else {
      WordTotalFront(records);
      var rest := records[1..];
      if records[0].source != WR {
        RecordsReadQueue(store, queue, rest, cursor);
      } else {
        var n := records[0].count;
        LinearRead(store, queue, cursor, n);
        RecordsReadQueue(store, queue[n..], rest, Wrap(cursor + n, |store|));
        WrapIsAdvance(cursor, n, WordTotal(records), |store|);
        assert queue[n..][WordTotal(rest)..] == queue[WordTotal(records)..];
        assert queue[..n] + queue[n..][..WordTotal(rest)] == queue[..WordTotal(records)];
      }
    }
  }

  lemma NoWords()
    ensures WordTotal([]) == 0
  {
  }

  /** One frame: reading the split records of a frame's runs at the carried cursor
      hands out the front of the queue. */
  lemma FrameReadsQueue<P>(store: seq<P>, queue: seq<P>, runs: seq<Run>, cursor: nat)
    requires Holds(store, queue, cursor) && WordTotal(runs) <= |queue|
    ensures Inside(Split(runs, |store|, cursor), |store|, cursor)
    ensures ReadRecords(store, Split(runs, |store|, cursor), cursor) == queue[..WordTotal(runs)]
    ensures Holds(store, queue[WordTotal(runs)..], Advance(cursor, WordTotal(runs), |store|))
  {
    SplitInside(runs, |store|, cursor);
    RecordsReadQueue(store, queue, Split(runs, |store|, cursor), cursor);
  }

  /** Writing patterns into the free part of the ring, behind the queue. */
  function Refill<P>(store: seq<P>, cursor: nat, used: nat, ps: seq<P>): (r: seq<P>)
    requires cursor < |store| && used + |ps| <= |store|
    ensures |r| == |store|
    decreases |ps|
  {
    if ps == [] then store
    else Refill(store[Slot(cursor, used, |store|) := ps[0]], cursor, used + 1, ps[1..])
  }

  lemma {:induction false} RefillAppends<P>(store: seq<P>, queue: seq<P>, cursor: nat, ps: seq<P>)
    requires Holds(store, queue, cursor) && |queue| + |ps| <= |store|
    ensures Holds(Refill(store, cursor, |queue|, ps), queue + ps, cursor)
    decreases |ps|
  {
    if ps == [] {
      assert queue + ps == queue;
    } else {
      var next := store[Slot(cursor, |queue|, |store|) := ps[0]];
      OneMore(store, queue, cursor, ps[0]);
      RefillAppends(next, queue + [ps[0]], cursor, ps[1..]);
      assert queue + [ps[0]] + ps[1..] == queue + ps;
    }
  }

  lemma OneMore<P>(store: seq<P>, queue: seq<P>, cursor: nat, p: P)
    requires Holds(store, queue, cursor) && |queue| < |store|
    ensures Holds(store[Slot(cursor, |queue|, |store|) := p], queue + [p], cursor)
  {
    forall k | 0 <= k < |queue| ensures Slot(cursor, k, |store|) != Slot(cursor, |queue|, |store|) {}
  }

  // Any interleaving

  datatype Event<P> = Staged(patterns: seq<P>) | Frame(runs: seq<Run>)

  /** What a queue hands out over a sequence of events. */
  function QueueRun<P>(queue: seq<P>, events: seq<Event<P>>): seq<seq<P>>
    requires QueueSteps(queue, events)
    decreases |events|
  {
    if events == [] then []
    else match events[0]
      case Staged(ps) => QueueRun(queue + ps, events[1..])
      case Frame(runs) => [queue[..WordTotal(runs)]] + QueueRun(queue[WordTotal(runs)..], events[1..])
  }

  /** No frame takes more than the queue holds. */
  predicate QueueSteps<P>(queue: seq<P>, events: seq<Event<P>>)
    decreases |events|
  {
    if events == [] then true
    else match events[0]
      case Staged(ps) => QueueSteps(queue + ps, events[1..])
      case Frame(runs) => WordTotal(runs) <= |queue| && QueueSteps(queue[WordTotal(runs)..], events[1..])
  }

  /** Occupancy stays within the ring. */
  predicate Fits<P>(used: int, events: seq<Event<P>>, capacity: nat)
    decreases |events|
  {
    if events == [] then true
    else match events[0]
      case Staged(ps) => used + |ps| <= capacity && Fits(used + |ps|, events[1..], capacity)
      case Frame(runs) => Fits(used - WordTotal(runs), events[1..], capacity)
  }

  /** What the circular store hands out, with a carried cursor. */
  ghost function RingRun<P>(store: seq<P>, cursor: nat, used: int, events: seq<Event<P>>): seq<seq<P>>
    requires cursor < |store| && Fits(used, events, |store|) && 0 <= used
    decreases |events|
  {
    if events == [] then []
    else match events[0]
      case Staged(ps) => RingRun(Refill(store, cursor, used, ps), cursor, used + |ps|, events[1..])
      case Frame(runs) =>
        var records := Split(runs, |store|, cursor);
        SplitInside(runs, |store|, cursor);
        [ReadRecords(store, records, cursor)]
        + if used < WordTotal(runs) then []
          else RingRun(store, Advance(cursor, WordTotal(runs), |store|), used - WordTotal(runs), events[1..])
  }

  /** Ring refines FIFO: whatever the interleaving of refills and frames, as long
      as occupancy stays within capacity, the ring hands out what a queue would. */
  lemma {:induction false} RingRefinesQueue<P>(store: seq<P>, queue: seq<P>, cursor: nat, events: seq<Event<P>>)
    requires Holds(store, queue, cursor) && QueueSteps(queue, events) && Fits(|queue|, events, |store|)
    ensures RingRun(store, cursor, |queue|, events) == QueueRun(queue, events)
    decreases |events|
  {
    hide Holds, Split, ReadRecords, Refill, WordTotal, Advance;
    if events != [] {
      match events[0]
      case Staged(ps) =>
        RefillAppends(store, queue, cursor, ps);
        RingRefinesQueue(Refill(store, cursor, |queue|, ps), queue + ps, cursor, events[1..]);
      case Frame(runs) =>
        FrameReadsQueue(store, queue, runs, cursor);
        RingRefinesQueue(store, queue[WordTotal(runs)..], Advance(cursor, WordTotal(runs), |store|), events[1..]);
    }
  }
}
