/**
  Grouping cold patterns into transfer runs and packing them as two-word
  descriptors (tools/pattern_supply.py, source_runs and the run codec;
  tools/pack_stream.py, sourced_cold_runs).
*/
module PatternRuns {
  import opened Arith

  const PRG: int := 0
  const WR: int := 1
  const DIC: int := 2
  const DIC_RUN_BLOCK: int := 256
  const DIC_BUF_PATTERNS: int := 512

  /** One cold pattern: destination slot, physical source, dictionary index. */
  datatype Item = Item(slot: int, source: int, dic: int)

  /** `count` consecutive slots from one source, with the first dictionary index. */
  datatype Run = Run(slot: int, count: int, source: int, dic: int)

  predicate KnownSource(source: int) { source == PRG || source == WR || source == DIC }

  /** Whether `next` extends a run that ends in `previous`. */
  predicate Continues(previous: Item, next: Item) {
    && next.slot == previous.slot + 1
    && next.source == previous.source
    && !(next.source == DIC && (next.dic != previous.dic + 1 || next.dic % DIC_RUN_BLOCK == 0))
  }

  function FirstDic(i: Item): int { if i.source == DIC then i.dic else 0 }

  /** The grouping as a function: extend the last run or open a new one. */
  function SourceRuns(items: seq<Item>): (rs: seq<Run>)
    ensures items != [] ==> |rs| > 0
  {
    if items == [] then []
    else
      var init, last := items[..|items| - 1], items[|items| - 1];
      var rs := SourceRuns(init);
      if init != [] && Continues(init[|init| - 1], last)
      then rs[..|rs| - 1] + [rs[|rs| - 1].(count := rs[|rs| - 1].count + 1)]
      else rs + [Run(last.slot, 1, last.source, FirstDic(last))]
  }

  function Items(slots: seq<int>, sources: seq<int>, dics: seq<int>): (r: seq<Item>)
    requires |slots| == |sources| == |dics|
    ensures |r| == |slots|
  {
    seq(|slots|, i requires 0 <= i < |slots| => Item(slots[i], sources[i], dics[i]))
  }

  /** Runs already written, then the open one if any. */
  function WithOpen(runs: seq<Run>, slot: int, count: int, source: int, dic: int): seq<Run> {
    if count > 0 then runs + [Run(slot, count, source, dic)] else runs
  }

  /** One more item, seen from the variables that hold the open run. */
  lemma OpenRun(items: seq<Item>, item: Item, runs: seq<Run>, slot: int, count: int, source: int, dic: int)
    requires count >= 0 && (count > 0 <==> items != [])
    requires WithOpen(runs, slot, count, source, dic) == SourceRuns(items)
    ensures items != [] && Continues(items[|items| - 1], item) ==>
              WithOpen(runs, slot, count + 1, source, dic) == SourceRuns(items + [item])
    ensures items == [] || !Continues(items[|items| - 1], item) ==>
              WithOpen(WithOpen(runs, slot, count, source, dic), item.slot, 1, item.source, FirstDic(item))
              == SourceRuns(items + [item])
  {
    hide Continues, FirstDic;
    assert (items + [item])[..|items|] == items;
    if count > 0 {
      assert (runs + [Run(slot, count, source, dic)])[..|runs|] == runs;
    }
  }

  /** The variables hold the grouping of the items so far. */
  ghost predicate Open(items: seq<Item>, runs: seq<Run>, slot: int, count: int, source: int, dic: int) {
    && count >= 0 && (count > 0 <==> items != [])
    && (items != [] ==> items[|items| - 1].source == source)
    && WithOpen(runs, slot, count, source, dic) == SourceRuns(items)
  }

  lemma OpenNothing()
    ensures Open([], [], 0, 0, 0, 0)
  {
  }

  lemma OpenExtends(items: seq<Item>, item: Item, runs: seq<Run>, slot: int, count: int, source: int, dic: int)
    requires Open(items, runs, slot, count, source, dic) && items != [] && Continues(items[|items| - 1], item)
    ensures count > 0 && Open(items + [item], runs, slot, count + 1, item.source, dic)
  {
    hide SourceRuns, FirstDic;
    OpenRun(items, item, runs, slot, count, source, dic);
  }

  lemma OpenBreaks(items: seq<Item>, item: Item, runs: seq<Run>, slot: int, count: int, source: int, dic: int)
    requires Open(items, runs, slot, count, source, dic) && (items == [] || !Continues(items[|items| - 1], item))
    ensures Open(items + [item], WithOpen(runs, slot, count, source, dic), item.slot, 1, item.source, FirstDic(item))
  {
    hide SourceRuns, FirstDic, Continues;
    OpenRun(items, item, runs, slot, count, source, dic);
  }

  lemma OpenEnds(items: seq<Item>, runs: seq<Run>, slot: int, count: int, source: int, dic: int)
    requires Open(items, runs, slot, count, source, dic)
    ensures WithOpen(runs, slot, count, source, dic) == SourceRuns(items) && (count > 0 <==> items != [])
    ensures items != [] ==> items[|items| - 1].source == source
  {
  }

  /** Dictionary indices left out are -1 for every pattern. */
  function DicsOf(slots: seq<int>, dicIndices: Option<seq<int>>): (d: seq<int>)
    ensures |d| == if dicIndices.Some? then |dicIndices.value| else |slots|
    ensures dicIndices.None? ==> forall i :: 0 <= i < |d| ==> d[i] == -1
  {
    if dicIndices.Some? then dicIndices.value else seq(|slots|, _ => -1)
  }

  /** source_runs: the run in progress is kept in variables and written out when
      an item does not continue it. */
  method GroupRuns(slots: seq<int>, sources: seq<int>, dicIndices: Option<seq<int>>) returns (r: Result<seq<Run>>)
    ensures r.Ok? <==>
              && |slots| == |sources| && (dicIndices.Some? ==> |dicIndices.value| == |slots|)
              && forall i :: 0 <= i < |sources| ==> KnownSource(sources[i])
    ensures r.Ok? ==> r.value == SourceRuns(Items(slots, sources, DicsOf(slots, dicIndices)))
  {
    if |slots| != |sources| { return Err("slot and source counts differ"); }
    var dics := DicsOf(slots, dicIndices);
    if |dics| != |slots| { return Err("slot and DicBuf index counts differ"); }
    hide Open, SourceRuns, FirstDic, Continues, KnownSource, Items, DicsOf;
    ghost var items := Items(slots, sources, dics);
    OpenNothing();
    var runs: seq<Run> := [];
    var previous: Option<Item> := None;
    var startSlot, startDic, count := 0, 0, 0;
    ghost var source := 0;
    for n := 0 to |slots|
      invariant forall i :: 0 <= i < n ==> KnownSource(sources[i])
      invariant previous == if n == 0 then None else Some(items[n - 1])
      invariant Open(items[..n], runs, startSlot, count, source, startDic)
    {
      var item := Item(slots[n], sources[n], dics[n]);
      ItemAt(slots, sources, dics, n);
      if !KnownSource(item.source) { return Err("invalid pattern source"); }
      assert items[..n + 1] == items[..n] + [item];
      OpenEnds(items[..n], runs, startSlot, count, source, startDic);
      if previous.None? || !Continues(previous.value, item) {
        OpenBreaks(items[..n], item, runs, startSlot, count, source, startDic);
        if count > 0 {
          runs := runs + [Run(startSlot, count, previous.value.source, startDic)];
        }
        startSlot, startDic, count := item.slot, FirstDic(item), 0;
      } else {
        OpenExtends(items[..n], item, runs, startSlot, count, source, startDic);
      }
      count := count + 1;
      previous := Some(item);
      source := item.source;
    }
    assert items[..|slots|] == items;
    OpenEnds(items, runs, startSlot, count, source, startDic);
    if count > 0 {
      runs := runs + [Run(startSlot, count, previous.value.source, startDic)];
    }
    r := Ok(runs);
  }

  lemma ItemAt(slots: seq<int>, sources: seq<int>, dics: seq<int>, n: nat)
    requires |slots| == |sources| == |dics| && n < |slots|
    ensures Items(slots, sources, dics)[n] == Item(slots[n], sources[n], dics[n])
  {
  }

  /** The cold updates of a frame, as items.  An entry's low eleven bits are the
      tile index, one above the slot. */
  function ColdItems(entries: seq<int>, colds: seq<bool>, sources: seq<int>, dics: seq<int>): (r: seq<Item>)
    requires |entries| == |colds| == |sources| == |dics|
  {
    if entries == [] then []
    else
      var n := |entries| - 1;
      var rest := ColdItems(entries[..n], colds[..n], sources[..n], dics[..n]);
      if colds[n] then rest + [Item(SlotOf(entries[n]), sources[n], dics[n])] else rest
  }

  const BASE: int := 1

  function SlotOf(entry: int): int { entry % 2048 - BASE }

  /** The items are the cold updates, each once and in order, with the tile that the
      entry's low eleven bits name one above the slot. */
  lemma {:induction false} ColdItemAt(entries: seq<int>, colds: seq<bool>, sources: seq<int>, dics: seq<int>, n: nat)
    requires |entries| == |colds| == |sources| == |dics| && n < |entries| && colds[n]
    ensures var items, k := ColdItems(entries, colds, sources, dics), multiset(colds[..n])[true];
            && |items| == multiset(colds)[true] && k < |items|
            && items[k].slot + 1 == entries[n] % 2048 && items[k].source == sources[n] && items[k].dic == dics[n]
  {
    var last := |entries| - 1;
    ColdItemCount(entries, colds, sources, dics);
    ColdItemCount(entries[..last], colds[..last], sources[..last], dics[..last]);
    if n < last {
      ColdItemAt(entries[..last], colds[..last], sources[..last], dics[..last], n);
      assert colds[..last][..n] == colds[..n];
    }
  }

  lemma {:induction false} ColdItemCount(entries: seq<int>, colds: seq<bool>, sources: seq<int>, dics: seq<int>)
    requires |entries| == |colds| == |sources| == |dics|
    ensures |ColdItems(entries, colds, sources, dics)| == multiset(colds)[true]
  {
    if entries != [] {
      var last := |entries| - 1;
      ColdItemCount(entries[..last], colds[..last], sources[..last], dics[..last]);
      assert colds == colds[..last] + [colds[last]];
    }
  }

  lemma ColdItemsNext(entries: seq<int>, colds: seq<bool>, sources: seq<int>, dics: seq<int>, n: nat)
    requires n < |entries| && n < |colds| && n < |sources| && n < |dics|
    ensures ColdItems(entries[..n + 1], colds[..n + 1], sources[..n + 1], dics[..n + 1])
         == ColdItems(entries[..n], colds[..n], sources[..n], dics[..n])
            + if colds[n] then [Item(SlotOf(entries[n]), sources[n], dics[n])] else []
  {
    assert entries[..n + 1][..n] == entries[..n] && colds[..n + 1][..n] == colds[..n];
    assert sources[..n + 1][..n] == sources[..n] && dics[..n + 1][..n] == dics[..n];
  }

  /** How far zip goes: to the end of the shortest list. */
  function Zipped(entries: seq<int>, colds: seq<bool>, sources: seq<int>, dics: seq<int>): (n: nat)
    ensures n <= |entries| && n <= |colds| && n <= |sources| && n <= |dics|
    ensures n == |entries| || n == |colds| || n == |sources| || n == |dics|
  {
    Min(Min(|entries|, |colds|), Min(|sources|, |dics|))
  }

  /** sourced_cold_runs: the same grouping, computed while skipping the updates
      that are not cold. */
  method SourcedColdRuns(entries: seq<int>, colds: seq<bool>, sources: seq<int>, dicIndices: Option<seq<int>>)
    returns (runs: seq<Run>)
    ensures var dics := DicsOf(entries, dicIndices);
            var n := Zipped(entries, colds, sources, dics);
            runs == SourceRuns(ColdItems(entries[..n], colds[..n], sources[..n], dics[..n]))
  {
    var dics := DicsOf(entries, dicIndices);
    var total := Zipped(entries, colds, sources, dics);
    hide SourceRuns, ColdItems, Zipped, Open;
    OpenNothing();
    NoColdItems();
    runs := [];
    var start, previous, source, startDic, previousDic, count := 0, 0, 0, 0, 0, 0;
    ghost var items: seq<Item> := [];
    for n := 0 to total
      invariant items == ColdItems(entries[..n], colds[..n], sources[..n], dics[..n])
      invariant Open(items, runs, start, count, source, startDic)
      invariant items != [] ==> items[|items| - 1] == Item(previous, source, previousDic)
    {
      ColdItemsNext(entries, colds, sources, dics, n);
      if colds[n] {
        var slot := SlotOf(entries[n]);
        ghost var item := Item(slot, sources[n], dics[n]);
        OpenEnds(items, runs, start, count, source, startDic);
        if items != [] && Continues(items[|items| - 1], item) {
          OpenExtends(items, item, runs, start, count, source, startDic);
        } else {
          OpenBreaks(items, item, runs, start, count, source, startDic);
        }
        var splitDic := count > 0 && sources[n] == DIC
                        && (dics[n] != previousDic + 1 || dics[n] % DIC_RUN_BLOCK == 0);
        if count > 0 && (slot != previous + 1 || sources[n] != source || splitDic) {
          runs := runs + [Run(start, count, source, startDic)];
          count := 0;
        }
        if count == 0 {
          start := slot;
          source := sources[n];
          startDic := if sources[n] == DIC then dics[n] else 0;
        }
        previous := slot;
        previousDic := dics[n];
        count := count + 1;
        items := items + [item];
      }
    }
    OpenEnds(items, runs, start, count, source, startDic);
    if count > 0 {
      runs := runs + [Run(start, count, source, startDic)];
    }
  }

  lemma NoColdItems()
    ensures ColdItems([], [], [], []) == []
  {
  }

  // What a run stands for

  function Expand(r: Run): (items: seq<Item>)
    ensures |items| == if r.count > 0 then r.count else 0
  {
    seq(Max(0, r.count), k requires 0 <= k < Max(0, r.count) =>
      Item(r.slot + k, r.source, if r.source == DIC then r.dic + k else 0))
  }

  function ExpandAll(rs: seq<Run>): seq<Item> {
    if rs == [] then [] else ExpandAll(rs[..|rs| - 1]) + Expand(rs[|rs| - 1])
  }

  /** An item as a run can record it: only Dic items keep their index. */
  function Normal(items: seq<Item>): (r: seq<Item>)
    ensures |r| == |items|
  {
    seq(|items|, i requires 0 <= i < |items| => items[i].(dic := FirstDic(items[i])))
  }

  /** A run the player accepts: not empty, and inside one dictionary block. */
  predicate Legal(r: Run) {
    && r.count > 0
    && (r.source == DIC ==> r.dic % DIC_RUN_BLOCK + r.count <= DIC_RUN_BLOCK)
  }

  lemma ExpandAllAppend(rs: seq<Run>, r: Run)
    ensures ExpandAll(rs + [r]) == ExpandAll(rs) + Expand(r)
  {
    assert (rs + [r])[..|rs|] == rs;
  }

  lemma NormalAppend(items: seq<Item>, i: Item)
    ensures Normal(items + [i]) == Normal(items) + [i.(dic := FirstDic(i))]
  {
  }

  /** The open run ends in the last item seen. */
  ghost predicate EndsIn(r: Run, i: Item) {
    && r.count > 0 && r.slot + r.count - 1 == i.slot && r.source == i.source
    && (i.source == DIC ==> r.dic + r.count - 1 == i.dic)
    && (i.source != DIC ==> r.dic == 0)
  }

  ghost predicate AllLegal(rs: seq<Run>) {
    forall i :: 0 <= i < |rs| ==> Legal(rs[i])
  }

  /** rs groups items: it expands to them, legally, up to the last item. */
  ghost predicate Groups(rs: seq<Run>, items: seq<Item>) {
    && ExpandAll(rs) == Normal(items) && AllLegal(rs)
    && (items != [] ==> rs != [] && EndsIn(rs[|rs| - 1], items[|items| - 1]))
  }

  lemma GroupsOpen(rs: seq<Run>, items: seq<Item>, item: Item)
    requires Groups(rs, items)
    ensures Groups(rs + [Run(item.slot, 1, item.source, FirstDic(item))], items + [item])
  {
    hide Normal, ExpandAll;
    var r := Run(item.slot, 1, item.source, FirstDic(item));
    ExpandAllAppend(rs, r);
    NormalAppend(items, item);
    assert Expand(r) == [item.(dic := FirstDic(item))];
  }

  lemma GroupsGrow(front: seq<Run>, open: Run, items: seq<Item>, item: Item)
    requires items != [] && Groups(front + [open], items) && Continues(items[|items| - 1], item)
    ensures Groups(front + [open.(count := open.count + 1)], items + [item])
  {
    hide Normal, ExpandAll, Continues, Legal, EndsIn, Expand;
    assert (front + [open])[|front|] == open;
    ExpandAllAppend(front, open);
    ExpandAllAppend(front, open.(count := open.count + 1));
    NormalAppend(items, item);
    GrownRun(open, items[|items| - 1], item);
    forall i | 0 <= i < |front| ensures Legal(front[i]) {
      assert (front + [open])[i] == front[i];
    }
  }

  /** Round trip of the grouping: the runs expand to the very items, every run is
      legal, and the last run ends in the last item. */
  lemma {:induction false} RunsExpand(items: seq<Item>)
    ensures Groups(SourceRuns(items), items)
  {
    if items != [] {
      hide Groups, Continues, FirstDic;
      var init, last := items[..|items| - 1], items[|items| - 1];
      assert items == init + [last];
      RunsExpand(init);
      var rs := SourceRuns(init);
      if init != [] && Continues(init[|init| - 1], last) {
        assert rs == rs[..|rs| - 1] + [rs[|rs| - 1]];
        GroupsGrow(rs[..|rs| - 1], rs[|rs| - 1], init, last);
      } else {
        GroupsOpen(rs, init, last);
      }
    }
  }

  lemma GrownRun(r: Run, previous: Item, next: Item)
    requires Legal(r) && EndsIn(r, previous) && Continues(previous, next)
    ensures var g := r.(count := r.count + 1);
            Legal(g) && EndsIn(g, next) && Expand(g) == Expand(r) + [next.(dic := FirstDic(next))]
  {
    if r.source == DIC {
      BlockStep(r.dic, r.count);
    }
  }

  lemma BlockStep(d: int, n: int)
    requires n > 0 && d % DIC_RUN_BLOCK + n <= DIC_RUN_BLOCK && (d + n) % DIC_RUN_BLOCK != 0
    ensures d % DIC_RUN_BLOCK + n + 1 <= DIC_RUN_BLOCK
  {
    assert d + n == d / DIC_RUN_BLOCK * DIC_RUN_BLOCK + (d % DIC_RUN_BLOCK + n);
  }

  // No division into legal runs is shorter

  /** Places where an item does not continue its predecessor. */
  ghost function Breaks(items: seq<Item>): nat {
    if |items| <= 1 then 0
    else Breaks(items[..|items| - 1]) + if Continues(items[|items| - 2], items[|items| - 1]) then 0 else 1
  }

  lemma {:induction false} RunsAreBreaks(items: seq<Item>)
    ensures items != [] ==> |SourceRuns(items)| == Breaks(items) + 1
  {
    if |items| > 1 {
      RunsAreBreaks(items[..|items| - 1]);
    }
  }

  lemma {:induction false} NormalBreaks(items: seq<Item>)
    ensures Breaks(Normal(items)) == Breaks(items)
  {
    if |items| > 1 {
      var init := items[..|items| - 1];
      NormalBreaks(init);
      assert Normal(items)[..|items| - 1] == Normal(init);
    }
  }

  lemma {:induction false} BreaksConcat(a: seq<Item>, b: seq<Item>)
    ensures Breaks(a + b) <= Breaks(a) + Breaks(b) + 1
  {
    hide Breaks, Continues;
    BreaksStep(a + b);
    BreaksStep(b);
    if |b| == 0 {
      assert a + b == a;
    } else {
      var init := b[..|b| - 1];
      BreaksConcat(a, init);
      assert (a + b)[..|a + b| - 1] == a + init;
      if |b| == 1 {
        assert a + init == a;
      } else if a != [] {
        assert (a + b)[|a + b| - 1] == b[|b| - 1] && (a + b)[|a + b| - 2] == b[|b| - 2];
      } else {
        assert a + b == b;
      }
    }
  }

  lemma BreaksStep(items: seq<Item>)
    ensures |items| <= 1 ==> Breaks(items) == 0
    ensures |items| > 1 ==>
      Breaks(items) == Breaks(items[..|items| - 1])
                       + if Continues(items[|items| - 2], items[|items| - 1]) then 0 else 1
  {
    hide Continues;
  }

  lemma {:induction false} RunHasNoBreak(r: Run, n: nat)
    requires Legal(r) && n <= r.count
    ensures Breaks(Expand(r)[..n]) == 0
  {
    if n > 1 {
      RunHasNoBreak(r, n - 1);
      assert Expand(r)[..n][..n - 1] == Expand(r)[..n - 1];
      if r.source == DIC {
        InsideBlock(r.dic, r.count, n - 1);
      }
    }
  }

  lemma InsideBlock(d: int, n: int, k: int)
    requires d % DIC_RUN_BLOCK + n <= DIC_RUN_BLOCK && 0 < k < n
    ensures (d + k) % DIC_RUN_BLOCK != 0
  {
    assert d + k == d / DIC_RUN_BLOCK * DIC_RUN_BLOCK + (d % DIC_RUN_BLOCK + k);
  }

  lemma {:induction false} DivisionBreaks(rs: seq<Run>)
    requires forall i :: 0 <= i < |rs| ==> Legal(rs[i])
    ensures rs != [] ==> Breaks(ExpandAll(rs)) + 1 <= |rs|
  {
    if rs != [] {
      var init, last := rs[..|rs| - 1], rs[|rs| - 1];
      DivisionBreaks(init);
      RunHasNoBreak(last, last.count);
      assert Expand(last)[..last.count] == Expand(last);
      if init == [] {
        assert ExpandAll(rs) == Expand(last);
      } else {
        BreaksConcat(ExpandAll(init), Expand(last));
      }
    }
  }

  /** Minimality: any division of the items into contiguous legal runs has at
      least as many records. */
  lemma {:induction false} RunsAreFewest(items: seq<Item>, rs: seq<Run>)
    requires ExpandAll(rs) == Normal(items) && forall i :: 0 <= i < |rs| ==> Legal(rs[i])
    ensures |SourceRuns(items)| <= |rs|
  {
    if items != [] {
      RunsAreBreaks(items);
      NormalBreaks(items);
      DivisionBreaks(rs);
    }
  }

  // Two-word descriptors

  function EncodeDescriptor(r: Run): Result<(int, int)> {
    if !(0 <= r.slot <= 0x07FF) then Err("invalid run slot")
    else if !(0 < r.count <= 0x07FF) then Err("invalid run count")
    else if !KnownSource(r.source) then Err("invalid pattern source")
    else if r.source == DIC && !(0 <= r.dic < DIC_BUF_PATTERNS) then Err("invalid DicBuf index")
    else if r.source == DIC && r.dic % DIC_RUN_BLOCK + r.count > DIC_RUN_BLOCK then Err("crosses a block")
    else if r.source != DIC && r.dic != 0 then Err("non-Dic run cannot carry a dictionary index")
    else
      var source := if r.source == DIC then DIC + r.dic / DIC_RUN_BLOCK else r.source;
      var dic := if r.source == DIC then r.dic % DIC_RUN_BLOCK else 0;
      Ok((r.slot + dic / 8 * 2048, source * 16384 + dic % 8 * 2048 + r.count))
  }

  function DecodeDescriptor(word0: int, word1: int): Result<Run> {
    var slot, count := word0 % 2048, word1 % 2048;
    var source := word1 / 16384 % 4;
    var dic := word0 / 2048 * 8 + word1 / 2048 % 8;
    if count == 0 then Err("run count is zero")
    else if source >= DIC then
      if dic + count > DIC_RUN_BLOCK then Err("crosses a block")
      else if dic + (source - DIC) * DIC_RUN_BLOCK + count > DIC_BUF_PATTERNS then Err("exceeds dictionary")
      else Ok(Run(slot, count, DIC, dic + (source - DIC) * DIC_RUN_BLOCK))
    else if dic != 0 then Err("non-Dic run carries dictionary index bits")
    else Ok(Run(slot, count, source, dic))
  }

  predicate Words(w: (int, int)) { 0 <= w.0 < 65536 && 0 <= w.1 < 65536 }

  /** Whatever encodes decodes to itself, in two 16-bit words. */
  lemma EncodeDecode(r: Run)
    requires EncodeDescriptor(r).Ok?
    ensures Words(EncodeDescriptor(r).value)
    ensures DecodeDescriptor(EncodeDescriptor(r).value.0, EncodeDescriptor(r).value.1) == Ok(r)
  {
    var source := if r.source == DIC then DIC + r.dic / DIC_RUN_BLOCK else r.source;
    var dic := if r.source == DIC then r.dic % DIC_RUN_BLOCK else 0;
    assert 0 <= dic < 256 && 0 <= source <= 3;
    DecodeFields(r.slot, dic, r.count, source);
  }

  /** What decoding makes of given fields. */
  lemma DecodeFields(slot: int, dic: int, count: int, source: int)
    requires 0 <= slot < 2048 && 0 <= dic < 256 && 0 < count < 2048 && 0 <= source <= 3
    requires if source >= DIC then dic + count <= DIC_RUN_BLOCK else dic == 0
    ensures var w := (slot + dic / 8 * 2048, source * 16384 + dic % 8 * 2048 + count);
            && Words(w)
            && DecodeDescriptor(w.0, w.1) == Ok(if source >= DIC
                                                then Run(slot, count, DIC, dic + (source - DIC) * DIC_RUN_BLOCK)
                                                else Run(slot, count, source, 0))
  {
    FieldsOf(slot, dic / 8, count, dic % 8, source);
  }

  lemma FieldsOf(slot: int, high: int, count: int, low: int, source: int)
    requires 0 <= slot < 2048 && 0 <= high < 32 && 0 <= count < 2048 && 0 <= low < 8 && 0 <= source <= 3
    ensures var w0, w1 := slot + high * 2048, source * 16384 + low * 2048 + count;
            && 0 <= w0 < 65536 && 0 <= w1 < 65536
            && w0 % 2048 == slot && w0 / 2048 == high
            && w1 % 2048 == count && w1 / 2048 % 8 == low && w1 / 16384 % 4 == source
  {
  }

  /** Whatever decodes encodes to the same words: the two forms correspond one to one. */
  lemma DecodeEncode(word0: int, word1: int)
    requires Words((word0, word1)) && DecodeDescriptor(word0, word1).Ok?
    ensures EncodeDescriptor(DecodeDescriptor(word0, word1).value) == Ok((word0, word1))
  {
    WordFields(word0, word1);
    var source, dic := word1 / 16384 % 4, word0 / 2048 * 8 + word1 / 2048 % 8;
    if source >= DIC {
      assert (dic + (source - DIC) * DIC_RUN_BLOCK) / DIC_RUN_BLOCK == source - DIC;
      assert (dic + (source - DIC) * DIC_RUN_BLOCK) % DIC_RUN_BLOCK == dic;
    }
  }

  /** The bit fields of the two words, put together again. */
  lemma WordFields(word0: int, word1: int)
    requires Words((word0, word1))
    ensures var source, low := word1 / 16384 % 4, word1 / 2048 % 8;
            var dic := word0 / 2048 * 8 + low;
            && word1 == source * 16384 + low * 2048 + word1 % 2048 && word0 == word0 / 2048 * 2048 + word0 % 2048
            && dic / 8 == word0 / 2048 && dic % 8 == low && 0 <= source < 4 && 0 <= dic < 256
  {
  }

  /** Items whose slots lie in the player's pool and whose dictionary indices lie
      in the dictionary. */
  ghost predicate InPool(items: seq<Item>, pool: int) {
    forall i :: 0 <= i < |items| ==>
      && 0 <= items[i].slot < pool && KnownSource(items[i].source)
      && (items[i].source == DIC ==> 0 <= items[i].dic < DIC_BUF_PATTERNS)
  }

  lemma {:induction false} ExpandAllAt(rs: seq<Run>, i: nat, k: nat) returns (at: nat)
    requires i < |rs| && k < |Expand(rs[i])|
    ensures at < |ExpandAll(rs)| && ExpandAll(rs)[at] == Expand(rs[i])[k]
  {
    if i == |rs| - 1 {
      at := |ExpandAll(rs[..|rs| - 1])| + k;
    } else {
      at := ExpandAllAt(rs[..|rs| - 1], i, k);
    }
  }

  /** Every run over pool slots has a descriptor, which decodes to the run. */
  lemma PoolRunsEncode(items: seq<Item>, pool: int, i: nat)
    requires InPool(items, pool) && pool <= 2048 - BASE && i < |SourceRuns(items)|
    ensures EncodeDescriptor(SourceRuns(items)[i]).Ok?
    ensures var w := EncodeDescriptor(SourceRuns(items)[i]).value;
            DecodeDescriptor(w.0, w.1) == Ok(SourceRuns(items)[i])
  {
    hide SourceRuns, DecodeDescriptor, ExpandAll, Normal;
    var rs := SourceRuns(items);
    RunsExpand(items);
    var r := rs[i];
    assert Legal(r);
    var a := ExpandAllAt(rs, i, 0);
    var b := ExpandAllAt(rs, i, r.count - 1);
    NormalAt(items, a);
    NormalAt(items, b);
    assert Expand(r)[0].slot == r.slot && Expand(r)[r.count - 1].slot == r.slot + r.count - 1;
    RunsCarryIndex(items, i);
    EncodeDecode(r);
  }

  lemma NormalAt(items: seq<Item>, k: nat)
    requires k < |items|
    ensures Normal(items)[k].slot == items[k].slot && Normal(items)[k].source == items[k].source
    ensures items[k].source == DIC ==> Normal(items)[k].dic == items[k].dic
  {
  }

  lemma {:induction false} RunsCarryIndex(items: seq<Item>, i: nat)
    requires i < |SourceRuns(items)|
    ensures SourceRuns(items)[i].source != DIC ==> SourceRuns(items)[i].dic == 0
  {
    var init := items[..|items| - 1];
    if i < |SourceRuns(init)| {
      RunsCarryIndex(init, i);
    }
  }
}
