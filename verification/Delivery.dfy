/**
  Replaying the packed movie (tools/pack_stream.py, the run replay of
  decode_verify): descriptors are decoded and patterns popped from the Prg and
  WordBuf queues or looked up in the dictionary, one per destination slot.
*/
module Delivery {
  import opened Arith
  import opened PatternRuns
  import opened WordRing

  // One frame

  /** One cold pattern as the resolver assigned it. */
  datatype Take<P> = Take(slot: int, source: int, pattern: P)

  /** What the player holds while it works through one frame's runs; `tile` is
      Video RAM by tile index. */
  datatype Player<P> = Player(prg: seq<P>, word: seq<P>, tile: map<int, P>, bad: nat)

  /** The replay of one destination of a run.  A missing source or a slot outside
      the pool counts as bad; a dictionary slice that is too short is an error. */
  function PlayOne<P>(pl: Player<P>, run: Run, off: nat, dic: seq<P>, pool: int): Result<Player<P>> {
    var slot := run.slot + off;
    if run.source == PRG then
      if pl.prg == [] || slot >= pool then Ok(pl.(bad := pl.bad + 1))
      else Ok(pl.(tile := pl.tile[slot + BASE := pl.prg[0]], prg := pl.prg[1..]))
    else if run.source == WR then
      if pl.word == [] || slot >= pool then Ok(pl.(bad := pl.bad + 1))
      else Ok(pl.(tile := pl.tile[slot + BASE := pl.word[0]], word := pl.word[1..]))
    else
      if run.dic < 0 || run.dic >= |dic| || slot >= pool then Ok(pl.(bad := pl.bad + 1))
      else if run.dic + off >= |dic| then Err("dictionary slice is too short")
      else Ok(pl.(tile := pl.tile[slot + BASE := dic[run.dic + off]]))
  }

  /** Nothing is dropped silently: a destination either takes the next pattern of its
      source, or is counted as bad and changes nothing else; it is bad exactly
      when the source is empty or the tile is past the pool's last. */
  lemma NothingSilent<P(!new)>(pl: Player<P>, run: Run, off: nat, dic: seq<P>, pool: int)
    requires PlayOne(pl, run, off, dic, pool).Ok? && KnownSource(run.source)
    ensures var q, t := PlayOne(pl, run, off, dic, pool).value, run.slot + off + 1;
            var empty := if run.source == PRG then |pl.prg| == 0 else if run.source == WR then |pl.word| == 0
                         else !(0 <= run.dic < |dic|);
            if empty || t > pool then q == pl.(bad := pl.bad + 1)
            else q.bad == pl.bad
                 && exists p :: TakesOne(pl, q, run.source, p) && q.tile == pl.tile[t := p]
                                && (run.source == DIC ==> run.dic + off < |dic| && p == dic[run.dic + off])
  {
    var q, t := PlayOne(pl, run, off, dic, pool).value, run.slot + off + 1;
    if q.bad == pl.bad {
      var p := q.tile[t];
      assert TakesOne(pl, q, run.source, p);
    }
  }

  /** One pattern leaves the queue of its source, and no other. */
  ghost predicate TakesOne<P>(pl: Player<P>, q: Player<P>, source: int, p: P) {
    && pl.prg == (if source == PRG then [p] + q.prg else q.prg)
    && pl.word == (if source == WR then [p] + q.word else q.word)
  }

  function PlayRun<P>(pl: Player<P>, run: Run, n: nat, dic: seq<P>, pool: int): Result<Player<P>> {
    if n == 0 then Ok(pl)
    else
      var before := PlayRun(pl, run, n - 1, dic, pool);
      if before.Err? then before else PlayOne(before.value, run, n - 1, dic, pool)
  }

  /** The replay of a frame's descriptors. */
  function PlayWords<P>(pl: Player<P>, words: seq<(int, int)>, dic: seq<P>, pool: int): Result<Player<P>> {
    if words == [] then Ok(pl)
    else
      var n := |words| - 1;
      var before := PlayWords(pl, words[..n], dic, pool);
      if before.Err? then before
      else
        var run := DecodeDescriptor(words[n].0, words[n].1);
        if run.Err? then Err(run.message)
        else PlayRun(before.value, run.value, Max(0, run.value.count), dic, pool)
  }

  /** The replay loop of one frame. */
  method ReplayRuns<P>(pl: Player<P>, words: seq<(int, int)>, dic: seq<P>, pool: int) returns (r: Result<Player<P>>)
    ensures r == PlayWords(pl, words, dic, pool)
  {
    hide PlayOne, DecodeDescriptor;
    var state := pl;
    for i := 0 to |words|
      invariant PlayWords(pl, words[..i], dic, pool) == Ok(state)
    {
      assert words[..i + 1][..i] == words[..i];
      var run := DecodeDescriptor(words[i].0, words[i].1);
      if run.Err? {
        ErrorStays(pl, words, i + 1, dic, pool);
        assert words[..|words|] == words;
        return Err(run.message);
      }
      ghost var before := state;
      for off := 0 to Max(0, run.value.count)
        invariant PlayRun(before, run.value, off, dic, pool) == Ok(state)
      {
        var next := PlayOne(state, run.value, off, dic, pool);
        if next.Err? {
          RunErrorStays(before, run.value, off + 1, Max(0, run.value.count), dic, pool);
          ErrorStays(pl, words, i + 1, dic, pool);
          return next;
        }
        state := next.value;
      }
    }
    assert words[..|words|] == words;
    r := Ok(state);
  }

  lemma {:induction false} RunErrorStays<P>(pl: Player<P>, run: Run, n: nat, m: nat, dic: seq<P>, pool: int)
    requires n <= m && PlayRun(pl, run, n, dic, pool).Err?
    ensures PlayRun(pl, run, m, dic, pool) == PlayRun(pl, run, n, dic, pool)
  {
    if n < m { RunErrorStays(pl, run, n, m - 1, dic, pool); }
  }

  lemma {:induction false} ErrorStays<P>(pl: Player<P>, words: seq<(int, int)>, n: nat, dic: seq<P>, pool: int)
    requires n <= |words| && PlayWords(pl, words[..n], dic, pool).Err?
    ensures PlayWords(pl, words, dic, pool) == PlayWords(pl, words[..n], dic, pool)
  {
    if n < |words| {
      var init := words[..|words| - 1];
      assert init[..n] == words[..n];
      ErrorStays(pl, init, n, dic, pool);
    } else {
      assert words[..n] == words;
    }
  }

  // What a frame must hand out

  /** The patterns a list of takes draws from one source, in order. */
  function Drawn<P>(takes: seq<Take<P>>, source: int): seq<P> {
    if takes == [] then []
    else
      var n := |takes| - 1;
      Drawn(takes[..n], source) + if takes[n].source == source then [takes[n].pattern] else []
  }

  /** Video RAM after the takes: the tile of each slot holds the pattern assigned last. */
  function Apply<P>(tile: map<int, P>, takes: seq<Take<P>>): map<int, P> {
    if takes == [] then tile
    else Apply(tile, takes[..|takes| - 1])[takes[|takes| - 1].slot + BASE := takes[|takes| - 1].pattern]
  }

  function IndexIn<P(==)>(dic: seq<P>, p: P): (i: int)
    ensures -1 <= i < |dic|
    ensures i >= 0 ==> dic[i] == p
    ensures i < 0 ==> p !in dic
  {
    if dic == [] then -1
    else if dic[|dic| - 1] == p then |dic| - 1
    else IndexIn(dic[..|dic| - 1], p)
  }

  /** The items the packer groups: a Dic take carries its dictionary index. */
  function ItemsOf<P(==)>(takes: seq<Take<P>>, dic: seq<P>): (r: seq<Item>)
    ensures |r| == |takes|
  {
    seq(|takes|, i requires 0 <= i < |takes| =>
      Item(takes[i].slot, takes[i].source, if takes[i].source == DIC then IndexIn(dic, takes[i].pattern) else -1))
  }

  /** Takes the player can serve: known sources, pool slots, and every Dic
      pattern in the dictionary. */
  ghost predicate Servable<P>(takes: seq<Take<P>>, dic: seq<P>, pool: int) {
    forall i :: 0 <= i < |takes| ==>
      && 0 <= takes[i].slot < pool && KnownSource(takes[i].source)
      && (takes[i].source == DIC ==> takes[i].pattern in dic)
  }

  /** The player after the first k takes, if everything goes well. */
  ghost function Served<P>(pl: Player<P>, takes: seq<Take<P>>, k: nat): Player<P>
    requires k <= |takes|
    requires |Drawn(takes[..k], PRG)| <= |pl.prg| && |Drawn(takes[..k], WR)| <= |pl.word|
  {
    Player(pl.prg[|Drawn(takes[..k], PRG)|..], pl.word[|Drawn(takes[..k], WR)|..], Apply(pl.tile, takes[..k]), pl.bad)
  }

  /** Both queues begin with what the takes draw. */
  ghost predicate Supplied<P>(pl: Player<P>, takes: seq<Take<P>>) {
    Drawn(takes, PRG) <= pl.prg && Drawn(takes, WR) <= pl.word
  }

  lemma DrawnNext<P>(takes: seq<Take<P>>, k: nat, source: int)
    requires k < |takes|
    ensures Drawn(takes[..k + 1], source)
         == Drawn(takes[..k], source) + if takes[k].source == source then [takes[k].pattern] else []
  {
    assert takes[..k + 1][..k] == takes[..k];
  }

  lemma {:induction false} DrawnPrefix<P>(takes: seq<Take<P>>, k: nat, source: int)
    requires k <= |takes|
    ensures Drawn(takes[..k], source) <= Drawn(takes, source)
  {
    if k < |takes| {
      var init := takes[..|takes| - 1];
      DrawnPrefix(init, k, source);
      assert init[..k] == takes[..k];
    } else {
      assert takes[..k] == takes;
    }
  }

  lemma ApplyNext<P>(tile: map<int, P>, takes: seq<Take<P>>, k: nat)
    requires k < |takes|
    ensures Apply(tile, takes[..k + 1]) == Apply(tile, takes[..k])[takes[k].slot + BASE := takes[k].pattern]
  {
    assert takes[..k + 1][..k] == takes[..k];
  }

  lemma SuppliedPart<P>(pl: Player<P>, takes: seq<Take<P>>, k: nat)
    requires Supplied(pl, takes) && k <= |takes|
    ensures Drawn(takes[..k], PRG) <= pl.prg && Drawn(takes[..k], WR) <= pl.word
  {
    DrawnPrefix(takes, k, PRG);
    DrawnPrefix(takes, k, WR);
  }

  lemma NextInQueue<P>(queue: seq<P>, drawn: seq<P>, p: P)
    requires drawn + [p] <= queue
    ensures |drawn| < |queue| && queue[|drawn|..] != [] && queue[|drawn|..][0] == p
    ensures queue[|drawn|..][1..] == queue[|drawn| + 1..]
  {
    assert (drawn + [p])[|drawn|] == p;
  }

  /** One destination of a run serves exactly the take it was grouped from. */
  lemma ServeOne<P>(pl: Player<P>, takes: seq<Take<P>>, k: nat, run: Run, off: nat, dic: seq<P>, pool: int)
    requires k < |takes| && Servable(takes, dic, pool) && Supplied(pl, takes)
    requires off < run.count && Normal(ItemsOf(takes, dic))[k] == Expand(run)[off]
    requires run.source == DIC ==> run.dic >= 0
    requires |Drawn(takes[..k], PRG)| <= |pl.prg| && |Drawn(takes[..k], WR)| <= |pl.word|
    requires |Drawn(takes[..k + 1], PRG)| <= |pl.prg| && |Drawn(takes[..k + 1], WR)| <= |pl.word|
    ensures PlayOne(Served(pl, takes, k), run, off, dic, pool) == Ok(Served(pl, takes, k + 1))
  {
    var take := takes[k];
    SuppliedPart(pl, takes, k);
    SuppliedPart(pl, takes, k + 1);
    DrawnNext(takes, k, PRG);
    DrawnNext(takes, k, WR);
    ApplyNext(pl.tile, takes, k);
    hide Drawn, Apply;
    assert run.slot + off == take.slot && run.source == take.source;
    if take.source == PRG {
      NextInQueue(pl.prg, Drawn(takes[..k], PRG), take.pattern);
    } else if take.source == WR {
      NextInQueue(pl.word, Drawn(takes[..k], WR), take.pattern);
    } else {
      assert run.dic + off == IndexIn(dic, take.pattern);
    }
  }

  lemma {:induction false} ServeRun<P>(pl: Player<P>, takes: seq<Take<P>>, k: nat, run: Run, n: nat, dic: seq<P>,
                                       pool: int)
    requires Servable(takes, dic, pool) && Supplied(pl, takes)
    requires n <= run.count && k + n <= |takes| && (run.source == DIC ==> run.dic >= 0)
    requires forall off :: 0 <= off < n ==> Normal(ItemsOf(takes, dic))[k + off] == Expand(run)[off]
    ensures Drawn(takes[..k], PRG) <= pl.prg && Drawn(takes[..k], WR) <= pl.word
    ensures Drawn(takes[..k + n], PRG) <= pl.prg && Drawn(takes[..k + n], WR) <= pl.word
    ensures PlayRun(Served(pl, takes, k), run, n, dic, pool) == Ok(Served(pl, takes, k + n))
  {
    hide PlayOne, Drawn, Apply, Normal, ItemsOf, Expand;
    SuppliedPart(pl, takes, k);
    SuppliedPart(pl, takes, k + n);
    if n > 0 {
      ServeRun(pl, takes, k, run, n - 1, dic, pool);
      ServeOne(pl, takes, k + n - 1, run, n - 1, dic, pool);
    }
  }

  /** The words of a list of runs, all of which have descriptors. */
  ghost predicate Encodes(words: seq<(int, int)>, runs: seq<Run>) {
    |words| == |runs| && forall i :: 0 <= i < |runs| ==> EncodeDescriptor(runs[i]) == Ok(words[i])
  }

  lemma EncodedRun(r: Run, w: (int, int))
    requires EncodeDescriptor(r) == Ok(w)
    ensures DecodeDescriptor(w.0, w.1) == Ok(r) && r.count > 0 && (r.source == DIC ==> r.dic >= 0)
  {
    hide DecodeDescriptor;
    EncodeDecode(r);
  }

  lemma {:induction false} ServeRuns<P>(pl: Player<P>, takes: seq<Take<P>>, runs: seq<Run>, words: seq<(int, int)>,
                                        dic: seq<P>, pool: int)
    requires Servable(takes, dic, pool) && Supplied(pl, takes) && Encodes(words, runs)
    requires ExpandAll(runs) <= Normal(ItemsOf(takes, dic))
    ensures var k := |ExpandAll(runs)|;
            && k <= |takes| && Drawn(takes[..k], PRG) <= pl.prg && Drawn(takes[..k], WR) <= pl.word
            && PlayWords(pl, words, dic, pool) == Ok(Served(pl, takes, k))
  {
    hide Drawn, Apply, Normal, ItemsOf, EncodeDescriptor, DecodeDescriptor, PlayRun, Expand, Servable, Supplied;
    if runs == [] {
      SuppliedPart(pl, takes, 0);
      ServedNone(pl, takes);
    } else {
      var n := |runs| - 1;
      var init, run := runs[..n], runs[n];
      var k := |ExpandAll(init)|;
      EncodedRun(run, words[n]);
      LastExpands(runs, Normal(ItemsOf(takes, dic)));
      ServeRuns(pl, takes, init, words[..n], dic, pool);
      ServeRun(pl, takes, k, run, run.count, dic, pool);
    }
  }

  lemma LastExpands(runs: seq<Run>, items: seq<Item>)
    requires runs != [] && ExpandAll(runs) <= items
    ensures var n := |runs| - 1;
            && ExpandAll(runs[..n]) <= items && |ExpandAll(runs)| == |ExpandAll(runs[..n])| + |Expand(runs[n])|
            && forall off :: 0 <= off < runs[n].count ==> items[|ExpandAll(runs[..n])| + off] == Expand(runs[n])[off]
  {
    hide Expand;
    var n := |runs| - 1;
    assert ExpandAll(runs) == ExpandAll(runs[..n]) + Expand(runs[n]);
    forall off | 0 <= off < runs[n].count
      ensures items[|ExpandAll(runs[..n])| + off] == Expand(runs[n])[off]
    {
      assert ExpandAll(runs)[|ExpandAll(runs[..n])| + off] == Expand(runs[n])[off];
    }
  }

  lemma ServedNone<P>(pl: Player<P>, takes: seq<Take<P>>)
    ensures Drawn(takes[..0], PRG) == [] && Drawn(takes[..0], WR) == [] && Apply(pl.tile, takes[..0]) == pl.tile
    ensures Served(pl, takes, 0) == pl
  {
    assert takes[..0] == [];
  }

  /** The runs the packer writes for a frame: grouped, then split at the ring end. */
  function FrameRuns<P(==)>(takes: seq<Take<P>>, dic: seq<P>, capacity: nat, cursor: nat): seq<Run>
    requires cursor < capacity
  {
    Split(SourceRuns(ItemsOf(takes, dic)), capacity, cursor)
  }

  /** End to end for one frame: replaying the encoded, split, grouped runs gives
      every slot the pattern the resolver assigned, counts nothing bad, and takes
      from each queue exactly the frame's share. */
  lemma FrameDelivers<P>(pl: Player<P>, takes: seq<Take<P>>, words: seq<(int, int)>, dic: seq<P>, pool: int,
                         capacity: nat, cursor: nat)
    requires cursor < capacity && Servable(takes, dic, pool) && Supplied(pl, takes)
    requires Encodes(words, FrameRuns(takes, dic, capacity, cursor))
    ensures PlayWords(pl, words, dic, pool)
         == Ok(Player(pl.prg[|Drawn(takes, PRG)|..], pl.word[|Drawn(takes, WR)|..], Apply(pl.tile, takes), pl.bad))
  {
    hide Drawn, Apply, Normal, ItemsOf, PlayWords, Split, SourceRuns, ExpandAll, Encodes;
    var items := ItemsOf(takes, dic);
    var runs := FrameRuns(takes, dic, capacity, cursor);
    RunsExpand(items);
    SplitExpands(SourceRuns(items), capacity, cursor);
    assert |Normal(items)| == |takes|;
    assert takes[..|takes|] == takes;
    ServeRuns(pl, takes, runs, words, dic, pool);
  }
}
