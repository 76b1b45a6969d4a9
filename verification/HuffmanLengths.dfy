/**
  Code lengths from a priority queue of merged nodes
  (tools/quantize_md_video.py, huffman_code_lengths).

  The queue is kept as a list ordered by (weight, order), which is what popping
  the least entry observes.  The `parents` dictionary is walked upwards for
  every symbol, as the source does; the merge trees exist only in proofs.
*/
module HuffmanLengths {
  import opened Arith
  import opened HuffmanOptimality

  const SYMBOLS: nat := 256

  datatype Node = Symbol(s: nat) | Parent(id: nat)

  datatype Entry<N> = Entry(weight: nat, order: nat, node: N)

  predicate Before<N>(a: Entry<N>, b: Entry<N>) {
    a.weight < b.weight || (a.weight == b.weight && a.order < b.order)
  }

  /** Where an entry goes in the ordered queue. */
  function Place<N>(items: seq<Entry<N>>, e: Entry<N>): (p: nat)
    ensures p <= |items|
  {
    if items == [] || Before(e, items[0]) then 0 else 1 + Place(items[1..], e)
  }

  function Push<N>(items: seq<Entry<N>>, e: Entry<N>): (r: seq<Entry<N>>)
    ensures |r| == |items| + 1
  {
    var p := Place(items, e);
    items[..p] + [e] + items[p..]
  }

  /** Rising by weight and, among equal weights, by order. */
  predicate Ordered<N>(items: seq<Entry<N>>) {
    forall i, j :: 0 <= i < j < |items| ==>
      items[i].weight < items[j].weight || (items[i].weight == items[j].weight && items[i].order < items[j].order)
  }

  // The merge, as a function on trees

  datatype Tree = Leaf(sym: nat) | Fork(id: nat, left: Tree, right: Tree)

  type Forest = seq<Entry<Tree>>

  ghost function Merged(items: Forest, next: nat): Entry<Tree>
    requires |items| >= 2
  {
    Entry(items[0].weight + items[1].weight, next + 1,
          Fork(next, items[0].node, items[1].node))
  }

  /** The tree left when the two least entries are merged until one remains. */
  ghost function Grow(items: Forest, next: nat): Tree
    requires |items| >= 1
    decreases |items|
  {
    if |items| == 1 then items[0].node else Grow(Push(items[2..], Merged(items, next)), next + 2)
  }

  function Used(freq: seq<nat>, n: nat): nat
    requires n <= |freq|
  {
    if n == 0 then 0 else Used(freq, n - 1) + (if freq[n - 1] > 0 then 1 else 0)
  }

  /** The queue after the first n symbols have been entered. */
  ghost function Leaves(freq: seq<nat>, n: nat): (items: Forest)
    requires n <= |freq|
    ensures |items| == Used(freq, n)
  {
    if n == 0 then []
    else if freq[n - 1] > 0 then
      Push(Leaves(freq, n - 1), Entry(freq[n - 1], Used(freq, n - 1), Leaf(n - 1)))
    else Leaves(freq, n - 1)
  }

  ghost function Symbols(t: Tree): multiset<nat> {
    match t
    case Leaf(s) => multiset{s}
    case Fork(_, l, r) => Symbols(l) + Symbols(r)
  }

  ghost function Depth(t: Tree, s: nat): nat
    requires s in Symbols(t)
  {
    match t
    case Leaf(_) => 0
    case Fork(_, l, r) => 1 + if s in Symbols(l) then Depth(l, s) else Depth(r, s)
  }

  ghost function Root(t: Tree): Node {
    match t
    case Leaf(s) => Symbol(s)
    case Fork(id, _, _) => Parent(id)
  }

  ghost function Weight(freq: seq<nat>, t: Tree): nat {
    match t
    case Leaf(s) => if s < |freq| then freq[s] else 0
    case Fork(_, l, r) => Weight(freq, l) + Weight(freq, r)
  }

  /** Total frequency times depth over the leaves of a tree. */
  ghost function PathCost(freq: seq<nat>, t: Tree): nat {
    match t
    case Leaf(_) => 0
    case Fork(_, l, r) => PathCost(freq, l) + PathCost(freq, r) + Weight(freq, t)
  }

  // What the queue says about weights

  ghost function Weights<N>(items: seq<Entry<N>>): (ws: seq<nat>)
    ensures |ws| == |items|
  {
    seq(|items|, i requires 0 <= i < |items| => items[i].weight)
  }

  ghost predicate OrdersBelow<N>(items: seq<Entry<N>>, next: nat) {
    forall i :: 0 <= i < |items| ==> items[i].order < next
  }

  lemma {:induction false} PlaceAmongWeights<N>(items: seq<Entry<N>>, e: Entry<N>)
    requires OrdersBelow(items, e.order)
    ensures Place(items, e) == Position(e.weight, Weights(items))
  {
    if items == [] || Before(e, items[0]) {
    } else {
      assert Weights(items)[1..] == Weights(items[1..]);
      PlaceAmongWeights(items[1..], e);
    }
  }

  lemma PlaceIsPosition<N>(items: seq<Entry<N>>, e: Entry<N>)
    requires OrdersBelow(items, e.order)
    ensures Weights(Push(items, e)) == Insert(e.weight, Weights(items))
  {
    hide Place, Position;
    PlaceAmongWeights(items, e);
  }

  lemma PushBelow<N>(items: seq<Entry<N>>, e: Entry<N>, next: nat)
    requires OrdersBelow(items, next) && e.order < next
    ensures OrdersBelow(Push(items, e), next)
  {
  }

  lemma {:induction false} PushOrdered<N>(items: seq<Entry<N>>, e: Entry<N>)
    requires Ordered(items) && OrdersBelow(items, e.order)
    ensures Ordered(Push(items, e))
  {
    PlaceSplits(items, e);
  }

  lemma {:induction false} PlaceSplits<N>(items: seq<Entry<N>>, e: Entry<N>)
    requires Ordered(items) && OrdersBelow(items, e.order)
    ensures forall i :: 0 <= i < Place(items, e) ==> Before(items[i], e)
    ensures forall i :: Place(items, e) <= i < |items| ==> Before(e, items[i])
  {
    if items == [] || Before(e, items[0]) {
    } else {
      PlaceSplits(items[1..], e);
      forall i | 0 <= i < Place(items, e) ensures Before(items[i], e) {
        if i > 0 { assert items[i] == items[1..][i - 1]; }
      }
      forall i | Place(items, e) <= i < |items| ensures Before(e, items[i]) {
        assert items[i] == items[1..][i - 1];
      }
    }
  }

  // The merged tree pays exactly the sum of the merges

  ghost function ForestCost(freq: seq<nat>, items: Forest): nat {
    if items == [] then 0 else PathCost(freq, items[0].node) + ForestCost(freq, items[1..])
  }

  ghost predicate Weighed(freq: seq<nat>, items: Forest) {
    forall i :: 0 <= i < |items| ==> items[i].weight == Weight(freq, items[i].node)
  }

  lemma {:induction false} ForestCostConcat(freq: seq<nat>, a: Forest, b: Forest)
    ensures ForestCost(freq, a + b) == ForestCost(freq, a) + ForestCost(freq, b)
  {
    if a == [] {
      assert a + b == b;
    } else {
      assert (a + b)[1..] == a[1..] + b;
      ForestCostConcat(freq, a[1..], b);
    }
  }

  lemma ForestCostPush(freq: seq<nat>, items: Forest, e: Entry<Tree>)
    ensures ForestCost(freq, Push(items, e)) == ForestCost(freq, items) + PathCost(freq, e.node)
  {
    var p := Place(items, e);
    ForestCostConcat(freq, items[..p] + [e], items[p..]);
    ForestCostConcat(freq, items[..p], [e]);
    ForestCostConcat(freq, items[..p], items[p..]);
    assert items[..p] + items[p..] == items;
  }

  lemma ForestCostTwo(freq: seq<nat>, items: Forest)
    requires |items| >= 2
    ensures ForestCost(freq, items)
         == PathCost(freq, items[0].node) + PathCost(freq, items[1].node) + ForestCost(freq, items[2..])
  {
    assert items[1..][1..] == items[2..];
    assert ForestCost(freq, items[1..]) == PathCost(freq, items[1].node) + ForestCost(freq, items[2..]);
  }

  lemma MergeStepWeights(items: Forest, next: nat)
    requires |items| >= 2 && OrdersBelow(items, next)
    ensures MergeCost(Weights(items))
         == items[0].weight + items[1].weight + MergeCost(Weights(Push(items[2..], Merged(items, next))))
  {
    hide Place, Position, Push, Insert;
    PlaceIsPosition(items[2..], Merged(items, next));
    assert Weights(items[2..]) == Weights(items)[2..];
  }

  lemma MergeStepForest(freq: seq<nat>, items: Forest, next: nat)
    requires |items| >= 2 && Weighed(freq, items)
    ensures ForestCost(freq, Push(items[2..], Merged(items, next)))
         == ForestCost(freq, items) + items[0].weight + items[1].weight
  {
    ForestCostPush(freq, items[2..], Merged(items, next));
    ForestCostTwo(freq, items);
  }

  lemma MergeStepKeeps(freq: seq<nat>, items: Forest, next: nat)
    requires |items| >= 2 && Weighed(freq, items) && OrdersBelow(items, next)
    ensures var rest := Push(items[2..], Merged(items, next));
            Weighed(freq, rest) && OrdersBelow(rest, next + 2)
  {
  }

  lemma {:induction false} GrowCost(freq: seq<nat>, items: Forest, next: nat)
    requires |items| >= 1 && Weighed(freq, items) && OrdersBelow(items, next)
    ensures PathCost(freq, Grow(items, next)) == ForestCost(freq, items) + MergeCost(Weights(items))
    decreases |items|
  {
    hide PathCost, ForestCost, Weights, MergeCost, Weighed, OrdersBelow, Push, Grow;
    GrowStep(items, next);
    if |items| == 1 {
      OneTreeCost(freq, items);
    } else {
      var rest := Push(items[2..], Merged(items, next));
      MergeStepKeeps(freq, items, next);
      MergeStepForest(freq, items, next);
      MergeStepWeights(items, next);
      GrowCost(freq, rest, next + 2);
    }
  }

  lemma GrowStep(items: Forest, next: nat)
    requires |items| >= 1
    ensures |items| == 1 ==> Grow(items, next) == items[0].node
    ensures |items| > 1 ==> |Push(items[2..], Merged(items, next))| == |items| - 1
                            && Grow(items, next) == Grow(Push(items[2..], Merged(items, next)), next + 2)
  {
  }

  lemma OneTreeCost(freq: seq<nat>, items: Forest)
    requires |items| == 1
    ensures ForestCost(freq, items) == PathCost(freq, items[0].node) && MergeCost(Weights(items)) == 0
  {
    hide PathCost;
    assert items[1..] == [];
  }

  // Symbols: each used symbol sits on exactly one leaf

  ghost function AllSymbols(items: Forest): multiset<nat> {
    if items == [] then multiset{} else Symbols(items[0].node) + AllSymbols(items[1..])
  }

  lemma {:induction false} SymbolsConcat(a: Forest, b: Forest)
    ensures AllSymbols(a + b) == AllSymbols(a) + AllSymbols(b)
  {
    if a == [] {
      assert a + b == b;
    } else {
      assert (a + b)[1..] == a[1..] + b;
      SymbolsConcat(a[1..], b);
    }
  }

  lemma SymbolsPush(items: Forest, e: Entry<Tree>)
    ensures AllSymbols(Push(items, e)) == AllSymbols(items) + Symbols(e.node)
  {
    hide Place, Symbols;
    var a, b := items[..Place(items, e)], items[Place(items, e)..];
    SymbolsConcat(a + [e], b);
    SymbolsConcat(a, [e]);
    SymbolsConcat(a, b);
    assert a + b == items;
    SymbolsOne(e);
    assert AllSymbols(Push(items, e)) == AllSymbols(a) + Symbols(e.node) + AllSymbols(b);
  }

  lemma SymbolsOne(e: Entry<Tree>)
    ensures AllSymbols([e]) == Symbols(e.node)
  {
    assert [e][1..] == [];
  }

  lemma {:induction false} GrowSymbols(items: Forest, next: nat)
    requires |items| >= 1
    ensures Symbols(Grow(items, next)) == AllSymbols(items)
    decreases |items|
  {
    if |items| == 1 {
      assert items[1..] == [];
    } else {
      GrowSymbols(Push(items[2..], Merged(items, next)), next + 2);
      SymbolsPush(items[2..], Merged(items, next));
      assert items[1..][1..] == items[2..];
      assert AllSymbols(items[1..]) == Symbols(items[1].node) + AllSymbols(items[2..]);
    }
  }

  ghost function UsedSymbols(freq: seq<nat>, n: nat): multiset<nat>
    requires n <= |freq|
  {
    if n == 0 then multiset{}
    else UsedSymbols(freq, n - 1) + (if freq[n - 1] > 0 then multiset{n - 1} else multiset{})
  }

  lemma {:induction false} UsedSymbolsOnce(freq: seq<nat>, n: nat, s: nat)
    requires n <= |freq|
    ensures UsedSymbols(freq, n)[s] == if s < n && freq[s] > 0 then 1 else 0
  {
    if n > 0 {
      UsedSymbolsOnce(freq, n - 1, s);
    }
  }

  lemma PushWeighed(freq: seq<nat>, items: Forest, e: Entry<Tree>)
    requires Weighed(freq, items) && e.weight == Weight(freq, e.node)
    ensures Weighed(freq, Push(items, e))
  {
    hide Place, Weight;
  }

  lemma {:induction false} LeavesFacts(freq: seq<nat>, n: nat)
    requires n <= |freq|
    ensures Ordered(Leaves(freq, n)) && OrdersBelow(Leaves(freq, n), Used(freq, n))
    ensures Weighed(freq, Leaves(freq, n)) && ForestCost(freq, Leaves(freq, n)) == 0
    ensures AllSymbols(Leaves(freq, n)) == UsedSymbols(freq, n)
  {
    hide Place, Push;
    if n > 0 {
      LeavesFacts(freq, n - 1);
      if freq[n - 1] > 0 {
        var e := Entry(freq[n - 1], Used(freq, n - 1), Leaf(n - 1));
        PushOrdered(Leaves(freq, n - 1), e);
        PushBelow(Leaves(freq, n - 1), e, Used(freq, n));
        PushWeighed(freq, Leaves(freq, n - 1), e);
        ForestCostPush(freq, Leaves(freq, n - 1), e);
        SymbolsPush(Leaves(freq, n - 1), e);
      }
    }
  }

  // The dictionary of parents, walked upwards

  type Parents = map<Node, Node>

  ghost predicate Linked(parents: Parents, t: Tree) {
    match t
    case Leaf(_) => true
    case Fork(_, l, r) =>
      && Root(l) in parents && parents[Root(l)] == Root(t) && Linked(parents, l)
      && Root(r) in parents && parents[Root(r)] == Root(t) && Linked(parents, r)
  }

  lemma {:induction false} LinkedGrows(small: Parents, large: Parents, t: Tree)
    requires Linked(small, t)
    requires forall k :: k in small ==> k in large && large[k] == small[k]
    ensures Linked(large, t)
  {
    match t
    case Leaf(_) =>
    case Fork(_, l, r) =>
      LinkedGrows(small, large, l);
      LinkedGrows(small, large, r);
  }

  /** `steps` links lead from node to root. */
  ghost predicate Path(parents: Parents, node: Node, root: Node, steps: nat)
    decreases steps
  {
    if steps == 0 then node == root
    else node in parents && Path(parents, parents[node], root, steps - 1)
  }

  lemma {:induction false} PathExtend(parents: Parents, node: Node, root: Node, steps: nat)
    requires Path(parents, node, root, steps) && root in parents
    ensures Path(parents, node, parents[root], steps + 1)
    decreases steps
  {
    if steps > 0 {
      PathExtend(parents, parents[node], root, steps - 1);
    }
  }

  lemma {:induction false} DepthIsPath(parents: Parents, t: Tree, s: nat)
    requires Linked(parents, t) && s in Symbols(t)
    ensures Path(parents, Symbol(s), Root(t), Depth(t, s))
  {
    match t
    case Leaf(_) =>
    case Fork(_, l, r) =>
      var child := if s in Symbols(l) then l else r;
      DepthIsPath(parents, child, s);
      PathExtend(parents, Symbol(s), Root(child), Depth(child, s));
  }

  /** The queue the source holds: nodes in place of trees. */
  ghost function Project(items: Forest): (r: seq<Entry<Node>>)
    ensures |r| == |items|
    ensures forall i :: 0 <= i < |r| ==> r[i] == Entry(items[i].weight, items[i].order, Root(items[i].node))
  {
    seq(|items|, i requires 0 <= i < |items| => Entry(items[i].weight, items[i].order, Root(items[i].node)))
  }

  lemma {:induction false} ProjectPlace(items: Forest, e: Entry<Tree>)
    ensures Place(Project(items), Entry(e.weight, e.order, Root(e.node))) == Place(items, e)
  {
    if items == [] || Before(e, items[0]) {
    } else {
      assert Project(items)[1..] == Project(items[1..]);
      ProjectPlace(items[1..], e);
    }
  }

  lemma ProjectPush(items: Forest, e: Entry<Tree>)
    ensures Project(Push(items, e)) == Push(Project(items), Entry(e.weight, e.order, Root(e.node)))
  {
    ProjectPlace(items, e);
  }

  ghost predicate RootsApart(items: Forest) {
    forall i, j :: 0 <= i < j < |items| ==> Root(items[i].node) != Root(items[j].node)
  }

  /** Roots are fresh: none has a parent yet, and no id reaches `next`. */
  ghost predicate RootsFree(items: Forest, parents: Parents, next: nat) {
    && (forall i :: 0 <= i < |items| ==> Root(items[i].node) !in parents)
    && (forall i :: 0 <= i < |items| ==> Root(items[i].node).Parent? ==> Root(items[i].node).id < next)
    && (forall id: nat :: Parent(id) in parents ==> id < next)
  }

  ghost predicate AllLinked(items: Forest, parents: Parents) {
    forall i :: 0 <= i < |items| ==> Linked(parents, items[i].node)
  }

  lemma {:induction false} LeavesRoots(freq: seq<nat>, n: nat)
    requires n <= |freq|
    ensures forall i :: 0 <= i < Used(freq, n) ==> Leaves(freq, n)[i].node.Leaf? && Leaves(freq, n)[i].node.sym < n
    ensures RootsApart(Leaves(freq, n))
  {
    if n > 0 {
      LeavesRoots(freq, n - 1);
    }
  }

  ghost predicate Growing(items: Forest, parents: Parents, next: nat) {
    RootsApart(items) && RootsFree(items, parents, next) && AllLinked(items, parents)
  }

  function Adopt(parents: Parents, a: Node, b: Node, parent: Node): Parents {
    parents[a := parent][b := parent]
  }

  lemma MergeKeepsLinks(items: Forest, parents: Parents, next: nat)
    requires |items| >= 2 && Growing(items, parents, next)
    ensures AllLinked(Push(items[2..], Merged(items, next)),
                      Adopt(parents, Root(items[0].node), Root(items[1].node), Parent(next)))
  {
    var larger := Adopt(parents, Root(items[0].node), Root(items[1].node), Parent(next));
    forall i | 0 <= i < |items| ensures Linked(larger, items[i].node) {
      LinkedGrows(parents, larger, items[i].node);
    }
    assert Linked(larger, Merged(items, next).node);
    var rest := Push(items[2..], Merged(items, next));
    forall i | 0 <= i < |rest| ensures Linked(larger, rest[i].node) {
      assert rest[i] == Merged(items, next) || rest[i] in items;
    }
  }

  lemma MergeKeepsRoots(items: Forest, parents: Parents, next: nat)
    requires |items| >= 2 && Growing(items, parents, next)
    ensures RootsApart(Push(items[2..], Merged(items, next)))
    ensures RootsFree(Push(items[2..], Merged(items, next)),
                      Adopt(parents, Root(items[0].node), Root(items[1].node), Parent(next)), next + 2)
  {
  }

  // The lengths

  ghost function MergeTree(freq: seq<nat>): Tree
    requires Used(freq, |freq|) >= 1
  {
    Grow(Leaves(freq, |freq|), Used(freq, |freq|))
  }

  lemma MergeTreeSymbols(freq: seq<nat>, s: nat)
    requires Used(freq, |freq|) >= 1
    ensures Symbols(MergeTree(freq))[s] == if s < |freq| && freq[s] > 0 then 1 else 0
  {
    GrowSymbols(Leaves(freq, |freq|), Used(freq, |freq|));
    LeavesFacts(freq, |freq|);
    UsedSymbolsOnce(freq, |freq|, s);
  }

  /** The length of every symbol: its depth in the merge tree, with the two
      degenerate alphabets the source treats on their own. */
  ghost function LengthOf(freq: seq<nat>, s: nat): nat
    requires s < |freq|
  {
    if Used(freq, |freq|) == 0 then (if s == 0 then 1 else 0)
    else if freq[s] == 0 then 0
    else if Used(freq, |freq|) == 1 then 1
    else MergeTreeSymbols(freq, s); Depth(MergeTree(freq), s)
  }

  ghost function Lengths(freq: seq<nat>): (r: seq<nat>)
    ensures |r| == |freq|
  {
    seq(|freq|, s requires 0 <= s < |freq| => LengthOf(freq, s))
  }

  /** A tree is less deep than it has leaves. */
  lemma {:induction false} DepthBelowLeaves(t: Tree, s: nat)
    requires s in Symbols(t)
    ensures Depth(t, s) < |Symbols(t)|
  {
    match t
    case Leaf(_) =>
    case Fork(_, l, r) =>
      LeavesPositive(l);
      LeavesPositive(r);
      if s in Symbols(l) { DepthBelowLeaves(l, s); } else { DepthBelowLeaves(r, s); }
  }

  lemma {:induction false} LeavesPositive(t: Tree)
    ensures |Symbols(t)| > 0
  {
    match t
    case Leaf(_) =>
    case Fork(_, l, _) => LeavesPositive(l);
  }

  lemma {:induction false} UsedSymbolsCount(freq: seq<nat>, n: nat)
    requires n <= |freq|
    ensures |UsedSymbols(freq, n)| <= n
  {
    if n > 0 { UsedSymbolsCount(freq, n - 1); }
  }

  /** So over 256 symbols every length fits the byte it is written to. */
  lemma LengthsFitBytes(freq: seq<nat>, s: nat)
    requires s < |freq| == SYMBOLS
    ensures Lengths(freq)[s] <= 255
  {
    hide Depth, MergeTree, UsedSymbols;
    if Used(freq, |freq|) > 1 && freq[s] > 0 {
      MergeTreeSymbols(freq, s);
      DepthBelowLeaves(MergeTree(freq), s);
      TreeUses(freq);
      UsedSymbolsCount(freq, |freq|);
    }
  }

  lemma TreeUses(freq: seq<nat>)
    requires Used(freq, |freq|) >= 1
    ensures Symbols(MergeTree(freq)) == UsedSymbols(freq, |freq|)
  {
    hide Grow, UsedSymbols, Leaves;
    GrowSymbols(Leaves(freq, |freq|), Used(freq, |freq|));
    LeavesFacts(freq, |freq|);
  }

  method Climb(parents: Parents, start: Node, ghost root: Node, ghost total: nat) returns (depth: nat)
    requires Path(parents, start, root, total) && root !in parents
    ensures depth == total
  {
    var node := start;
    depth := 0;
    ghost var left := total;
    while node in parents
      invariant Path(parents, node, root, left) && depth + left == total
      decreases left
    {
      node := parents[node];
      depth := depth + 1;
      left := left - 1;
    }
  }

  lemma MergeKeepsGrowing(items: Forest, parents: Parents, next: nat)
    requires |items| >= 2 && Growing(items, parents, next)
    ensures Growing(Push(items[2..], Merged(items, next)),
                    Adopt(parents, Root(items[0].node), Root(items[1].node), Parent(next)), next + 2)
  {
    MergeKeepsLinks(items, parents, next);
    MergeKeepsRoots(items, parents, next);
    hide RootsApart, RootsFree, AllLinked, Push, Adopt;
  }

  /** The last tree is the merge tree, and its root has no parent. */
  lemma GrowingEnds(items: Forest, parents: Parents, next: nat)
    requires |items| == 1 && Growing(items, parents, next)
    ensures Linked(parents, Grow(items, next)) && Root(Grow(items, next)) !in parents
  {
    hide Linked;
  }

  lemma LeavesGrow(freq: seq<nat>)
    ensures Growing(Leaves(freq, |freq|), map[], Used(freq, |freq|))
  {
    hide Leaves, Used;
    LeavesRoots(freq, |freq|);
  }

  method MergeQueue(freq: seq<nat>, queue: seq<Entry<Node>>, start: nat) returns (parents: Parents)
    requires Used(freq, |freq|) >= 1
    requires queue == Project(Leaves(freq, |freq|)) && start == Used(freq, |freq|)
    ensures Linked(parents, MergeTree(freq)) && Root(MergeTree(freq)) !in parents
  {
    hide Growing, Linked, Grow, Push, Adopt, Leaves, Used;
    var heap, order := queue, start;
    parents := map[];
    ghost var forest := Leaves(freq, |freq|);
    LeavesGrow(freq);
    while |heap| > 1
      invariant |heap| == |forest| >= 1 && heap == Project(forest)
      invariant Growing(forest, parents, order)
      invariant Grow(forest, order) == MergeTree(freq)
      decreases |heap|
    {
      var a, b := heap[0], heap[1];
      var parent := Parent(order);
      MergeKeepsGrowing(forest, parents, order);
      GrowStep(forest, order);
      ProjectPush(forest[2..], Merged(forest, order));
      assert Project(forest[2..]) == heap[2..];
      parents := Adopt(parents, a.node, b.node, parent);
      heap := Push(heap[2..], Entry(a.weight + b.weight, order + 1, parent));
      forest := Push(forest[2..], Merged(forest, order));
      order := order + 2;
    }
    GrowingEnds(forest, parents, order);
  }

  method CodeLengths(freq: seq<nat>) returns (lengths: seq<nat>)
    requires |freq| == SYMBOLS
    ensures lengths == Lengths(freq)
  {
    var heap: seq<Entry<Node>> := [];
    var order := 0;
    for symbol := 0 to |freq|
      invariant order == Used(freq, symbol) && heap == Project(Leaves(freq, symbol))
    {
      if freq[symbol] > 0 {
        ProjectPush(Leaves(freq, symbol), Entry(freq[symbol], order, Leaf(symbol)));
        heap := Push(heap, Entry(freq[symbol], order, Symbol(symbol)));
        order := order + 1;
      }
    }
    if |heap| == 0 {
      lengths := seq(SYMBOLS, i => if i == 0 then 1 else 0);
      return;
    }
    if |heap| == 1 {
      OnlySymbol(freq, |freq|);
      lengths := seq(SYMBOLS, (i: nat) => if Symbol(i) == heap[0].node then 1 else 0);
      return;
    }
    var parents := MergeQueue(freq, heap, order);
    lengths := [];
    for symbol := 0 to |freq|
      invariant |lengths| == symbol
      invariant forall i :: 0 <= i < symbol ==> lengths[i] == LengthOf(freq, i)
    {
      if freq[symbol] == 0 {
        lengths := lengths + [0];
      } else {
        MergeTreeSymbols(freq, symbol);
        GrowForks(Leaves(freq, |freq|), order);
        DepthIsPath(parents, MergeTree(freq), symbol);
        var depth := Climb(parents, Symbol(symbol), Root(MergeTree(freq)), Depth(MergeTree(freq), symbol));
        lengths := lengths + [if depth > 1 then depth else 1];
      }
    }
  }

  lemma {:induction false} NoSymbols(freq: seq<nat>, n: nat, s: nat)
    requires s < n <= |freq| && freq[s] > 0
    ensures Used(freq, n) >= 1
  {
    if s < n - 1 {
      NoSymbols(freq, n - 1, s);
    }
  }

  lemma {:induction false} OnlySymbol(freq: seq<nat>, n: nat)
    requires n <= |freq| && Used(freq, n) == 1
    ensures Leaves(freq, n)[0].node.Leaf?
    ensures forall s :: 0 <= s < n ==> (freq[s] > 0 <==> Leaves(freq, n)[0].node == Leaf(s))
  {
    if freq[n - 1] > 0 {
      assert Leaves(freq, n - 1) == [];
      forall s | 0 <= s < n - 1 ensures freq[s] == 0 {
        if freq[s] > 0 { NoSymbols(freq, n - 1, s); }
      }
    } else {
      OnlySymbol(freq, n - 1);
      LeavesRoots(freq, n - 1);
    }
  }

  lemma {:induction false} GrowForks(items: Forest, next: nat)
    requires |items| >= 2
    ensures Grow(items, next).Fork?
    decreases |items|
  {
    var rest := Push(items[2..], Merged(items, next));
    assert Grow(items, next) == Grow(rest, next + 2);
    if |items| > 2 {
      GrowForks(rest, next + 2);
    }
  }

  // Totals over the alphabet

  /** Total encoded size in bits of the first n symbols. */
  ghost function TotalBits(freq: seq<nat>, ls: seq<nat>, n: nat): nat
    requires n <= |freq| && |ls| == |freq|
  {
    if n == 0 then 0 else TotalBits(freq, ls, n - 1) + freq[n - 1] * ls[n - 1]
  }

  /** Kraft's sum over the used symbols, scaled by 2^m. */
  ghost function UsedKraft(freq: seq<nat>, ls: seq<nat>, m: nat, n: nat): nat
    requires n <= |freq| && |ls| == |freq| && Bounded(ls, m)
  {
    if n == 0 then 0
    else UsedKraft(freq, ls, m, n - 1) + (if freq[n - 1] > 0 then Pow2(m - ls[n - 1]) else 0)
  }

  /** Lengths that some prefix code could have: at least one bit for each used
      symbol, and Kraft's inequality. */
  ghost predicate Feasible(freq: seq<nat>, ls: seq<nat>, m: nat) {
    && |ls| == |freq| && Bounded(ls, m)
    && (forall s :: 0 <= s < |freq| && freq[s] > 0 ==> ls[s] >= 1)
    && UsedKraft(freq, ls, m, |freq|) <= Pow2(m)
  }

  /** The lengths of the queue's symbols, in queue order. */
  ghost function Aligned(items: Forest, ls: seq<nat>): (r: seq<nat>)
    ensures |r| == |items|
  {
    seq(|items|, i requires 0 <= i < |items| =>
      if items[i].node.Leaf? && items[i].node.sym < |ls| then ls[items[i].node.sym] else 0)
  }

  lemma AlignedPush(items: Forest, e: Entry<Tree>, ls: seq<nat>)
    requires e.node.Leaf? && e.node.sym < |ls| && OrdersBelow(items, e.order)
    ensures Aligned(Push(items, e), ls) == Splice(Aligned(items, ls), Place(items, e), ls[e.node.sym])
    ensures Weights(Push(items, e)) == Splice(Weights(items), Place(items, e), e.weight)
  {
    hide Place, Before;
  }

  lemma AlignedBounded(items: Forest, ls: seq<nat>, m: nat)
    requires Bounded(ls, m)
    ensures Bounded(Aligned(items, ls), m)
  {
  }

  lemma {:induction false} QueueTotals(freq: seq<nat>, ls: seq<nat>, m: nat, n: nat)
    requires n <= |freq| && |ls| == |freq| && Bounded(ls, m)
    ensures Cost(Weights(Leaves(freq, n)), Aligned(Leaves(freq, n), ls)) == TotalBits(freq, ls, n)
    ensures Bounded(Aligned(Leaves(freq, n), ls), m)
    ensures Kraft(Aligned(Leaves(freq, n), ls), m) == UsedKraft(freq, ls, m, n)
  {
    hide Place, Push, Pow2, Splice;
    AlignedBounded(Leaves(freq, n), ls, m);
    if n > 0 {
      QueueTotals(freq, ls, m, n - 1);
      if freq[n - 1] > 0 {
        var items, e := Leaves(freq, n - 1), Entry(freq[n - 1], Used(freq, n - 1), Leaf(n - 1));
        LeavesFacts(freq, n - 1);
        AlignedPush(items, e, ls);
        CostSplice(Weights(items), Aligned(items, ls), Place(items, e), freq[n - 1], ls[n - 1]);
        KraftSplice(Aligned(items, ls), m, Place(items, e), ls[n - 1]);
      }
    }
  }

  /** Sum of g over the leaves of a multiset of symbols. */
  ghost function LeafSum(leaves: multiset<nat>, g: seq<nat>): nat {
    if g == [] then 0 else LeafSum(leaves, g[..|g| - 1]) + leaves[|g| - 1] * g[|g| - 1]
  }

  lemma {:induction false} LeafSumUnion(a: multiset<nat>, b: multiset<nat>, g: seq<nat>)
    ensures LeafSum(a + b, g) == LeafSum(a, g) + LeafSum(b, g)
  {
    if g != [] {
      LeafSumUnion(a, b, g[..|g| - 1]);
      var k := |g| - 1;
      AddTimes(a[k], b[k], g[k]);
    }
  }

  lemma {:induction false} LeafSumOne(s: nat, g: seq<nat>)
    ensures LeafSum(multiset{s}, g) == if s < |g| then g[s] else 0
  {
    if g != [] {
      LeafSumOne(s, g[..|g| - 1]);
    }
  }

  ghost predicate Distinct(t: Tree, n: nat) {
    forall s :: Symbols(t)[s] <= 1 && (s in Symbols(t) ==> s < n)
  }

  /** c hangs right below t. */
  ghost predicate Child(c: Tree, t: Tree, n: nat) {
    && Distinct(c, n)
    && forall s :: s in Symbols(c) ==> s in Symbols(t) && Depth(t, s) == 1 + Depth(c, s)
  }

  lemma Halves(t: Tree, n: nat)
    requires t.Fork? && Distinct(t, n)
    ensures Child(t.left, t, n) && Child(t.right, t, n)
  {
    forall s ensures Symbols(t)[s] == Symbols(t.left)[s] + Symbols(t.right)[s] {}
  }

  /** g[s] is what symbol s pays when the root of t sits at depth k. */
  ghost predicate Pays(freq: seq<nat>, t: Tree, g: seq<nat>, k: nat) {
    && |g| == |freq| && Distinct(t, |g|)
    && forall s :: s in Symbols(t) ==> g[s] == freq[s] * (k + Depth(t, s))
  }

  lemma PaysChild(freq: seq<nat>, c: Tree, t: Tree, g: seq<nat>, k: nat)
    requires Pays(freq, t, g, k) && Child(c, t, |g|)
    ensures Pays(freq, c, g, k + 1)
  {
    hide Depth, Symbols;
    forall s | s in Symbols(c) ensures g[s] == freq[s] * (k + 1 + Depth(c, s)) {
      assert k + Depth(t, s) == k + 1 + Depth(c, s);
    }
  }

  lemma PaysApart(freq: seq<nat>, t: Tree, g: seq<nat>, k: nat)
    requires Pays(freq, t, g, k)
    ensures |g| == |freq| && Distinct(t, |g|)
  {
  }

  lemma LeafPays(freq: seq<nat>, s: nat, g: seq<nat>, k: nat)
    requires Pays(freq, Leaf(s), g, k)
    ensures s < |g| == |freq| && g[s] == freq[s] * k
  {
    assert s in Symbols(Leaf(s));
  }

  lemma {:induction false} PathCostIsSum(freq: seq<nat>, t: Tree, g: seq<nat>, k: nat)
    requires Pays(freq, t, g, k)
    ensures LeafSum(Symbols(t), g) == PathCost(freq, t) + k * Weight(freq, t)
    decreases t
  {
    hide Pays, LeafSum;
    match t
    case Leaf(s) =>
      LeafPays(freq, s, g, k);
      LeafSumOne(s, g);
    case Fork(_, l, r) =>
      PaysApart(freq, t, g, k);
      Halves(t, |g|);
      PaysChild(freq, l, t, g, k);
      PaysChild(freq, r, t, g, k);
      PathCostIsSum(freq, l, g, k + 1);
      PathCostIsSum(freq, r, g, k + 1);
      LeafSumUnion(Symbols(l), Symbols(r), g);
      Spread(k, Weight(freq, l), Weight(freq, r));
  }

  lemma Spread(k: nat, a: nat, b: nat)
    ensures (k + 1) * a + (k + 1) * b == (a + b) + k * (a + b)
  {
  }

  /** g[s] is the share of 2^m that symbol s takes when t sits at depth k. */
  ghost predicate Shares(t: Tree, g: seq<nat>, m: nat, k: nat) {
    forall s :: s in Symbols(t) ==> s < |g| && k + Depth(t, s) <= m && g[s] == Pow2(m - (k + Depth(t, s)))
  }

  lemma SharesChild(c: Tree, t: Tree, g: seq<nat>, m: nat, k: nat)
    requires Shares(t, g, m, k)
    requires forall s :: s in Symbols(c) ==> s in Symbols(t) && Depth(t, s) == 1 + Depth(c, s)
    ensures Shares(c, g, m, k + 1)
  {
    hide Pow2, Depth, Symbols;
    forall s | s in Symbols(c)
      ensures s < |g| && k + 1 + Depth(c, s) <= m && g[s] == Pow2(m - (k + 1 + Depth(c, s)))
    {
      assert k + Depth(t, s) == k + 1 + Depth(c, s);
    }
  }

  lemma SharesHalves(t: Tree, g: seq<nat>, m: nat, k: nat)
    requires t.Fork? && Shares(t, g, m, k) && Distinct(t, |g|)
    ensures Shares(t.left, g, m, k + 1) && Distinct(t.left, |g|)
    ensures Shares(t.right, g, m, k + 1) && Distinct(t.right, |g|)
    ensures LeafSum(Symbols(t), g) == LeafSum(Symbols(t.left), g) + LeafSum(Symbols(t.right), g)
  {
    Halves(t, |g|);
    SharesChild(t.left, t, g, m, k);
    SharesChild(t.right, t, g, m, k);
    LeafSumUnion(Symbols(t.left), Symbols(t.right), g);
  }

  lemma LeafKraft(t: Tree, g: seq<nat>, m: nat, k: nat)
    requires t.Leaf? && Shares(t, g, m, k)
    ensures k <= m && LeafSum(Symbols(t), g) == Pow2(m - k)
  {
    assert t.sym in Symbols(t);
    LeafSumOne(t.sym, g);
  }

  lemma {:induction false} TreeKraft(t: Tree, g: seq<nat>, m: nat, k: nat)
    requires Shares(t, g, m, k) && Distinct(t, |g|)
    ensures k <= m && LeafSum(Symbols(t), g) == Pow2(m - k)
    decreases t
  {
    if t.Leaf? {
      LeafKraft(t, g, m, k);
    } else {
      SharesHalves(t, g, m, k);
      TreeKraft(t.left, g, m, k + 1);
      TreeKraft(t.right, g, m, k + 1);
    }
  }

  lemma {:induction false} SumByMultiplicity(leaves: multiset<nat>, freq: seq<nat>, ls: seq<nat>, g: seq<nat>, n: nat)
    requires |ls| == |freq| == |g| && n <= |g|
    requires forall s :: 0 <= s < |g| ==> leaves[s] * g[s] == freq[s] * ls[s]
    ensures LeafSum(leaves, g[..n]) == TotalBits(freq, ls, n)
  {
    if n > 0 {
      SumByMultiplicity(leaves, freq, ls, g, n - 1);
      assert g[..n][..n - 1] == g[..n - 1];
    }
  }

  lemma {:induction false} KraftByMultiplicity(leaves: multiset<nat>, freq: seq<nat>, ls: seq<nat>, m: nat,
                                               g: seq<nat>, n: nat)
    requires |ls| == |freq| == |g| && n <= |g| && Bounded(ls, m)
    requires forall s :: 0 <= s < |g| ==> leaves[s] * g[s] == if freq[s] > 0 then Pow2(m - ls[s]) else 0
    ensures LeafSum(leaves, g[..n]) == UsedKraft(freq, ls, m, n)
  {
    if n > 0 {
      KraftByMultiplicity(leaves, freq, ls, m, g, n - 1);
      assert g[..n][..n - 1] == g[..n - 1];
    }
  }

  ghost predicate OneLeafEach(freq: seq<nat>, t: Tree) {
    forall s: nat :: Symbols(t)[s] == if s < |freq| && freq[s] > 0 then 1 else 0
  }

  /** ls gives every symbol of t its depth. */
  ghost predicate DepthsOf(freq: seq<nat>, t: Tree, ls: seq<nat>) {
    && |ls| == |freq| && OneLeafEach(freq, t)
    && forall s: nat :: s in Symbols(t) ==> s < |ls| && ls[s] == Depth(t, s)
  }

  ghost function CostVector(freq: seq<nat>, ls: seq<nat>): (g: seq<nat>)
    requires |ls| == |freq|
    ensures |g| == |freq| && g[..|freq|] == g
    ensures forall s :: 0 <= s < |g| ==> g[s] == freq[s] * ls[s]
  {
    seq(|freq|, s requires 0 <= s < |freq| => freq[s] * ls[s])
  }

  ghost function ShareVector(ls: seq<nat>, m: nat): (g: seq<nat>)
    requires Bounded(ls, m)
    ensures |g| == |ls| && g[..|ls|] == g
    ensures forall s :: 0 <= s < |g| ==> g[s] == Pow2(m - ls[s])
  {
    seq(|ls|, s requires 0 <= s < |ls| => Pow2(m - ls[s]))
  }

  lemma DepthsPay(freq: seq<nat>, t: Tree, ls: seq<nat>)
    requires DepthsOf(freq, t, ls)
    ensures Pays(freq, t, CostVector(freq, ls), 0)
  {
  }

  lemma DepthsShare(freq: seq<nat>, t: Tree, ls: seq<nat>, m: nat)
    requires DepthsOf(freq, t, ls) && Bounded(ls, m)
    ensures Distinct(t, |freq|) && Shares(t, ShareVector(ls, m), m, 0)
  {
  }

  lemma CostByMultiplicity(freq: seq<nat>, t: Tree, ls: seq<nat>)
    requires |ls| == |freq| && OneLeafEach(freq, t)
    ensures LeafSum(Symbols(t), CostVector(freq, ls)) == TotalBits(freq, ls, |freq|)
  {
    SumByMultiplicity(Symbols(t), freq, ls, CostVector(freq, ls), |freq|);
  }

  lemma ShareByMultiplicity(freq: seq<nat>, t: Tree, ls: seq<nat>, m: nat)
    requires |ls| == |freq| && OneLeafEach(freq, t) && Bounded(ls, m)
    ensures LeafSum(Symbols(t), ShareVector(ls, m)) == UsedKraft(freq, ls, m, |freq|)
  {
    KraftByMultiplicity(Symbols(t), freq, ls, m, ShareVector(ls, m), |freq|);
  }

  lemma DepthsCost(freq: seq<nat>, t: Tree, ls: seq<nat>)
    requires DepthsOf(freq, t, ls)
    ensures TotalBits(freq, ls, |freq|) == PathCost(freq, t)
  {
    DepthsPay(freq, t, ls);
    PathCostIsSum(freq, t, CostVector(freq, ls), 0);
    CostByMultiplicity(freq, t, ls);
  }

  lemma DepthsKraft(freq: seq<nat>, t: Tree, ls: seq<nat>, m: nat)
    requires DepthsOf(freq, t, ls) && Bounded(ls, m)
    ensures UsedKraft(freq, ls, m, |freq|) == Pow2(m)
  {
    hide Pow2, Depth, Symbols, LeafSum, UsedKraft, Shares, Distinct;
    DepthsShare(freq, t, ls, m);
    TreeKraft(t, ShareVector(ls, m), m, 0);
    ShareByMultiplicity(freq, t, ls, m);
  }

  lemma LengthsAreDepths(freq: seq<nat>)
    requires Used(freq, |freq|) >= 2
    ensures DepthsOf(freq, MergeTree(freq), Lengths(freq))
  {
    hide MergeTree, Symbols, Depth, Used;
    forall s: nat
      ensures Symbols(MergeTree(freq))[s] == if s < |freq| && freq[s] > 0 then 1 else 0
    {
      MergeTreeSymbols(freq, s);
    }
  }

  lemma MergeTreeCost(freq: seq<nat>)
    requires Used(freq, |freq|) >= 1
    ensures PathCost(freq, MergeTree(freq)) == MergeCost(Weights(Leaves(freq, |freq|)))
  {
    LeavesFacts(freq, |freq|);
    GrowCost(freq, Leaves(freq, |freq|), Used(freq, |freq|));
  }

  /** With two or more used symbols, the encoded size is the sum of the merges. */
  lemma LengthsCost(freq: seq<nat>)
    requires Used(freq, |freq|) >= 2
    ensures TotalBits(freq, Lengths(freq), |freq|) == MergeCost(Weights(Leaves(freq, |freq|)))
  {
    LengthsAreDepths(freq);
    DepthsCost(freq, MergeTree(freq), Lengths(freq));
    MergeTreeCost(freq);
  }

  /** With two or more used symbols, Kraft's inequality is met with equality. */
  lemma LengthsComplete(freq: seq<nat>, m: nat)
    requires Used(freq, |freq|) >= 2 && Bounded(Lengths(freq), m)
    ensures UsedKraft(freq, Lengths(freq), m, |freq|) == Pow2(m)
  {
    LengthsAreDepths(freq);
    DepthsKraft(freq, MergeTree(freq), Lengths(freq), m);
  }

  lemma {:induction false} NothingUsed(freq: seq<nat>, ls: seq<nat>, m: nat, n: nat)
    requires n <= |freq| == |ls| && Bounded(ls, m) && Used(freq, n) == 0
    ensures TotalBits(freq, ls, n) == UsedKraft(freq, ls, m, n) == 0
  {
    if n > 0 {
      NothingUsed(freq, ls, m, n - 1);
    }
  }

  lemma {:induction false} OneUsed(freq: seq<nat>, ls: seq<nat>, m: nat, n: nat) returns (s: nat)
    requires n <= |freq| == |ls| && Bounded(ls, m) && Used(freq, n) == 1
    ensures s < n && freq[s] > 0
    ensures TotalBits(freq, ls, n) == freq[s] * ls[s]
    ensures UsedKraft(freq, ls, m, n) == Pow2(m - ls[s])
  {
    if freq[n - 1] > 0 {
      s := n - 1;
      NothingUsed(freq, ls, m, n - 1);
    } else {
      s := OneUsed(freq, ls, m, n - 1);
    }
  }

  /** The lengths give every used symbol at least one bit and satisfy Kraft's
      inequality, so a prefix code with these lengths exists. */
  lemma LengthsFeasible(freq: seq<nat>, m: nat)
    requires Bounded(Lengths(freq), m)
    ensures Feasible(freq, Lengths(freq), m)
  {
    var ls := Lengths(freq);
    if Used(freq, |freq|) == 0 {
      NothingUsed(freq, ls, m, |freq|);
      forall s | 0 <= s < |freq| ensures freq[s] == 0 {
        if freq[s] > 0 { NoSymbols(freq, |freq|, s); }
      }
    } else if Used(freq, |freq|) == 1 {
      var s := OneUsed(freq, ls, m, |freq|);
      Pow2Mono(m - ls[s], m);
    } else {
      LengthsComplete(freq, m);
      forall s | 0 <= s < |freq| && freq[s] > 0 ensures ls[s] >= 1 {
        GrowForks(Leaves(freq, |freq|), Used(freq, |freq|));
      }
    }
  }

  lemma OptimalWhenDegenerate(freq: seq<nat>, ls: seq<nat>, m: nat)
    requires Feasible(freq, ls, m) && Used(freq, |freq|) <= 1
    ensures TotalBits(freq, Lengths(freq), |freq|) <= TotalBits(freq, ls, |freq|)
  {
    var top := SomeBound(Lengths(freq));
    if Used(freq, |freq|) == 0 {
      NothingUsed(freq, Lengths(freq), top, |freq|);
    } else {
      var s := OneUsed(freq, ls, m, |freq|);
      var t := OneUsed(freq, Lengths(freq), top, |freq|);
      OnlySymbol(freq, |freq|);
      MulMono(1, ls[s], freq[s]);
    }
  }

  /** Optimality: no feasible vector of lengths encodes the data in fewer bits. */
  lemma LengthsOptimal(freq: seq<nat>, ls: seq<nat>, m: nat)
    requires Feasible(freq, ls, m)
    ensures TotalBits(freq, Lengths(freq), |freq|) <= TotalBits(freq, ls, |freq|)
  {
    if Used(freq, |freq|) <= 1 {
      OptimalWhenDegenerate(freq, ls, m);
    } else {
      LengthsCost(freq);
      LeavesFacts(freq, |freq|);
      OrderedAscending(Leaves(freq, |freq|));
      QueueTotals(freq, ls, m, |freq|);
      MergeCostIsLeast(Weights(Leaves(freq, |freq|)), Aligned(Leaves(freq, |freq|), ls), m);
    }
  }

  lemma OrderedAscending(items: Forest)
    requires Ordered(items)
    ensures Ascending(Weights(items))
  {
  }

  ghost function SomeBound(ls: seq<nat>): (m: nat)
    ensures Bounded(ls, m)
  {
    if ls == [] then 0
    else
      var m := SomeBound(ls[1..]);
      assert forall i :: 1 <= i < |ls| ==> ls[i] == ls[1..][i - 1];
      Max(m, ls[0])
  }
}