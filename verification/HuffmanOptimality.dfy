/**
  Why merging the two lightest weights is optimal, stated over bare weights and
  code lengths: no vector of lengths that satisfies Kraft's inequality costs
  less than the sum of the merged weights.
*/
module HuffmanOptimality {
  import opened Arith

  /** Total weight times length. */
  ghost function Cost(ws: seq<nat>, ls: seq<nat>): nat
    requires |ws| == |ls|
  {
    if ws == [] then 0 else ws[0] * ls[0] + Cost(ws[1..], ls[1..])
  }

  ghost predicate Bounded(ls: seq<nat>, m: nat) {
    forall i :: 0 <= i < |ls| ==> ls[i] <= m
  }

  /** Kraft's sum, scaled by 2^m so that it stays an integer. */
  ghost function Kraft(ls: seq<nat>, m: nat): nat
    requires Bounded(ls, m)
  {
    if ls == [] then 0 else Pow2(m - ls[0]) + Kraft(ls[1..], m)
  }

  ghost predicate Ascending(ws: seq<nat>) {
    forall i, j :: 0 <= i < j < |ws| ==> ws[i] <= ws[j]
  }

  /** Position of a new weight in an ascending list, after every equal weight. */
  ghost function Position(w: nat, ws: seq<nat>): (p: nat)
    ensures p <= |ws|
    ensures forall i :: 0 <= i < p ==> ws[i] <= w
    ensures p < |ws| ==> w < ws[p]
  {
    if ws == [] || w < ws[0] then 0 else 1 + Position(w, ws[1..])
  }

  ghost function Splice(s: seq<nat>, p: nat, x: nat): seq<nat>
    requires p <= |s|
  {
    s[..p] + [x] + s[p..]
  }

  ghost function Insert(w: nat, ws: seq<nat>): (r: seq<nat>)
    ensures |r| == |ws| + 1
    ensures Ascending(ws) ==> Ascending(r)
  {
    Splice(ws, Position(w, ws), w)
  }

  /** The sum of every merged pair: what the merging procedure pays. */
  ghost function MergeCost(ws: seq<nat>): nat
    decreases |ws|
  {
    if |ws| <= 1 then 0 else ws[0] + ws[1] + MergeCost(Insert(ws[0] + ws[1], ws[2..]))
  }

  // Replacing, joining and exchanging lengths

  lemma {:induction false} CostUpdate(ws: seq<nat>, ls: seq<nat>, i: nat, x: nat)
    requires |ws| == |ls| && i < |ls|
    ensures Cost(ws, ls[i := x]) == Cost(ws, ls) - ws[i] * ls[i] + ws[i] * x
  {
    if i == 0 {
      assert ls[i := x][1..] == ls[1..];
    } else {
      assert ls[i := x][1..] == ls[1..][i - 1 := x];
      CostUpdate(ws[1..], ls[1..], i - 1, x);
    }
  }

  lemma {:induction false} KraftUpdate(ls: seq<nat>, m: nat, i: nat, x: nat)
    requires Bounded(ls, m) && i < |ls| && x <= m
    ensures Bounded(ls[i := x], m)
    ensures Kraft(ls[i := x], m) == Kraft(ls, m) - Pow2(m - ls[i]) + Pow2(m - x)
  {
    if i == 0 {
      assert ls[i := x][1..] == ls[1..];
    } else {
      assert ls[i := x][1..] == ls[1..][i - 1 := x];
      KraftUpdate(ls[1..], m, i - 1, x);
    }
  }

  lemma {:induction false} CostConcat(ws: seq<nat>, ls: seq<nat>, vs: seq<nat>, ks: seq<nat>)
    requires |ws| == |ls| && |vs| == |ks|
    ensures Cost(ws + vs, ls + ks) == Cost(ws, ls) + Cost(vs, ks)
  {
    if ws == [] {
      assert ws + vs == vs && ls + ks == ks;
    } else {
      assert (ws + vs)[1..] == ws[1..] + vs && (ls + ks)[1..] == ls[1..] + ks;
      CostConcat(ws[1..], ls[1..], vs, ks);
    }
  }

  lemma {:induction false} KraftConcat(ls: seq<nat>, ks: seq<nat>, m: nat)
    requires Bounded(ls, m) && Bounded(ks, m)
    ensures Kraft(ls + ks, m) == Kraft(ls, m) + Kraft(ks, m)
  {
    if ls == [] {
      assert ls + ks == ks;
    } else {
      assert (ls + ks)[1..] == ls[1..] + ks;
      KraftConcat(ls[1..], ks, m);
    }
  }

  ghost function Swap(ls: seq<nat>, i: nat, j: nat): seq<nat>
    requires i < |ls| && j < |ls|
  {
    ls[i := ls[j]][j := ls[i]]
  }

  lemma Exchange(a: nat, b: nat, x: nat, y: nat)
    requires a <= b && x <= y
    ensures a * y + b * x <= a * x + b * y
  {
    assert 0 <= (b - a) * (y - x) == b * y - b * x - a * y + a * x;
  }

  /** Giving the longer code to the lighter weight never costs more. */
  lemma SwapHelps(ws: seq<nat>, ls: seq<nat>, m: nat, i: nat, j: nat)
    requires |ws| == |ls| && i <= j < |ls| && ws[i] <= ws[j] && ls[i] <= ls[j] && Bounded(ls, m)
    ensures Cost(ws, Swap(ls, i, j)) <= Cost(ws, ls)
    ensures Bounded(Swap(ls, i, j), m) && Kraft(Swap(ls, i, j), m) == Kraft(ls, m)
  {
    if i == j {
      assert Swap(ls, i, j) == ls;
    } else {
      var t := ls[i := ls[j]];
      CostUpdate(ws, ls, i, ls[j]);
      CostUpdate(ws, t, j, ls[i]);
      Exchange(ws[i], ws[j], ls[i], ls[j]);
      KraftUpdate(ls, m, i, ls[j]);
      KraftUpdate(t, m, j, ls[i]);
    }
  }

  lemma {:induction false} LongestFrom(ls: seq<nat>, from: nat) returns (k: nat)
    requires from < |ls|
    ensures from <= k < |ls| && forall i :: from <= i < |ls| ==> ls[i] <= ls[k]
    decreases |ls| - from
  {
    k := from;
    if from + 1 < |ls| {
      k := LongestFrom(ls, from + 1);
      if ls[k] < ls[from] { k := from; }
    }
  }

  lemma AddTimes(a: nat, b: nat, u: nat)
    ensures (a + b) * u == a * u + b * u
  {
  }

  /** When no length exceeds `top`, Kraft's sum is a multiple of 2^(m - top). */
  lemma {:induction false} KraftDivides(ls: seq<nat>, m: nat, top: nat) returns (q: nat)
    requires Bounded(ls, top) && top <= m
    ensures Bounded(ls, m) && Kraft(ls, m) == q * Pow2(m - top)
  {
    if ls == [] {
      q := 0;
    } else {
      var rest := KraftDivides(ls[1..], m, top);
      Pow2Add(top - ls[0], m - top);
      q := rest + Pow2(top - ls[0]);
      AddTimes(rest, Pow2(top - ls[0]), Pow2(m - top));
    }
  }

  /** A multiple of u below P * u leaves room for one more u. */
  lemma RoomForOne(q: nat, p: nat, u: nat)
    requires q * u < p * u
    ensures q * u + u <= p * u
  {
    if p <= q {
      MulMono(p, q, u);
      assert false;
    } else {
      MulMono(q + 1, p, u);
      assert (q + 1) * u == q * u + u;
    }
  }

  /** A single longest code can be shortened to the second longest length. */
  lemma SlackForLongest(ls: seq<nat>, m: nat)
    requires |ls| >= 2 && Bounded(ls, m) && Kraft(ls, m) <= Pow2(m)
    requires ls[1] <= ls[0] && forall i :: 1 <= i < |ls| ==> ls[i] <= ls[1]
    ensures Bounded(ls[0 := ls[1]], m) && Kraft(ls[0 := ls[1]], m) <= Pow2(m)
  {
    var u := Pow2(m - ls[1]);
    var q := KraftDivides(ls[1..], m, ls[1]);
    Pow2Add(ls[1], m - ls[1]);
    RoomForOne(q, Pow2(ls[1]), u);
    KraftUpdate(ls, m, 0, ls[1]);
  }

  /** Two or more codes cannot include one of length zero. */
  lemma TwoCodesNeedABit(ls: seq<nat>, m: nat)
    requires |ls| >= 2 && Bounded(ls, m) && Kraft(ls, m) <= Pow2(m) && ls[0] == ls[1]
    ensures ls[1] >= 1
  {
    assert Kraft(ls[1..], m) >= Pow2(m - ls[1]);
  }

  /** Any feasible lengths can be rearranged, at no extra cost, so that the two
      lightest weights carry the two longest codes, longest first. */
  lemma LongestFirst(ws: seq<nat>, ls: seq<nat>, m: nat) returns (ns: seq<nat>)
    requires |ws| == |ls| >= 2 && Ascending(ws)
    requires Bounded(ls, m) && Kraft(ls, m) <= Pow2(m)
    ensures |ns| == |ls| && Bounded(ns, m) && Kraft(ns, m) <= Pow2(m)
    ensures Cost(ws, ns) <= Cost(ws, ls)
    ensures ns[1] <= ns[0] && forall i :: 1 <= i < |ns| ==> ns[i] <= ns[1]
  {
    var i := LongestFrom(ls, 0);
    SwapHelps(ws, ls, m, 0, i);
    var a := Swap(ls, 0, i);
    var j := LongestFrom(a, 1);
    SwapHelps(ws, a, m, 1, j);
    ns := Swap(a, 1, j);
  }

  /** ... and then so that those two codes are equally long. */
  lemma Normalize(ws: seq<nat>, ls: seq<nat>, m: nat) returns (ns: seq<nat>)
    requires |ws| == |ls| >= 2 && Ascending(ws)
    requires Bounded(ls, m) && Kraft(ls, m) <= Pow2(m)
    ensures |ns| == |ls| && Bounded(ns, m) && Kraft(ns, m) <= Pow2(m)
    ensures Cost(ws, ns) <= Cost(ws, ls)
    ensures ns[0] == ns[1] >= 1
  {
    var b := LongestFirst(ws, ls, m);
    SlackForLongest(b, m);
    CostUpdate(ws, b, 0, b[1]);
    MulMono(b[1], b[0], ws[0]);
    ns := b[0 := b[1]];
    TwoCodesNeedABit(ns, m);
  }

  lemma CostSplice(ws: seq<nat>, ls: seq<nat>, p: nat, w: nat, l: nat)
    requires |ws| == |ls| && p <= |ws|
    ensures Cost(Splice(ws, p, w), Splice(ls, p, l)) == Cost(ws, ls) + w * l
  {
    CostConcat(ws[..p] + [w], ls[..p] + [l], ws[p..], ls[p..]);
    CostConcat(ws[..p], ls[..p], [w], [l]);
    CostConcat(ws[..p], ls[..p], ws[p..], ls[p..]);
    assert ws[..p] + ws[p..] == ws && ls[..p] + ls[p..] == ls;
  }

  lemma KraftSplice(ls: seq<nat>, m: nat, p: nat, l: nat)
    requires Bounded(ls, m) && p <= |ls| && l <= m
    ensures Bounded(Splice(ls, p, l), m) && Kraft(Splice(ls, p, l), m) == Kraft(ls, m) + Pow2(m - l)
  {
    KraftConcat(ls[..p] + [l], ls[p..], m);
    KraftConcat(ls[..p], [l], m);
    KraftConcat(ls[..p], ls[p..], m);
    assert ls[..p] + ls[p..] == ls;
  }

  lemma Distribute(a: nat, b: nat, l: nat)
    ensures a * (l + 1) + b * (l + 1) == (a + b) * l + (a + b)
  {
  }

  lemma MergedPair(ws: seq<nat>, ns: seq<nat>, m: nat, w: nat, l: nat)
    requires |ws| == |ns| >= 2 && Bounded(ns, m) && ns[0] == ns[1] == l + 1 && w == ws[0] + ws[1]
    ensures Cost(ws, ns) == w * l + w + Cost(ws[2..], ns[2..])
    ensures Kraft(ns, m) == Pow2(m - l) + Kraft(ns[2..], m)
  {
    assert ws[1..][1..] == ws[2..] && ns[1..][1..] == ns[2..];
    assert Cost(ws[1..], ns[1..]) == ws[1] * ns[1] + Cost(ws[2..], ns[2..]);
    assert Kraft(ns[1..], m) == Pow2(m - ns[1]) + Kraft(ns[2..], m);
    Distribute(ws[0], ws[1], l);
  }

  /** Merging two equal codes into one that is a bit shorter. */
  lemma MergeLengths(ws: seq<nat>, ns: seq<nat>, m: nat, w: nat) returns (ks: seq<nat>)
    requires |ws| == |ns| >= 2 && Bounded(ns, m) && ns[0] == ns[1] >= 1 && w == ws[0] + ws[1]
    ensures |ks| == |ws| - 1 && Bounded(ks, m)
    ensures Kraft(ks, m) == Kraft(ns, m)
    ensures Cost(ws, ns) == w + Cost(Insert(w, ws[2..]), ks)
  {
    var l := ns[0] - 1;
    var p := Position(w, ws[2..]);
    ks := Splice(ns[2..], p, l);
    CostSplice(ws[2..], ns[2..], p, w, l);
    KraftSplice(ns[2..], m, p, l);
    MergedPair(ws, ns, m, w, l);
  }

  /** Huffman's lower bound: every feasible vector of lengths costs at least the
      sum of the merges. */
  lemma {:induction false} MergeCostIsLeast(ws: seq<nat>, ls: seq<nat>, m: nat)
    requires |ws| == |ls| && Ascending(ws)
    requires Bounded(ls, m) && Kraft(ls, m) <= Pow2(m)
    ensures MergeCost(ws) <= Cost(ws, ls)
    decreases |ws|
  {
    hide Ascending, Bounded, Kraft, Cost, Insert, MergeCost;
    MergeCostStep(ws);
    if |ws| >= 2 {
      var ns := Normalize(ws, ls, m);
      var ks := MergeLengths(ws, ns, m, ws[0] + ws[1]);
      MergeCostIsLeast(Insert(ws[0] + ws[1], ws[2..]), ks, m);
    }
  }

  lemma MergeCostStep(ws: seq<nat>)
    requires Ascending(ws)
    ensures |ws| < 2 ==> MergeCost(ws) == 0
    ensures |ws| >= 2 ==> Ascending(Insert(ws[0] + ws[1], ws[2..]))
                          && MergeCost(ws) == ws[0] + ws[1] + MergeCost(Insert(ws[0] + ws[1], ws[2..]))
  {
    hide Insert;
  }
}
