/**
  Canonical codes and the bit packer
  (tools/quantize_md_video.py, canonical_codes and huffman_encode), with a
  prefix decoder as the reference reading of the packed bits.
*/
module HuffmanCodes {
  import opened Arith
  import opened HuffmanOptimality
  import opened Sorting

  /** A symbol's code: `length` bits with the value `code`. */
  datatype Code = Code(code: nat, length: nat)

  datatype Pair = Pair(length: nat, symbol: nat)

  predicate Less(a: Pair, b: Pair) {
    a.length < b.length || (a.length == b.length && a.symbol < b.symbol)
  }

  function ByLength(p: Pair): (int, int) { (p.length, p.symbol) }

  /** The pairs (length, symbol) of the first n symbols with a code. */
  function PairsOf(lengths: seq<nat>, n: nat): seq<Pair>
    requires n <= |lengths|
  {
    if n == 0 then [] else PairsOf(lengths, n - 1) + if lengths[n - 1] > 0 then [Pair(lengths[n - 1], n - 1)] else []
  }

  function SortedPairs(lengths: seq<nat>, n: nat): seq<Pair>
    requires n <= |lengths|
  {
    SortBy(PairsOf(lengths, n), ByLength)
  }

  predicate Sorted(ps: seq<Pair>) {
    forall i, j :: 0 <= i < j < |ps| ==> Less(ps[i], ps[j])
  }

  lemma {:induction false} PairsOfAre(lengths: seq<nat>, n: nat)
    requires n <= |lengths|
    ensures forall p :: p in PairsOf(lengths, n) <==> p.symbol < n && p.length == lengths[p.symbol] && p.length > 0
    ensures forall i, j :: 0 <= i < j < |PairsOf(lengths, n)| ==>
      PairsOf(lengths, n)[i].symbol < PairsOf(lengths, n)[j].symbol
  {
    if n > 0 {
      PairsOfAre(lengths, n - 1);
      var front := PairsOf(lengths, n - 1);
      forall i | 0 <= i < |front| ensures front[i].symbol < n - 1 { assert front[i] in front; }
    }
  }

  lemma SortedPairsFacts(lengths: seq<nat>, n: nat)
    requires n <= |lengths|
    ensures Sorted(SortedPairs(lengths, n))
    ensures forall p :: p in SortedPairs(lengths, n) <==>
              p.symbol < n && p.length == lengths[p.symbol] && p.length > 0
  {
    hide PairsOf, SortBy;
    var pairs, ps := PairsOf(lengths, n), SortedPairs(lengths, n);
    PairsOfAre(lengths, n);
    SortSorts(pairs, ByLength);
    SortMembers(pairs, ByLength);
    StaysDistinct(pairs, ps);
    forall i, j | 0 <= i < j < |ps| ensures Less(ps[i], ps[j]) {
      assert ps[i] != ps[j] && !KeyBefore(ByLength(ps[j]), ByLength(ps[i]));
    }
  }

  // The running code

  /** The code of the i-th pair: one past its predecessor, shifted to its length. */
  function CodeAt(ps: seq<Pair>, i: nat): nat
    requires i < |ps| && Sorted(ps)
  {
    if i == 0 then 0 else (CodeAt(ps, i - 1) + 1) * Pow2(ps[i].length - ps[i - 1].length)
  }

  /** A dictionary holding the codes of the first n pairs and nothing else. */
  ghost predicate HoldsFirst(codes: map<nat, Code>, ps: seq<Pair>, n: nat)
    requires n <= |ps| && Sorted(ps)
  {
    && (forall j :: 0 <= j < n ==>
          ps[j].symbol in codes && codes[ps[j].symbol] == Code(CodeAt(ps, j), ps[j].length))
    && (forall s: nat :: s in codes ==> Pair(codes[s].length, s) in ps)
  }

  /** The code map of a vector of lengths. */
  ghost predicate IsCanonical(lengths: seq<nat>, codes: map<nat, Code>) {
    && (forall s: nat :: s in codes <==> s < |lengths| && lengths[s] > 0)
    && (forall s: nat :: s in codes ==> codes[s].length == lengths[s])
    && var ps := SortedPairs(lengths, |lengths|);
       Sorted(ps) && HoldsFirst(codes, ps, |ps|)
  }

  lemma SymbolsDiffer(lengths: seq<nat>, ps: seq<Pair>, j: nat, i: nat)
    requires ps == SortedPairs(lengths, |lengths|) && j < i < |ps|
    ensures ps[j].symbol != ps[i].symbol
  {
    SortedPairsFacts(lengths, |lengths|);
    assert ps[j] in ps && ps[i] in ps && Less(ps[j], ps[i]);
  }

  lemma CodesComplete(lengths: seq<nat>, codes: map<nat, Code>)
    requires var ps := SortedPairs(lengths, |lengths|);
             Sorted(ps) && HoldsFirst(codes, ps, |ps|)
    ensures IsCanonical(lengths, codes)
  {
    var ps := SortedPairs(lengths, |lengths|);
    SortedPairsFacts(lengths, |lengths|);
    forall s: nat | s < |lengths| && lengths[s] > 0 ensures s in codes {
      assert Pair(lengths[s], s) in ps;
      var j :| 0 <= j < |ps| && ps[j] == Pair(lengths[s], s);
    }
    forall s: nat | s in codes ensures s < |lengths| && lengths[s] > 0 && codes[s].length == lengths[s] {
      assert Pair(codes[s].length, s) in ps;
    }
  }

  lemma HoldsNone(ps: seq<Pair>)
    requires Sorted(ps)
    ensures HoldsFirst(map[], ps, 0)
  {
  }

  lemma HoldsNext(lengths: seq<nat>, codes: map<nat, Code>, ps: seq<Pair>, i: nat)
    requires ps == SortedPairs(lengths, |lengths|) && i < |ps| && Sorted(ps)
    requires HoldsFirst(codes, ps, i)
    ensures HoldsFirst(codes[ps[i].symbol := Code(CodeAt(ps, i), ps[i].length)], ps, i + 1)
  {
    hide CodeAt, SortedPairs, Sorted;
    forall j | 0 <= j < i ensures ps[j].symbol != ps[i].symbol {
      SymbolsDiffer(lengths, ps, j, i);
    }
    assert ps[i] in ps;
  }

  method CanonicalCodes(lengths: seq<nat>) returns (codes: map<nat, Code>)
    ensures IsCanonical(lengths, codes)
  {
    hide SortedPairs, HoldsFirst, IsCanonical;
    var pairs := SortedPairs(lengths, |lengths|);
    SortedPairsFacts(lengths, |lengths|);
    codes := map[];
    HoldsNone(pairs);
    var code, prevLen := 0, 0;
    for i := 0 to |pairs|
      invariant prevLen == if i == 0 then 0 else pairs[i - 1].length
      invariant code == if i == 0 then 0 else CodeAt(pairs, i - 1) + 1
      invariant HoldsFirst(codes, pairs, i)
    {
      var length, symbol := pairs[i].length, pairs[i].symbol;
      assert i > 0 ==> Less(pairs[i - 1], pairs[i]);
      code := code * Pow2(length - prevLen);
      HoldsNext(lengths, codes, pairs, i);
      codes := codes[symbol := Code(code, length)];
      code := code + 1;
      prevLen := length;
    }
    CodesComplete(lengths, codes);
  }

  /** What the codes before the i-th take of 2^m. */
  ghost function Start(ps: seq<Pair>, i: nat, m: nat): nat
    requires i <= |ps| && forall j :: 0 <= j < |ps| ==> ps[j].length <= m
  {
    if i == 0 then 0 else Start(ps, i - 1, m) + Pow2(m - ps[i - 1].length)
  }

  lemma {:induction false} StartMono(ps: seq<Pair>, i: nat, j: nat, m: nat)
    requires i <= j <= |ps| && forall k :: 0 <= k < |ps| ==> ps[k].length <= m
    ensures Start(ps, i, m) <= Start(ps, j, m)
  {
    if i < j { StartMono(ps, i, j - 1, m); }
  }

  lemma StartStep(ps: seq<Pair>, i: nat, m: nat)
    requires i < |ps| && forall j :: 0 <= j < |ps| ==> ps[j].length <= m
    ensures Start(ps, i + 1, m) == Start(ps, i, m) + Pow2(m - ps[i].length)
  {
  }

  lemma Shift(c: nat, a: nat, b: nat)
    ensures (c * Pow2(a)) * Pow2(b) == c * Pow2(a + b)
  {
    Pow2Add(a, b);
  }

  /** Each code, scaled to m bits, is exactly what its predecessors take. */
  lemma {:induction false} CodeIsStart(ps: seq<Pair>, i: nat, m: nat)
    requires i < |ps| && Sorted(ps) && forall k :: 0 <= k < |ps| ==> ps[k].length <= m
    ensures CodeAt(ps, i) * Pow2(m - ps[i].length) == Start(ps, i, m)
  {
    if i > 0 {
      CodeIsStart(ps, i - 1, m);
      var c := CodeAt(ps, i - 1);
      Shift(c + 1, ps[i].length - ps[i - 1].length, m - ps[i].length);
      AddTimes(c, 1, Pow2(m - ps[i - 1].length));
    }
  }

  // Bits, most significant first

  function Bits(c: nat, n: nat): (b: seq<bool>)
    ensures |b| == n
  {
    if n == 0 then [] else Bits(c / 2, n - 1) + [c % 2 == 1]
  }

  function Word(code: Code): seq<bool> { Bits(code.code, code.length) }

  lemma {:induction false} BitsSplit(c: nat, n: nat, k: nat)
    requires k <= n
    ensures Bits(c, n)[..k] == Bits(c / Pow2(n - k), k)
  {
    if k < n {
      BitsSplit(c / 2, n - 1, k);
      assert Bits(c, n)[..k] == Bits(c / 2, n - 1)[..k];
      DivDiv(c, n - k);
    } else {
      assert Bits(c, n)[..n] == Bits(c, n);
    }
  }

  lemma DivDiv(c: nat, k: nat)
    requires k > 0
    ensures (c / 2) / Pow2(k - 1) == c / Pow2(k)
  {
    var p := Pow2(k - 1);
    var q, r := c / (2 * p), c % (2 * p);
    assert c == 2 * (p * q) + r;
    assert c / 2 == p * q + r / 2;
    assert r / 2 < p;
    DivisionUnique(c / 2, p, q, r / 2);
  }

  lemma {:induction false} BitsJoin(a: nat, k: nat, c: nat, n: nat)
    requires c < Pow2(n)
    ensures Bits(a * Pow2(n) + c, k + n) == Bits(a, k) + Bits(c, n)
  {
    if n == 0 {
      assert Bits(a, k) + [] == Bits(a, k);
    } else {
      var x := a * Pow2(n) + c;
      assert a * Pow2(n) == 2 * (a * Pow2(n - 1));
      BitsJoin(a, k, c / 2, n - 1);
      assert x / 2 == a * Pow2(n - 1) + c / 2 && x % 2 == c % 2;
      assert Bits(x, k + n) == Bits(x / 2, k + n - 1) + [x % 2 == 1];
    }
  }

  lemma {:induction false} BitsInjective(a: nat, b: nat, n: nat)
    requires a < Pow2(n) && b < Pow2(n) && Bits(a, n) == Bits(b, n)
    ensures a == b
  {
    if n > 0 {
      assert Bits(a, n)[..n - 1] == Bits(a / 2, n - 1) && Bits(b, n)[..n - 1] == Bits(b / 2, n - 1);
      BitsInjective(a / 2, b / 2, n - 1);
      assert Bits(a, n)[n - 1] == (a % 2 == 1) && Bits(b, n)[n - 1] == (b % 2 == 1);
    }
  }

  // Kraft's inequality is what keeps the codes inside their lengths and apart

  ghost predicate CodesFit(codes: map<nat, Code>) {
    forall s :: s in codes ==> 0 < codes[s].length && codes[s].code < Pow2(codes[s].length)
  }

  ghost predicate PrefixFree(codes: map<nat, Code>) {
    forall s, t :: s in codes && t in codes && Word(codes[s]) <= Word(codes[t]) ==> s == t
  }

  /** Kraft's inequality for sorted pairs. */
  ghost predicate Kraftian(ps: seq<Pair>, m: nat) {
    && Sorted(ps)
    && (forall k :: 0 <= k < |ps| ==> ps[k].length <= m)
    && Start(ps, |ps|, m) <= Pow2(m)
  }

  lemma CodeFits(ps: seq<Pair>, i: nat, m: nat)
    requires i < |ps| && Kraftian(ps, m)
    ensures CodeAt(ps, i) < Pow2(ps[i].length)
  {
    hide CodeAt;
    var c, l := CodeAt(ps, i), ps[i].length;
    CodeIsStart(ps, i, m);
    StartMono(ps, i + 1, |ps|, m);
    Pow2Add(l, m - l);
    AddTimes(c, 1, Pow2(m - l));
    AtLeast(c + 1, Pow2(l), Pow2(m - l));
  }

  /** Between two codes lies at least the earlier code's whole subtree. */
  lemma CodesApart(ps: seq<Pair>, i: nat, j: nat, m: nat)
    requires i < j < |ps| && Kraftian(ps, m)
    ensures ps[i].length <= ps[j].length
    ensures (CodeAt(ps, i) + 1) * Pow2(ps[j].length - ps[i].length) <= CodeAt(ps, j)
  {
    hide CodeAt, Pow2, Start;
    assert Less(ps[i], ps[j]);
    assert Start(ps, i + 1, m) == Start(ps, i, m) + Pow2(m - ps[i].length) by { StartStep(ps, i, m); }
    var a, b := CodeAt(ps, i), CodeAt(ps, j);
    var d, r := ps[j].length - ps[i].length, m - ps[j].length;
    CodeIsStart(ps, i, m);
    CodeIsStart(ps, j, m);
    StartMono(ps, i + 1, j, m);
    AddTimes(a, 1, Pow2(d + r));
    Shift(a + 1, d, r);
    AtLeast((a + 1) * Pow2(d), b, Pow2(r));
  }

  lemma EarlierIsNoPrefix(ps: seq<Pair>, i: nat, j: nat, m: nat)
    requires i < j < |ps| && Kraftian(ps, m)
    ensures !(Bits(CodeAt(ps, i), ps[i].length) <= Bits(CodeAt(ps, j), ps[j].length))
  {
    hide CodeAt, Bits;
    CodesApart(ps, i, j, m);
    CodeFits(ps, i, m);
    CodeFits(ps, j, m);
    var a, b, k := CodeAt(ps, i), CodeAt(ps, j), ps[i].length;
    var d := ps[j].length - k;
    Quotient(b, a + 1, Pow2(d));
    BitsSplit(b, k + d, k);
    PrefixFits(b, k, d);
    if Bits(a, k) <= Bits(b, k + d) {
      assert Bits(b, k + d)[..k] == Bits(a, k);
      BitsInjective(b / Pow2(d), a, k);
      assert false;
    }
  }

  lemma LaterIsNoPrefix(ps: seq<Pair>, i: nat, j: nat, m: nat)
    requires i < j < |ps| && Kraftian(ps, m)
    ensures !(Bits(CodeAt(ps, j), ps[j].length) <= Bits(CodeAt(ps, i), ps[i].length))
  {
    hide CodeAt, Bits;
    CodesApart(ps, i, j, m);
    var w := Bits(CodeAt(ps, j), ps[j].length);
    if w <= Bits(CodeAt(ps, i), ps[i].length) {
      assert w == Bits(CodeAt(ps, i), ps[i].length);
      EarlierIsNoPrefix(ps, i, j, m);
    }
  }

  lemma AtLeast(x: nat, y: nat, u: nat)
    requires u > 0 && x * u <= y * u
    ensures x <= y
  {
    AddTimes(y, 1, u);
    if y < x {
      MulMono(y + 1, x, u);
    }
  }

  lemma Quotient(b: nat, q: nat, u: nat)
    requires u > 0 && q * u <= b
    ensures b / u >= q
  {
    var d := b / u;
    AddTimes(d, 1, u);
    if d < q {
      MulMono(d + 1, q, u);
    }
  }

  lemma PrefixFits(b: nat, k: nat, d: nat)
    requires b < Pow2(k + d)
    ensures b / Pow2(d) < Pow2(k)
  {
    Pow2Add(k, d);
    var q := b / Pow2(d);
    assert q * Pow2(d) <= b;
    if Pow2(k) <= q {
      MulMono(Pow2(k), q, Pow2(d));
    }
  }

  // A map of codes that meets Kraft's inequality fits and is prefix-free

  /** Kraft's sum of a vector of lengths in which 0 means no code. */
  ghost function LengthKraft(lengths: seq<nat>, m: nat, n: nat): nat
    requires n <= |lengths| && Bounded(lengths, m)
  {
    if n == 0 then 0
    else LengthKraft(lengths, m, n - 1) + (if lengths[n - 1] > 0 then Pow2(m - lengths[n - 1]) else 0)
  }

  ghost predicate PairsBounded(ps: seq<Pair>, m: nat) {
    forall k :: 0 <= k < |ps| ==> ps[k].length <= m
  }

  lemma {:induction false} StartOfPrefix(ps: seq<Pair>, qs: seq<Pair>, i: nat, m: nat)
    requires i <= |ps| && ps <= qs && PairsBounded(qs, m)
    ensures PairsBounded(ps, m) && Start(qs, i, m) == Start(ps, i, m)
  {
    if i > 0 { StartOfPrefix(ps, qs, i - 1, m); }
  }

  lemma StartLast(ps: seq<Pair>, x: Pair, m: nat)
    requires PairsBounded(ps, m) && x.length <= m
    ensures PairsBounded(ps + [x], m) && Start(ps + [x], |ps| + 1, m) == Start(ps, |ps|, m) + Pow2(m - x.length)
  {
    StartOfPrefix(ps, ps + [x], |ps|, m);
  }

  /** Inserting a pair adds its share, wherever it goes. */
  lemma {:induction false} StartInsert(ps: seq<Pair>, x: Pair, m: nat)
    requires PairsBounded(ps, m) && x.length <= m
    ensures var r := InsertBy(ps, ByLength, x);
            PairsBounded(r, m) && |r| == |ps| + 1 && Start(r, |ps| + 1, m) == Start(ps, |ps|, m) + Pow2(m - x.length)
  {
    hide Start, Pow2, KeyBefore;
    if ps == [] || !KeyBefore(ByLength(x), ByLength(ps[|ps| - 1])) {
      StartLast(ps, x, m);
    } else {
      var init, last := ps[..|ps| - 1], ps[|ps| - 1];
      StartInsert(init, x, m);
      StartLast(InsertBy(init, ByLength, x), last, m);
      StartLast(init, last, m);
      assert init + [last] == ps;
    }
  }

  lemma {:induction false} PairsKraft(lengths: seq<nat>, m: nat, n: nat)
    requires n <= |lengths| && Bounded(lengths, m)
    ensures var ps := SortedPairs(lengths, n);
            PairsBounded(ps, m) && Start(ps, |ps|, m) == LengthKraft(lengths, m, n)
  {
    hide InsertBy, SortBy, Start, PairsBounded;
    if n == 0 {
      NoPairs(m);
    } else {
      PairsKraft(lengths, m, n - 1);
      if lengths[n - 1] > 0 {
        OnePairMore(lengths, n - 1);
        StartInsert(SortedPairs(lengths, n - 1), Pair(lengths[n - 1], n - 1), m);
      } else {
        assert PairsOf(lengths, n) == PairsOf(lengths, n - 1);
      }
    }
  }

  lemma NoPairs(m: nat)
    ensures SortBy<Pair>([], ByLength) == [] && PairsBounded([], m) && Start([], 0, m) == 0
  {
  }

  lemma OnePairMore(lengths: seq<nat>, k: nat)
    requires k < |lengths| && lengths[k] > 0
    ensures SortedPairs(lengths, k + 1) == InsertBy(SortedPairs(lengths, k), ByLength, Pair(lengths[k], k))
  {
    hide InsertBy;
    var front := PairsOf(lengths, k);
    assert PairsOf(lengths, k + 1)[..|front|] == front;
  }

  lemma PairOf(lengths: seq<nat>, codes: map<nat, Code>, s: nat) returns (i: nat)
    requires IsCanonical(lengths, codes) && s in codes
    ensures var ps := SortedPairs(lengths, |lengths|);
            i < |ps| && ps[i] == Pair(lengths[s], s) && codes[s] == Code(CodeAt(ps, i), ps[i].length)
  {
    var ps := SortedPairs(lengths, |lengths|);
    assert Pair(codes[s].length, s) in ps;
    i :| 0 <= i < |ps| && ps[i] == Pair(lengths[s], s);
  }

  /** Lengths that satisfy Kraft's inequality yield codes that fit their lengths. */
  lemma CanonicalFits(lengths: seq<nat>, codes: map<nat, Code>, m: nat)
    requires IsCanonical(lengths, codes) && Bounded(lengths, m)
    requires LengthKraft(lengths, m, |lengths|) <= Pow2(m)
    ensures CodesFit(codes)
  {
    PairsKraft(lengths, m, |lengths|);
    forall s | s in codes ensures 0 < codes[s].length && codes[s].code < Pow2(codes[s].length) {
      var i := PairOf(lengths, codes, s);
      CodeFits(SortedPairs(lengths, |lengths|), i, m);
    }
  }

  /** ... and no code is a prefix of another. */
  lemma CanonicalPrefixFree(lengths: seq<nat>, codes: map<nat, Code>, m: nat)
    requires IsCanonical(lengths, codes) && Bounded(lengths, m)
    requires LengthKraft(lengths, m, |lengths|) <= Pow2(m)
    ensures PrefixFree(codes)
  {
    hide IsCanonical, Word, LengthKraft, Bounded;
    forall s, t | s in codes && t in codes && Word(codes[s]) <= Word(codes[t]) ensures s == t {
      NoPrefix(lengths, codes, m, s, t);
    }
  }

  lemma NoPrefix(lengths: seq<nat>, codes: map<nat, Code>, m: nat, s: nat, t: nat)
    requires IsCanonical(lengths, codes) && Bounded(lengths, m)
    requires LengthKraft(lengths, m, |lengths|) <= Pow2(m)
    requires s in codes && t in codes && Word(codes[s]) <= Word(codes[t])
    ensures s == t
  {
    hide IsCanonical, LengthKraft, Bounded, SortedPairs, Kraftian, CodeAt, Bits;
    LengthsKraftian(lengths, m);
    var i := PairOf(lengths, codes, s);
    var j := PairOf(lengths, codes, t);
    NeitherPrefix(SortedPairs(lengths, |lengths|), i, j, m);
  }

  lemma LengthsKraftian(lengths: seq<nat>, m: nat)
    requires Bounded(lengths, m) && LengthKraft(lengths, m, |lengths|) <= Pow2(m)
    ensures Kraftian(SortedPairs(lengths, |lengths|), m) && Sorted(SortedPairs(lengths, |lengths|))
  {
    hide SortedPairs, LengthKraft, Start;
    PairsKraft(lengths, m, |lengths|);
    SortedPairsFacts(lengths, |lengths|);
  }

  lemma NeitherPrefix(ps: seq<Pair>, i: nat, j: nat, m: nat)
    requires i < |ps| && j < |ps| && Kraftian(ps, m) && Sorted(ps)
    requires Bits(CodeAt(ps, i), ps[i].length) <= Bits(CodeAt(ps, j), ps[j].length)
    ensures i == j
  {
    hide Kraftian, CodeAt, Bits;
    if i < j { EarlierIsNoPrefix(ps, i, j, m); }
    if j < i { LaterIsNoPrefix(ps, j, i, m); }
  }

  // The packer

  /** The bits of the data: its codes, one after the other. */
  function Stream(data: seq<nat>, codes: map<nat, Code>): seq<bool>
    requires forall x :: x in data ==> x in codes
  {
    if data == [] then [] else Stream(data[..|data| - 1], codes) + Word(codes[data[|data| - 1]])
  }

  /** The bits of a byte string. */
  function Unpack(bytes: seq<nat>): seq<bool> {
    if bytes == [] then [] else Unpack(bytes[..|bytes| - 1]) + Bits(bytes[|bytes| - 1], 8)
  }

  function Zeros(n: nat): (z: seq<bool>)
    ensures |z| == n
  {
    seq(n, _ => false)
  }

  lemma {:induction false} UnpackLength(bytes: seq<nat>)
    ensures |Unpack(bytes)| == 8 * |bytes|
  {
    if bytes != [] { UnpackLength(bytes[..|bytes| - 1]); }
  }

  lemma UnpackAppend(bytes: seq<nat>, b: nat)
    ensures Unpack(bytes + [b]) == Unpack(bytes) + Bits(b, 8)
  {
    assert (bytes + [b])[..|bytes|] == bytes;
  }

  lemma {:induction false} ZeroBits(n: nat)
    ensures Bits(0, n) == Zeros(n)
  {
    if n > 0 { ZeroBits(n - 1); }
  }

  datatype Encoded = Encoded(bytes: seq<nat>, bits: nat) | MissingCode(symbol: nat)

  /** One whole byte leaves the front of the buffer. */
  lemma EmitByte(buffer: nat, count: nat)
    requires 8 <= count && buffer < Pow2(count)
    ensures buffer / Pow2(count - 8) < 256
    ensures buffer % Pow2(count - 8) < Pow2(count - 8)
    ensures Bits(buffer, count) == Bits(buffer / Pow2(count - 8), 8) + Bits(buffer % Pow2(count - 8), count - 8)
  {
    hide Bits, Pow2;
    var u := Pow2(count - 8);
    PrefixFits(buffer, 8, count - 8);
    Pow2Eight();
    assert buffer == buffer / u * u + buffer % u;
    BitsJoin(buffer / u, 8, buffer % u, count - 8);
  }

  lemma Pow2Eight()
    ensures Pow2(8) == 256
  {
    assert Pow2(4) == 16;
    Pow2Add(4, 4);
  }

  lemma AppendCode(buffer: nat, count: nat, code: nat, length: nat)
    requires buffer < Pow2(count) && code < Pow2(length)
    ensures buffer * Pow2(length) + code < Pow2(count + length)
    ensures Bits(buffer * Pow2(length) + code, count + length) == Bits(buffer, count) + Bits(code, length)
  {
    Pow2Add(count, length);
    MulMono(buffer + 1, Pow2(count), Pow2(length));
    AddTimes(buffer, 1, Pow2(length));
    BitsJoin(buffer, count, code, length);
  }

  lemma PadByte(buffer: nat, count: nat)
    requires 0 < count < 8 && buffer < Pow2(count)
    ensures buffer * Pow2(8 - count) < 256
    ensures Bits(buffer * Pow2(8 - count), 8) == Bits(buffer, count) + Zeros(8 - count)
  {
    AppendCode(buffer, count, 0, 8 - count);
    ZeroBits(8 - count);
    assert Pow2(8) == 256;
  }

  /** `bits` are the bytes already out, then the `count` bits of the buffer. */
  ghost predicate Packed(out: seq<nat>, buffer: nat, count: nat, bits: seq<bool>) {
    && (forall k :: 0 <= k < |out| ==> out[k] < 256)
    && buffer < Pow2(count)
    && Unpack(out) + Bits(buffer, count) == bits
  }

  lemma PackCode(out: seq<nat>, buffer: nat, count: nat, bits: seq<bool>, code: Code)
    requires Packed(out, buffer, count, bits) && code.code < Pow2(code.length)
    ensures Packed(out, buffer * Pow2(code.length) + code.code, count + code.length, bits + Word(code))
  {
    AppendCode(buffer, count, code.code, code.length);
  }

  lemma PackByte(out: seq<nat>, buffer: nat, count: nat, bits: seq<bool>)
    requires Packed(out, buffer, count, bits) && count >= 8
    ensures Packed(out + [buffer / Pow2(count - 8)], buffer % Pow2(count - 8), count - 8, bits)
  {
    hide Bits, Pow2;
    EmitByte(buffer, count);
    UnpackAppend(out, buffer / Pow2(count - 8));
  }

  lemma PackPad(out: seq<nat>, buffer: nat, count: nat, bits: seq<bool>)
    requires Packed(out, buffer, count, bits) && 0 < count < 8
    ensures buffer * Pow2(8 - count) < 256
    ensures Unpack(out + [buffer * Pow2(8 - count)]) == bits + Zeros(8 - count)
  {
    hide Bits, Pow2;
    PadByte(buffer, count);
    UnpackAppend(out, buffer * Pow2(8 - count));
  }

  lemma StreamNext(data: seq<nat>, i: nat, codes: map<nat, Code>)
    requires i < |data| && (forall x :: x in data[..i] ==> x in codes) && data[i] in codes
    ensures forall x :: x in data[..i + 1] ==> x in codes
    ensures Stream(data[..i + 1], codes) == Stream(data[..i], codes) + Word(codes[data[i]])
  {
    assert data[..i + 1] == data[..i] + [data[i]];
    assert data[..i + 1][..i] == data[..i];
  }

  /** What the packer promises: every byte of the output is a byte, there are
      just enough of them, and they hold the codes followed by zeros. */
  ghost predicate Holds(bytes: seq<nat>, bits: nat, stream: seq<bool>) {
    && bits == |stream|
    && |bytes| == CeilDiv(bits, 8)
    && (forall i :: 0 <= i < |bytes| ==> bytes[i] < 256)
    && Unpack(bytes) == stream + Zeros(8 * |bytes| - bits)
  }

  lemma PackedWhole(out: seq<nat>, buffer: nat, stream: seq<bool>)
    requires Packed(out, buffer, 0, stream)
    ensures Holds(out, |stream|, stream)
  {
    UnpackLength(out);
    assert Bits(buffer, 0) == [];
    assert stream + Zeros(0) == stream;
  }

  lemma PackedPadded(out: seq<nat>, buffer: nat, count: nat, stream: seq<bool>)
    requires Packed(out, buffer, count, stream) && 0 < count < 8
    ensures Holds(out + [buffer * Pow2(8 - count)], |stream|, stream)
  {
    PackPad(out, buffer, count, stream);
    UnpackLength(out);
    assert |stream| == 8 * |out| + count;
  }

  /** huffman_encode: the codes are shifted into a bit buffer that is drained a
      byte at a time; the last byte is padded with zeros. */
  method Encode(data: seq<nat>, codes: map<nat, Code>) returns (r: Encoded)
    requires CodesFit(codes)
    ensures r.MissingCode? <==> exists x :: x in data && x !in codes
    ensures r.MissingCode? ==> r.symbol in data && r.symbol !in codes
    ensures r.Encoded? ==> Holds(r.bytes, r.bits, Stream(data, codes))
  {
    hide Pow2, Bits, Packed, Holds, Stream;
    var out: seq<nat> := [];
    var buffer: nat, count: nat, written: nat := 0, 0, 0;
    PackedEmpty(codes);
    for i := 0 to |data|
      invariant forall x :: x in data[..i] ==> x in codes
      invariant count < 8 && written == |Stream(data[..i], codes)|
      invariant Packed(out, buffer, count, Stream(data[..i], codes))
    {
      if data[i] !in codes {
        return MissingCode(data[i]);
      }
      var code, length := codes[data[i]].code, codes[data[i]].length;
      StreamNext(data, i, codes);
      PackCode(out, buffer, count, Stream(data[..i], codes), codes[data[i]]);
      buffer := buffer * Pow2(length) + code;
      count := count + length;
      written := written + length;
      while count >= 8
        invariant Packed(out, buffer, count, Stream(data[..i + 1], codes))
        decreases count
      {
        PackByte(out, buffer, count, Stream(data[..i + 1], codes));
        out := out + [buffer / Pow2(count - 8)];
        buffer := buffer % Pow2(count - 8);
        count := count - 8;
      }
    }
    assert data[..|data|] == data;
    if count > 0 {
      PackedPadded(out, buffer, count, Stream(data, codes));
      out := out + [buffer * Pow2(8 - count)];
    } else {
      PackedWhole(out, buffer, Stream(data, codes));
    }
    r := Encoded(out, written);
  }

  lemma PackedEmpty(codes: map<nat, Code>)
    ensures Stream([], codes) == [] && Packed([], 0, 0, [])
  {
  }

  // The reference reading: the shortest run of bits that is a code word

  function Lookup(codes: map<nat, Code>, word: seq<bool>, n: nat): (s: Option<nat>)
    ensures s.Some? ==> s.value < n && s.value in codes && Word(codes[s.value]) == word
    ensures s.None? ==> forall t: nat :: t < n && t in codes ==> Word(codes[t]) != word
  {
    if n == 0 then None
    else if n - 1 in codes && Word(codes[n - 1]) == word then Some(n - 1)
    else Lookup(codes, word, n - 1)
  }

  function NextSymbol(codes: map<nat, Code>, bits: seq<bool>, k: nat, n: nat): (s: Option<nat>)
    requires k <= |bits|
    ensures s.Some? ==> s.value in codes
    decreases |bits| - k
  {
    if Lookup(codes, bits[..k], n).Some? then Lookup(codes, bits[..k], n)
    else if k == |bits| then None
    else NextSymbol(codes, bits, k + 1, n)
  }

  /** Decode a bit string over symbols below n; None when it is not a run of codes. */
  function Decode(codes: map<nat, Code>, bits: seq<bool>, n: nat): Option<seq<nat>>
    decreases |bits|
  {
    if bits == [] then Some([])
    else
      var s := NextSymbol(codes, bits, 0, n);
      if s.None? || codes[s.value].length == 0 || codes[s.value].length > |bits| then None
      else
        var rest := Decode(codes, bits[codes[s.value].length..], n);
        if rest.None? then None else Some([s.value] + rest.value)
  }

  lemma {:induction false} FindsWord(codes: map<nat, Code>, s: nat, rest: seq<bool>, k: nat, n: nat)
    requires PrefixFree(codes) && s in codes && s < n
    requires k <= codes[s].length
    ensures NextSymbol(codes, Word(codes[s]) + rest, k, n) == Some(s)
    decreases codes[s].length - k
  {
    hide Bits;
    var w := Word(codes[s]);
    var bits := w + rest;
    assert |w| == codes[s].length;
    var found := Lookup(codes, bits[..k], n);
    assert bits[..k] <= w;
    assert k == codes[s].length ==> bits[..k] == w;
    if found.Some? {
      assert Word(codes[found.value]) <= w;
    } else {
      FindsWord(codes, s, rest, k + 1, n);
    }
  }

  lemma StreamLast(data: seq<nat>, codes: map<nat, Code>)
    requires data != [] && forall x :: x in data ==> x in codes
    ensures Stream(data, codes) == Stream(data[..|data| - 1], codes) + Word(codes[data[|data| - 1]])
  {
    hide Word;
  }

  lemma {:induction false} StreamFront(data: seq<nat>, codes: map<nat, Code>)
    requires data != [] && forall x :: x in data ==> x in codes
    ensures Stream(data, codes) == Word(codes[data[0]]) + Stream(data[1..], codes)
  {
    hide Word;
    StreamLast(data, codes);
    var init := data[..|data| - 1];
    if init == [] {
      assert Stream(data[1..], codes) == [];
    } else {
      hide Stream;
      StreamFront(init, codes);
      StreamLast(data[1..], codes);
      assert init[1..] == data[1..][..|data| - 2];
    }
  }

  /** Decoding undoes the concatenation of codes. */
  lemma {:induction false} DecodeStream(data: seq<nat>, codes: map<nat, Code>, n: nat)
    requires PrefixFree(codes) && CodesFit(codes)
    requires forall x :: x in data ==> x in codes && x < n
    ensures Decode(codes, Stream(data, codes), n) == Some(data)
  {
    hide Bits, PrefixFree, NextSymbol;
    if data != [] {
      var s := data[0];
      var w, rest := Word(codes[s]), Stream(data[1..], codes);
      StreamFront(data, codes);
      FindsWord(codes, s, rest, 0, n);
      DecodeStream(data[1..], codes, n);
      assert |w| == codes[s].length > 0;
      assert (w + rest)[|w|..] == rest;
      assert [s] + data[1..] == data;
    }
  }
}
