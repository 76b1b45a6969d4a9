/** Palette lines chosen tile by tile on a checkerboard: the in-place loops of
    tools/palette_algorithms.py and the whole-array passes of tools/gpu_quant.py,
    proved against one specification and shown to descend an energy.  Energies
    are exact reals; an array that a pass reads and rebinds is a `Plane`. */
module Checkerboard {
  import opened Arith

  /** The tiles seen through each palette line: the summed error of a tile, and
      output minus source for pixel (y, x) and colour channel. */
  datatype Board = Board(
    rows: nat, cols: nat, lines: nat, weight: real,
    error: (nat, nat, nat) -> real,                            // row, column, line
    residual: (nat, nat, nat, nat, nat, nat) -> int)           // line, row, column, y, x, channel

  datatype Tile = Tile(line: nat, row: nat, col: nat)
  datatype Side = Top | Bottom | Left | Right

  type Plane = seq<seq<nat>>

  /** Entry k of the 8 x 3 residuals along one side of a tile. */
  function Edge(b: Board, t: Tile, side: Side, k: nat): int {
    match side
    case Top => b.residual(t.line, t.row, t.col, 0, k / 3, k % 3)
    case Bottom => b.residual(t.line, t.row, t.col, 7, k / 3, k % 3)
    case Left => b.residual(t.line, t.row, t.col, k / 3, 0, k % 3)
    case Right => b.residual(t.line, t.row, t.col, k / 3, 7, k % 3)
  }

  function Square(x: int): int { x * x }

  /** Squared differences of two facing sides, over the first k entries. */
  function Gap(b: Board, t: Tile, side: Side, u: Tile, facing: Side, k: nat): int {
    if k == 0 then 0
    else Gap(b, t, side, u, facing, k - 1) + Square(Edge(b, t, side, k - 1) - Edge(b, u, facing, k - 1))
  }

  function Seam(b: Board, t: Tile, side: Side, u: Tile, facing: Side): real {
    b.weight * Gap(b, t, side, u, facing, 24) as real
  }

  /** A seam costs the same from either side. */
  lemma {:induction false} GapSymmetric(b: Board, t: Tile, side: Side, u: Tile, facing: Side, k: nat)
    ensures Gap(b, t, side, u, facing, k) == Gap(b, u, facing, t, side, k)
  {
    if k > 0 {
      GapSymmetric(b, t, side, u, facing, k - 1);
      SquareEven(Edge(b, t, side, k - 1) - Edge(b, u, facing, k - 1));
    }
  }

  lemma SquareEven(x: int)
    ensures Square(x) == Square(0 - x)
  {
  }

  function At(p: Plane, r: int, c: int): nat {
    if 0 <= r < |p| && 0 <= c < |p[r]| then p[r][c] else 0
  }

  function TileAt(p: Plane, r: nat, c: nat): Tile { Tile(At(p, r, c), r, c) }

  ghost predicate Shaped(b: Board, p: Plane) {
    && |p| == b.rows
    && forall r :: 0 <= r < b.rows ==> |p[r]| == b.cols && forall c :: 0 <= c < b.cols ==> p[r][c] < b.lines
  }

  // The choice at one tile

  /** Energy of giving tile (r, c) line l while its neighbours stay. */
  function Local(b: Board, p: Plane, r: nat, c: nat, l: nat): real {
    b.error(r, c, l)
    + (if r > 0 then Seam(b, Tile(l, r, c), Top, TileAt(p, r - 1, c), Bottom) else 0.0)
    + (if r + 1 < b.rows then Seam(b, Tile(l, r, c), Bottom, TileAt(p, r + 1, c), Top) else 0.0)
    + (if c > 0 then Seam(b, Tile(l, r, c), Left, TileAt(p, r, c - 1), Right) else 0.0)
    + (if c + 1 < b.cols then Seam(b, Tile(l, r, c), Right, TileAt(p, r, c + 1), Left) else 0.0)
  }

  function Energies(b: Board, p: Plane, r: nat, c: nat): (e: seq<real>)
    ensures |e| == b.lines
  {
    seq(b.lines, l requires 0 <= l < b.lines => Local(b, p, r, c, l))
  }

  /** Sum of squares over the first n of eight pixels and three channels. */
  ghost function Squares(d: (nat, nat) -> int, n: nat): int {
    if n == 0 then 0
    else Squares(d, n - 1) + d(n - 1, 0) * d(n - 1, 0) + d(n - 1, 1) * d(n - 1, 1) + d(n - 1, 2) * d(n - 1, 2)
  }

  /** The two facing rows or columns of a seam, pixel by pixel. */
  lemma {:induction false} GapIsSquares(b: Board, t: Tile, side: Side, u: Tile, facing: Side,
                                        d: (nat, nat) -> int, n: nat)
    requires forall x: nat, ch: nat :: x < n && ch < 3 ==>
      d(x, ch) == Edge(b, t, side, 3 * x + ch) - Edge(b, u, facing, 3 * x + ch)
    ensures Gap(b, t, side, u, facing, 3 * n) == Squares(d, n)
  {
    hide Edge;
    if n > 0 {
      GapIsSquares(b, t, side, u, facing, d, n - 1);
      var x := n - 1;
      GapThree(b, t, side, u, facing, x);
      assert d(x, 0) == Edge(b, t, side, 3 * x) - Edge(b, u, facing, 3 * x);
      assert d(x, 1) == Edge(b, t, side, 3 * x + 1) - Edge(b, u, facing, 3 * x + 1);
      assert d(x, 2) == Edge(b, t, side, 3 * x + 2) - Edge(b, u, facing, 3 * x + 2);
    }
  }

  lemma GapThree(b: Board, t: Tile, side: Side, u: Tile, facing: Side, x: nat)
    ensures var e := (k: nat) => Edge(b, t, side, k) - Edge(b, u, facing, k);
            Gap(b, t, side, u, facing, 3 * x + 3)
              == Gap(b, t, side, u, facing, 3 * x) + e(3 * x) * e(3 * x) + e(3 * x + 1) * e(3 * x + 1)
                 + e(3 * x + 2) * e(3 * x + 2)
  {
    hide Edge;
    assert Gap(b, t, side, u, facing, 3 * x + 1) == Gap(b, t, side, u, facing, 3 * x)
           + Square(Edge(b, t, side, 3 * x) - Edge(b, u, facing, 3 * x));
    assert Gap(b, t, side, u, facing, 3 * x + 2) == Gap(b, t, side, u, facing, 3 * x + 1)
           + Square(Edge(b, t, side, 3 * x + 1) - Edge(b, u, facing, 3 * x + 1));
  }

  /** A seam between tiles one above the other compares the last pixel row of the upper
      with the first row of the lower; one between neighbours in a row, the last
      column of the left with the first column of the right. */
  lemma SeamsFace(b: Board, t: Tile, u: Tile)
    ensures Seam(b, t, Bottom, u, Top)
         == b.weight * Squares((x: nat, ch: nat) => b.residual(t.line, t.row, t.col, 7, x, ch)
                                                    - b.residual(u.line, u.row, u.col, 0, x, ch), 8) as real
    ensures Seam(b, t, Right, u, Left)
         == b.weight * Squares((y: nat, ch: nat) => b.residual(t.line, t.row, t.col, y, 7, ch)
                                                    - b.residual(u.line, u.row, u.col, y, 0, ch), 8) as real
  {
    hide Gap, Squares;
    GapIsSquares(b, t, Bottom, u, Top, (x: nat, ch: nat) => b.residual(t.line, t.row, t.col, 7, x, ch)
                                                            - b.residual(u.line, u.row, u.col, 0, x, ch), 8);
    GapIsSquares(b, t, Right, u, Left, (y: nat, ch: nat) => b.residual(t.line, t.row, t.col, y, 7, ch)
                                                            - b.residual(u.line, u.row, u.col, y, 0, ch), 8);
  }

  /** numpy's argmin: the first of the least values. */
  function ArgMin(e: seq<real>): (m: nat)
    requires e != []
    ensures m < |e| && forall k :: 0 <= k < |e| ==> e[m] <= e[k]
    ensures forall k :: 0 <= k < m ==> e[m] < e[k]
  {
    if |e| == 1 then 0
    else
      var m := ArgMin(e[..|e| - 1]);
      assert forall k :: 0 <= k < |e| - 1 ==> e[..|e| - 1][k] == e[k];
      if e[|e| - 1] < e[m] then |e| - 1 else m
  }

  // Passes, as functions of the whole old plane

  predicate OnTurn(parity: nat, r: nat, c: nat) { (r + c) % 2 == parity }

  function NextLine(b: Board, p: Plane, parity: nat, r: nat, c: nat): nat
    requires b.lines > 0
  {
    if OnTurn(parity, r, c) then ArgMin(Energies(b, p, r, c)) else At(p, r, c)
  }

  /** Every tile of one parity chooses at once, looking at the old plane. */
  function HalfPass(b: Board, p: Plane, parity: nat): Plane
    requires b.lines > 0
  {
    seq(b.rows, r requires 0 <= r < b.rows =>
      seq(b.cols, c requires 0 <= c < b.cols => NextLine(b, p, parity, r, c)))
  }

  function Passes(b: Board, p: Plane, n: nat): Plane
    requires b.lines > 0
  {
    if n == 0 then p else HalfPass(b, HalfPass(b, Passes(b, p, n - 1), 0), 1)
  }

  function OwnLine(b: Board, r: nat, c: nat): nat
    requires b.lines > 0
  {
    ArgMin(seq(b.lines, l requires 0 <= l < b.lines => b.error(r, c, l)))
  }

  /** Each tile's own best line. */
  function Independent(b: Board): Plane
    requires b.lines > 0
  {
    seq(b.rows, r requires 0 <= r < b.rows =>
      seq(b.cols, c requires 0 <= c < b.cols => OwnLine(b, r, c)))
  }

  /** A tile that chooses alone takes the line with the least error, the first of several. */
  lemma OwnLineIsLeast(b: Board, r: nat, c: nat, l: nat)
    requires r < b.rows && c < b.cols && l < b.lines
    ensures var own := Independent(b)[r][c];
            own < b.lines && b.error(r, c, own) <= b.error(r, c, l)
            && (l < own ==> b.error(r, c, own) < b.error(r, c, l))
  {
    var errors := seq(b.lines, k requires 0 <= k < b.lines => b.error(r, c, k));
    assert errors[l] == b.error(r, c, l);
  }

  function Assignment(b: Board, iterations: int): Plane
    requires b.lines > 0
  {
    if b.weight > 0.0 && b.lines > 1 then Passes(b, Independent(b), Max(1, iterations)) else Independent(b)
  }

  lemma HalfPassShaped(b: Board, p: Plane, parity: nat)
    requires b.lines > 0 && Shaped(b, p)
    ensures Shaped(b, HalfPass(b, p, parity))
  {
  }

  // The energy of a plane

  /** A tile's error and the seams to its left and above: every tile and every
      seam of the plane once. */
  function TileCost(b: Board, p: Plane, r: nat, c: nat): real {
    b.error(r, c, At(p, r, c)) + (if r > 0 then Below(b, p, r - 1, c) else 0.0)
    + (if c > 0 then Beside(b, p, r, c - 1) else 0.0)
  }

  function Below(b: Board, p: Plane, r: nat, c: nat): real {
    Seam(b, TileAt(p, r, c), Bottom, TileAt(p, r + 1, c), Top)
  }

  function Beside(b: Board, p: Plane, r: nat, c: nat): real {
    Seam(b, TileAt(p, r, c), Right, TileAt(p, r, c + 1), Left)
  }

  function RowEnergy(b: Board, p: Plane, r: nat, n: nat): real {
    if n == 0 then 0.0 else RowEnergy(b, p, r, n - 1) + TileCost(b, p, r, n - 1)
  }

  function EnergyTo(b: Board, p: Plane, n: nat): real {
    if n == 0 then 0.0 else EnergyTo(b, p, n - 1) + RowEnergy(b, p, n - 1, b.cols)
  }

  function Energy(b: Board, p: Plane): real { EnergyTo(b, p, b.rows) }

  // The same energy, gathered by parity

  /** What a tile accounts for when every seam is charged to its end of one parity. */
  function Share(b: Board, p: Plane, parity: nat, r: nat, c: nat): real {
    if OnTurn(parity, r, c) then Local(b, p, r, c, At(p, r, c)) else b.error(r, c, At(p, r, c))
  }

  function RowShare(b: Board, p: Plane, parity: nat, r: nat, n: nat): real {
    if n == 0 then 0.0 else RowShare(b, p, parity, r, n - 1) + Share(b, p, parity, r, n - 1)
  }

  function ShareTo(b: Board, p: Plane, parity: nat, n: nat): real {
    if n == 0 then 0.0 else ShareTo(b, p, parity, n - 1) + RowShare(b, p, parity, n - 1, b.cols)
  }

  /** Seams from row r down to row r + 1 whose upper end has the parity. */
  function RowBelow(b: Board, p: Plane, parity: nat, r: nat, n: nat): real {
    if n == 0 then 0.0
    else RowBelow(b, p, parity, r, n - 1) + if OnTurn(parity, r, n - 1) then Below(b, p, r, n - 1) else 0.0
  }

  lemma LocalSeams(b: Board, p: Plane, r: nat, c: nat)
    ensures Local(b, p, r, c, At(p, r, c))
         == b.error(r, c, At(p, r, c)) + (if r > 0 then Below(b, p, r - 1, c) else 0.0)
            + (if r + 1 < b.rows then Below(b, p, r, c) else 0.0)
            + (if c > 0 then Beside(b, p, r, c - 1) else 0.0) + (if c + 1 < b.cols then Beside(b, p, r, c) else 0.0)
  {
    hide Gap, At;
    if r > 0 { GapSymmetric(b, TileAt(p, r, c), Top, TileAt(p, r - 1, c), Bottom, 24); }
    if c > 0 { GapSymmetric(b, TileAt(p, r, c), Left, TileAt(p, r, c - 1), Right, 24); }
  }

  lemma {:induction false} RowByParity(b: Board, p: Plane, parity: nat, r: nat, n: nat)
    requires n <= b.cols && parity < 2
    ensures RowEnergy(b, p, r, n)
         == RowShare(b, p, parity, r, n) + (if r > 0 then RowBelow(b, p, parity, r - 1, n) else 0.0)
            - (if r + 1 < b.rows then RowBelow(b, p, parity, r, n) else 0.0)
            - (if 0 < n < b.cols && OnTurn(parity, r, n - 1) then Beside(b, p, r, n - 1) else 0.0)
  {
    hide Local, Below, Beside, At, TileCost, Share;
    if n > 0 {
      RowByParity(b, p, parity, r, n - 1);
      CostByParity(b, p, parity, r, n - 1);
    }
  }

  /** One tile's cost against its share: the seams it passes on or takes over. */
  lemma CostByParity(b: Board, p: Plane, parity: nat, r: nat, c: nat)
    requires parity < 2
    ensures OnTurn(parity, r, c) ==>
      TileCost(b, p, r, c) == Share(b, p, parity, r, c) - (if r + 1 < b.rows then Below(b, p, r, c) else 0.0)
                              - (if c + 1 < b.cols then Beside(b, p, r, c) else 0.0)
    ensures !OnTurn(parity, r, c) ==>
      TileCost(b, p, r, c) == Share(b, p, parity, r, c) + (if r > 0 then Below(b, p, r - 1, c) else 0.0)
                              + (if c > 0 then Beside(b, p, r, c - 1) else 0.0)
    ensures r > 0 ==> OnTurn(parity, r - 1, c) == !OnTurn(parity, r, c)
    ensures c > 0 ==> OnTurn(parity, r, c - 1) == !OnTurn(parity, r, c)
  {
    LocalSeams(b, p, r, c);
    hide Local, Below, Beside, At;
  }

  lemma {:induction false} EnergyByParity(b: Board, p: Plane, parity: nat, n: nat)
    requires n <= b.rows && parity < 2
    ensures EnergyTo(b, p, n)
         == ShareTo(b, p, parity, n) - if 0 < n < b.rows then RowBelow(b, p, parity, n - 1, b.cols) else 0.0
  {
    hide RowEnergy, RowShare, RowBelow;
    if n > 0 {
      EnergyByParity(b, p, parity, n - 1);
      RowByParity(b, p, parity, n - 1, b.cols);
    }
  }

  // Descent

  /** Two planes that agree on every tile whose turn it is not. */
  ghost predicate AgreeOff(b: Board, p: Plane, q: Plane, parity: nat) {
    forall r: nat, c: nat :: r < b.rows && c < b.cols && !OnTurn(parity, r, c) ==> At(p, r, c) == At(q, r, c)
  }

  lemma LocalIgnoresTurn(b: Board, p: Plane, q: Plane, parity: nat, r: nat, c: nat, l: nat)
    requires AgreeOff(b, p, q, parity) && r < b.rows && c < b.cols && OnTurn(parity, r, c)
    ensures Local(b, p, r, c, l) == Local(b, q, r, c, l)
  {
    hide Seam, At;
    if r > 0 { assert !OnTurn(parity, r - 1, c); }
    assert !OnTurn(parity, r + 1, c);
    if c > 0 { assert !OnTurn(parity, r, c - 1); }
    assert !OnTurn(parity, r, c + 1);
  }

  lemma ShareLeast(b: Board, p: Plane, q: Plane, parity: nat, r: nat, c: nat)
    requires b.lines > 0 && Shaped(b, q) && AgreeOff(b, p, q, parity) && r < b.rows && c < b.cols
    ensures Share(b, HalfPass(b, p, parity), parity, r, c) <= Share(b, q, parity, r, c)
  {
    hide Local, OnTurn;
    var h := HalfPass(b, p, parity);
    if OnTurn(parity, r, c) {
      assert AgreeOff(b, p, h, parity);
      LocalIgnoresTurn(b, p, h, parity, r, c, At(h, r, c));
      LocalIgnoresTurn(b, p, q, parity, r, c, At(q, r, c));
      assert Energies(b, p, r, c)[At(h, r, c)] <= Energies(b, p, r, c)[At(q, r, c)];
    }
  }

  lemma {:induction false} RowShareLeast(b: Board, p: Plane, q: Plane, parity: nat, r: nat, n: nat)
    requires b.lines > 0 && Shaped(b, q) && AgreeOff(b, p, q, parity) && r < b.rows && n <= b.cols
    ensures RowShare(b, HalfPass(b, p, parity), parity, r, n) <= RowShare(b, q, parity, r, n)
  {
    hide HalfPass, Share;
    if n > 0 {
      RowShareLeast(b, p, q, parity, r, n - 1);
      ShareLeast(b, p, q, parity, r, n - 1);
    }
  }

  lemma {:induction false} ShareToLeast(b: Board, p: Plane, q: Plane, parity: nat, n: nat)
    requires b.lines > 0 && Shaped(b, q) && AgreeOff(b, p, q, parity) && n <= b.rows
    ensures ShareTo(b, HalfPass(b, p, parity), parity, n) <= ShareTo(b, q, parity, n)
  {
    hide HalfPass, RowShare;
    if n > 0 {
      ShareToLeast(b, p, q, parity, n - 1);
      RowShareLeast(b, p, q, parity, n - 1, b.cols);
    }
  }

  /** A half-pass reaches the least energy any change of that parity can reach. */
  lemma HalfPassIsLeast(b: Board, p: Plane, q: Plane, parity: nat)
    requires b.lines > 0 && parity < 2 && Shaped(b, q) && AgreeOff(b, p, q, parity)
    ensures Energy(b, HalfPass(b, p, parity)) <= Energy(b, q)
  {
    hide HalfPass, EnergyTo, ShareTo;
    EnergyByParity(b, HalfPass(b, p, parity), parity, b.rows);
    EnergyByParity(b, q, parity, b.rows);
    ShareToLeast(b, p, q, parity, b.rows);
  }

  /** So no half-pass, and no number of passes, raises the energy. */
  lemma {:induction false} PassesDescend(b: Board, p: Plane, n: nat, m: nat)
    requires b.lines > 0 && Shaped(b, p) && n <= m
    ensures Shaped(b, Passes(b, p, n)) && Shaped(b, Passes(b, p, m))
    ensures Energy(b, Passes(b, p, m)) <= Energy(b, Passes(b, p, n))
    decreases m
  {
    hide HalfPass, Energy, Shaped, AgreeOff;
    if m > 0 {
      PassesDescend(b, p, if n < m then n else m - 1, m - 1);
      var q := Passes(b, p, m - 1);
      var h := HalfPass(b, q, 0);
      AgreeSelf(b, q, 0);
      AgreeSelf(b, h, 1);
      HalfPassShaped(b, q, 0);
      HalfPassShaped(b, h, 1);
      HalfPassIsLeast(b, q, q, 0);
      HalfPassIsLeast(b, h, h, 1);
    }
  }

  lemma AgreeSelf(b: Board, p: Plane, parity: nat)
    ensures AgreeOff(b, p, p, parity)
  {
  }

  function Recolour(p: Plane, r: nat, c: nat, l: nat): Plane
    requires r < |p| && c < |p[r]|
  {
    var row: seq<nat> := p[r][c := l];
    p[r := row]
  }

  /** A plane both half-passes leave alone cannot be improved at any one tile. */
  lemma StableIsLocalMinimum(b: Board, p: Plane, r: nat, c: nat, l: nat)
    requires b.lines > 0 && Shaped(b, p) && HalfPass(b, p, 0) == p == HalfPass(b, p, 1)
    requires r < b.rows && c < b.cols && l < b.lines
    ensures Energy(b, p) <= Energy(b, Recolour(p, r, c, l))
  {
    hide HalfPass, Energy;
    var parity, q := (r + c) % 2, Recolour(p, r, c, l);
    assert Shaped(b, q);
    assert AgreeOff(b, p, q, parity);
    HalfPassIsLeast(b, p, q, parity);
  }

  // coherent_assign_idx: one tile after another, in place

  ghost predicate Shows(a: array2<nat>, p: Plane)
    reads a
  {
    && |p| == a.Length0 && (forall r :: 0 <= r < a.Length0 ==> |p[r]| == a.Length1)
    && forall r, c :: 0 <= r < a.Length0 && 0 <= c < a.Length1 ==> a[r, c] == p[r][c]
  }

  function Added(e: seq<real>, b: Board, r: nat, c: nat, side: Side, u: Tile, facing: Side): (s: seq<real>)
    requires |e| == b.lines
    ensures |s| == |e| && forall l :: 0 <= l < |e| ==> s[l] == e[l] + Seam(b, Tile(l, r, c), side, u, facing)
  {
    seq(|e|, l requires 0 <= l < |e| => e[l] + Seam(b, Tile(l, r, c), side, u, facing))
  }

  /** The energies of one tile, accumulated from the neighbours' current lines. */
  method TileEnergies(b: Board, a: array2<nat>, row: nat, col: nat, ghost p: Plane) returns (energy: seq<real>)
    requires row < a.Length0 == b.rows && col < a.Length1 == b.cols
    requires |p| == b.rows && forall r :: 0 <= r < b.rows ==> |p[r]| == b.cols
    requires row > 0 ==> a[row - 1, col] == p[row - 1][col]
    requires row + 1 < b.rows ==> a[row + 1, col] == p[row + 1][col]
    requires col > 0 ==> a[row, col - 1] == p[row][col - 1]
    requires col + 1 < b.cols ==> a[row, col + 1] == p[row][col + 1]
    ensures energy == Energies(b, p, row, col)
  {
    hide Seam;
    energy := seq(b.lines, l requires 0 <= l < b.lines => b.error(row, col, l));
    if row > 0 { energy := Added(energy, b, row, col, Top, Tile(a[row - 1, col], row - 1, col), Bottom); }
    if row + 1 < b.rows { energy := Added(energy, b, row, col, Bottom, Tile(a[row + 1, col], row + 1, col), Top); }
    if col > 0 { energy := Added(energy, b, row, col, Left, Tile(a[row, col - 1], row, col - 1), Right); }
    if col + 1 < b.cols { energy := Added(energy, b, row, col, Right, Tile(a[row, col + 1], row, col + 1), Left); }
  }

  /** What the in-place pass has written when it reaches tile (row, col). */
  ghost predicate Written(b: Board, a: array2<nat>, p: Plane, parity: nat, row: nat, col: nat)
    requires b.lines > 0 && a.Length0 == b.rows && a.Length1 == b.cols
    reads a
  {
    forall r, c :: 0 <= r < b.rows && 0 <= c < b.cols ==>
      a[r, c] == if r < row || (r == row && c < col) then NextLine(b, p, parity, r, c) else At(p, r, c)
  }

  method UpdateTile(b: Board, a: array2<nat>, parity: nat, row: nat, col: nat, ghost p: Plane)
    requires b.lines > 0 && parity < 2 && a.Length0 == b.rows && a.Length1 == b.cols
    requires |p| == b.rows && forall r :: 0 <= r < b.rows ==> |p[r]| == b.cols
    requires row < b.rows && col < b.cols && OnTurn(parity, row, col) && Written(b, a, p, parity, row, col)
    modifies a
    ensures Written(b, a, p, parity, row, col + 1)
  {
    hide Energies, Seam;
    NeighboursKeep(b, a, p, parity, row, col);
    var energy := TileEnergies(b, a, row, col, p);
    a[row, col] := ArgMin(energy);
  }

  method HalfPassInPlace(b: Board, a: array2<nat>, parity: nat, ghost p: Plane)
    requires b.lines > 0 && parity < 2 && a.Length0 == b.rows && a.Length1 == b.cols && Shows(a, p)
    modifies a
    ensures Shows(a, HalfPass(b, p, parity))
  {
    hide Energies, Seam, HalfPass, Written, NextLine;
    NoneWritten(b, a, p, parity);
    for row := 0 to b.rows
      invariant Written(b, a, p, parity, row, 0)
    {
      var col := (parity + row) % 2;
      SkipsAhead(b, a, p, parity, row, 0, col);
      while col < b.cols
        invariant OnTurn(parity, row, col)
        invariant Written(b, a, p, parity, row, if col < b.cols then col else b.cols)
      {
        UpdateTile(b, a, parity, row, col, p);
        SkipsAhead(b, a, p, parity, row, col + 1, col + 2);
        col := col + 2;
      }
      RowWritten(b, a, p, parity, row);
    }
    AllWritten(b, a, p, parity);
  }

  lemma NoneWritten(b: Board, a: array2<nat>, p: Plane, parity: nat)
    requires b.lines > 0 && a.Length0 == b.rows && a.Length1 == b.cols && Shows(a, p)
    ensures Written(b, a, p, parity, 0, 0)
    ensures |p| == b.rows && forall r :: 0 <= r < b.rows ==> |p[r]| == b.cols
  {
    hide NextLine;
  }

  lemma RowWritten(b: Board, a: array2<nat>, p: Plane, parity: nat, row: nat)
    requires b.lines > 0 && a.Length0 == b.rows && a.Length1 == b.cols && Written(b, a, p, parity, row, b.cols)
    ensures Written(b, a, p, parity, row + 1, 0)
  {
    hide NextLine;
  }

  lemma AllWritten(b: Board, a: array2<nat>, p: Plane, parity: nat)
    requires b.lines > 0 && a.Length0 == b.rows && a.Length1 == b.cols && Written(b, a, p, parity, b.rows, 0)
    ensures Shows(a, HalfPass(b, p, parity))
  {
    hide NextLine;
  }

  /** A tile off turn is skipped and keeps its line. */
  lemma SkipsAhead(b: Board, a: array2<nat>, p: Plane, parity: nat, row: nat, from: nat, to: nat)
    requires b.lines > 0 && parity < 2 && a.Length0 == b.rows && a.Length1 == b.cols && row < b.rows
    requires from <= to <= from + 1 && (to == from + 1 ==> !OnTurn(parity, row, from))
    requires Written(b, a, p, parity, row, if from < b.cols then from else b.cols)
    ensures Written(b, a, p, parity, row, if to < b.cols then to else b.cols)
  {
    hide Energies, OnTurn;
  }

  /** The neighbours of a tile on turn are off turn, so they still show the old plane. */
  lemma NeighboursKeep(b: Board, a: array2<nat>, p: Plane, parity: nat, row: nat, col: nat)
    requires b.lines > 0 && parity < 2 && a.Length0 == b.rows && a.Length1 == b.cols
    requires |p| == b.rows && forall r :: 0 <= r < b.rows ==> |p[r]| == b.cols
    requires row < b.rows && col < b.cols && OnTurn(parity, row, col) && Written(b, a, p, parity, row, col)
    ensures row > 0 ==> a[row - 1, col] == p[row - 1][col]
    ensures row + 1 < b.rows ==> a[row + 1, col] == p[row + 1][col]
    ensures col > 0 ==> a[row, col - 1] == p[row][col - 1]
    ensures col + 1 < b.cols ==> a[row, col + 1] == p[row][col + 1]
  {
    hide Energies;
  }

  method OwnBest(b: Board) returns (a: array2<nat>)
    requires b.lines > 0
    ensures fresh(a) && a.Length0 == b.rows && a.Length1 == b.cols && Shows(a, Independent(b))
  {
    hide OwnLine;
    a := new nat[b.rows, b.cols];
    forall r, c | 0 <= r < b.rows && 0 <= c < b.cols {
      a[r, c] := OwnLine(b, r, c);
    }
  }

  method CoherentAssignIdx(b: Board, iterations: int) returns (a: array2<nat>)
    requires b.lines > 0
    ensures fresh(a) && Shows(a, Assignment(b, iterations))
  {
    hide HalfPass, Shows, Independent;
    a := OwnBest(b);
    if b.weight > 0.0 && b.lines > 1 {
      for i := 0 to Max(1, iterations)
        invariant a.Length0 == b.rows && a.Length1 == b.cols
        invariant Shows(a, Passes(b, Independent(b), i))
      {
        HalfPassInPlace(b, a, 0, Passes(b, Independent(b), i));
        HalfPassInPlace(b, a, 1, HalfPass(b, Passes(b, Independent(b), i), 0));
      }
    }
  }

  // _coherent_assignment: every tile at once

  /** The energy volume after the four shifted additions. */
  method WholeEnergies(b: Board, p: Plane) returns (energy: array3<real>)
    requires |p| == b.rows && forall r :: 0 <= r < b.rows ==> |p[r]| == b.cols
    ensures fresh(energy)
    ensures energy.Length0 == b.rows && energy.Length1 == b.cols && energy.Length2 == b.lines
    ensures forall r, c, l :: 0 <= r < b.rows && 0 <= c < b.cols && 0 <= l < b.lines ==>
      energy[r, c, l] == Local(b, p, r, c, l)
  {
    hide Seam;
    energy := new real[b.rows, b.cols, b.lines];
    forall r, c, l | 0 <= r < b.rows && 0 <= c < b.cols && 0 <= l < b.lines {
      energy[r, c, l] := b.error(r, c, l);
    }
    forall r, c, l | 1 <= r < b.rows && 0 <= c < b.cols && 0 <= l < b.lines {
      energy[r, c, l] := energy[r, c, l] + Seam(b, Tile(l, r, c), Top, TileAt(p, r - 1, c), Bottom);
    }
    forall r, c, l | 0 <= r < b.rows - 1 && 0 <= c < b.cols && 0 <= l < b.lines {
      energy[r, c, l] := energy[r, c, l] + Seam(b, Tile(l, r, c), Bottom, TileAt(p, r + 1, c), Top);
    }
    forall r, c, l | 0 <= r < b.rows && 1 <= c < b.cols && 0 <= l < b.lines {
      energy[r, c, l] := energy[r, c, l] + Seam(b, Tile(l, r, c), Left, TileAt(p, r, c - 1), Right);
    }
    forall r, c, l | 0 <= r < b.rows && 0 <= c < b.cols - 1 && 0 <= l < b.lines {
      energy[r, c, l] := energy[r, c, l] + Seam(b, Tile(l, r, c), Right, TileAt(p, r, c + 1), Left);
    }
  }

  /** candidate = argmin over lines; where(checkerboard == parity, candidate, assignment). */
  method Choose(b: Board, p: Plane, parity: nat, energy: array3<real>) returns (q: Plane)
    requires b.lines > 0 && |p| == b.rows && forall r :: 0 <= r < b.rows ==> |p[r]| == b.cols
    requires energy.Length0 == b.rows && energy.Length1 == b.cols && energy.Length2 == b.lines
    requires forall r, c, l :: 0 <= r < b.rows && 0 <= c < b.cols && 0 <= l < b.lines ==>
      energy[r, c, l] == Local(b, p, r, c, l)
    ensures q == HalfPass(b, p, parity)
  {
    hide Local;
    q := [];
    for r := 0 to b.rows
      invariant |q| == r && forall i :: 0 <= i < r ==> q[i] == HalfPass(b, p, parity)[i]
    {
      var line: seq<nat> := [];
      for c := 0 to b.cols
        invariant |line| == c && forall j :: 0 <= j < c ==> line[j] == NextLine(b, p, parity, r, j)
      {
        var e := seq(b.lines, l requires 0 <= l < b.lines reads energy => energy[r, c, l]);
        assert e == Energies(b, p, r, c);
        line := line + [if (r + c) % 2 == parity then ArgMin(e) else p[r][c]];
      }
      q := q + [line];
    }
  }

  method CoherentAssignment(b: Board, iterations: int) returns (p: Plane)
    requires b.lines > 0
    ensures p == Passes(b, Independent(b), Max(1, iterations))
  {
    hide HalfPass, Local;
    p := Independent(b);
    for i := 0 to Max(1, iterations)
      invariant p == Passes(b, Independent(b), i)
      invariant |p| == b.rows && forall r :: 0 <= r < b.rows ==> |p[r]| == b.cols
    {
      for parity := 0 to 2
        invariant p == (if parity == 0 then Passes(b, Independent(b), i)
                        else if parity == 1 then HalfPass(b, Passes(b, Independent(b), i), 0)
                        else Passes(b, Independent(b), i + 1))
        invariant |p| == b.rows && forall r :: 0 <= r < b.rows ==> |p[r]| == b.cols
      {
        var energy := WholeEnergies(b, p);
        var q := Choose(b, p, parity, energy);
        HalfPassLengths(b, p, parity);
        p := q;
      }
    }
  }

  lemma HalfPassLengths(b: Board, p: Plane, parity: nat)
    requires b.lines > 0
    ensures |HalfPass(b, p, parity)| == b.rows
    ensures forall r :: 0 <= r < b.rows ==> |HalfPass(b, p, parity)[r]| == b.cols
  {
  }

  /** assign_idx_one with a coherent shape: the same plane as coherent_assign_idx. */
  method AssignIdxOne(b: Board, iterations: int) returns (p: Plane)
    requires b.lines > 0
    ensures p == Assignment(b, iterations)
  {
    hide Passes, Independent;
    if b.weight > 0.0 && b.lines > 1 {
      p := CoherentAssignment(b, iterations);
    } else {
      p := Independent(b);
    }
  }

  /** The chosen plane costs no more than choosing every tile alone. */
  lemma AssignmentDescends(b: Board, iterations: int)
    requires b.lines > 0
    ensures Shaped(b, Assignment(b, iterations))
    ensures Energy(b, Assignment(b, iterations)) <= Energy(b, Independent(b))
  {
    hide Energy, HalfPass;
    assert Shaped(b, Independent(b));
    PassesDescend(b, Independent(b), 0, Max(1, iterations));
  }
}
