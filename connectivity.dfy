/** `hasDisconnectedComponents`: mark the bottom-centre cell, then sweep the
    interior box again and again, marking every metal face neighbour of a
    marked metal cell, until a sweep marks nothing new; the design is
    disconnected when some interior metal cell is left unmarked. The marks
    live in `disconnectedComponentTable`; a ghost set of cells mirrors them. */
module Connectivity {
  import opened Lattice
  import opened VoxelGrid

  datatype Cell = Cell(x: int, y: int, z: int)

  /** The cell the search starts from, (N/2, 0, N/2). */
  function Seed(n: int): Cell {
    Cell(n / 2, 0, n / 2)
  }

  predicate CellInLattice(n: int, c: Cell) {
    InLattice(n, c.x, c.y, c.z)
  }

  /** A metal cell of the interior box. */
  predicate Open(s: seq<Byte>, n: int, airPadding: int, c: Cell)
    requires ValidConfig(n, airPadding) && IsDesign(s, n)
  {
    IsInterior(n, airPadding, c.x, c.y, c.z) && At(s, n, c.x, c.y, c.z) == 1
  }

  /** `d` is one of the six face neighbours of `c`. */
  predicate Adjacent(c: Cell, d: Cell) {
    d == Cell(c.x + 1, c.y, c.z) || d == Cell(c.x, c.y + 1, c.z) || d == Cell(c.x, c.y, c.z + 1) ||
    d == Cell(c.x - 1, c.y, c.z) || d == Cell(c.x, c.y - 1, c.z) || d == Cell(c.x, c.y, c.z - 1)
  }

  /** A walk from the seed through face-adjacent metal cells of the interior. */
  ghost predicate IsPath(s: seq<Byte>, n: int, airPadding: int, p: seq<Cell>)
    requires ValidConfig(n, airPadding) && IsDesign(s, n)
  {
    |p| > 0 && p[0] == Seed(n) &&
    (forall i :: 0 <= i < |p| ==> Open(s, n, airPadding, p[i])) &&
    (forall i :: 0 < i < |p| ==> Adjacent(p[i - 1], p[i]))
  }

  ghost predicate Reachable(s: seq<Byte>, n: int, airPadding: int, c: Cell)
    requires ValidConfig(n, airPadding) && IsDesign(s, n)
  {
    exists p :: IsPath(s, n, airPadding, p) && p[|p| - 1] == c
  }

  /** Every metal cell of the interior is reachable from the seed. */
  ghost predicate Connected(s: seq<Byte>, n: int, airPadding: int)
    requires ValidConfig(n, airPadding) && IsDesign(s, n)
  {
    forall c :: Open(s, n, airPadding, c) ==> Reachable(s, n, airPadding, c)
  }

  // ---------------------------------------------------------------------------
  // Reachability

  lemma SeedReachable(s: seq<Byte>, n: int, airPadding: int)
    requires ValidConfig(n, airPadding) && IsDesign(s, n) && Open(s, n, airPadding, Seed(n))
    ensures Reachable(s, n, airPadding, Seed(n))
  {
    assert IsPath(s, n, airPadding, [Seed(n)]);
  }

  lemma ReachStep(s: seq<Byte>, n: int, airPadding: int, c: Cell, d: Cell)
    requires ValidConfig(n, airPadding) && IsDesign(s, n)
    requires Reachable(s, n, airPadding, c) && Adjacent(c, d) && Open(s, n, airPadding, d)
    ensures Reachable(s, n, airPadding, d)
  {
    var p :| IsPath(s, n, airPadding, p) && p[|p| - 1] == c;
    var q := p + [d];
    assert forall i :: 0 <= i < |p| ==> q[i] == p[i];
    assert IsPath(s, n, airPadding, q);
  }

  /** Every open neighbour of `c` is in `m`. */
  ghost predicate Saturated(s: seq<Byte>, n: int, airPadding: int, m: set<Cell>, c: Cell)
    requires ValidConfig(n, airPadding) && IsDesign(s, n)
  {
    forall d :: Adjacent(c, d) && Open(s, n, airPadding, d) ==> d in m
  }

  /** No open cell of `m` has an open neighbour outside `m`. */
  ghost predicate Closed(s: seq<Byte>, n: int, airPadding: int, m: set<Cell>)
    requires ValidConfig(n, airPadding) && IsDesign(s, n)
  {
    forall c :: c in m && Open(s, n, airPadding, c) ==> Saturated(s, n, airPadding, m, c)
  }

  /** Every cell of `m` is the seed or reachable from it. */
  ghost predicate Sound(s: seq<Byte>, n: int, airPadding: int, m: set<Cell>)
    requires ValidConfig(n, airPadding) && IsDesign(s, n)
  {
    forall c :: c in m ==> c == Seed(n) || Reachable(s, n, airPadding, c)
  }

  /** A closed set holding the seed holds every reachable cell. */
  lemma {:induction false} ClosedHoldsReachable(s: seq<Byte>, n: int, airPadding: int, m: set<Cell>, c: Cell)
    requires ValidConfig(n, airPadding) && IsDesign(s, n)
    requires Seed(n) in m && Closed(s, n, airPadding, m) && Reachable(s, n, airPadding, c)
    ensures c in m
  {
    var p :| IsPath(s, n, airPadding, p) && p[|p| - 1] == c;
    var i := 0;
    while i < |p| - 1
      invariant 0 <= i < |p| && p[i] in m
    {
      assert Open(s, n, airPadding, p[i]) && Saturated(s, n, airPadding, m, p[i]);
      assert Adjacent(p[i], p[i + 1]) && Open(s, n, airPadding, p[i + 1]);
      i := i + 1;
    }
  }

  /** For a sound, closed set holding the seed, every open cell is in the
      set exactly when the design is connected. */
  lemma AllReachedIffConnected(s: seq<Byte>, n: int, airPadding: int, m: set<Cell>)
    requires ValidConfig(n, airPadding) && IsDesign(s, n)
    requires Seed(n) in m && Closed(s, n, airPadding, m) && Sound(s, n, airPadding, m)
    ensures (forall c :: Open(s, n, airPadding, c) ==> c in m) <==> Connected(s, n, airPadding)
    ensures forall c :: c in m <==> c == Seed(n) || Reachable(s, n, airPadding, c)
  {
    forall c | Reachable(s, n, airPadding, c) ensures c in m {
      ClosedHoldsReachable(s, n, airPadding, m, c);
    }
    if Open(s, n, airPadding, Seed(n)) {
      SeedReachable(s, n, airPadding);
    }
  }

  /** Marking `d`, an open neighbour of an open cell of a sound set, keeps the set sound. */
  lemma MarkKeepsSound(s: seq<Byte>, n: int, airPadding: int, m: set<Cell>, c: Cell, d: Cell)
    requires ValidConfig(n, airPadding) && IsDesign(s, n) && Sound(s, n, airPadding, m)
    requires c in m && Open(s, n, airPadding, c) && Adjacent(c, d) && Open(s, n, airPadding, d)
    ensures Sound(s, n, airPadding, m + {d})
  {
    if c == Seed(n) {
      SeedReachable(s, n, airPadding);
    }
    ReachStep(s, n, airPadding, c, d);
  }

  // ---------------------------------------------------------------------------
  // The marks

  /** The table holds exactly the marks of `m`, all of them lattice cells. */
  ghost predicate Mirrors(g: Grid, m: set<Cell>)
    requires g.Valid()
    reads g.disconnectedComponentTable
  {
    (forall c :: c in m ==> CellInLattice(g.n, c)) &&
    forall a, b, c :: InLattice(g.n, a, b, c) ==> (g.disconnectedComponentTable[a, b, c] <==> Cell(a, b, c) in m)
  }

  ghost function LatticeCells(n: int): set<Cell> {
    set x, y, z | 0 <= x < n && 0 <= y < n && 0 <= z < n :: Cell(x, y, z)
  }

  lemma InLatticeCells(n: int, m: set<Cell>)
    requires forall c :: c in m ==> CellInLattice(n, c)
    ensures m <= LatticeCells(n)
  {
    forall c | c in m ensures c in LatticeCells(n) {
      assert c == Cell(c.x, c.y, c.z);
    }
  }

  /** The loop of `hasDisconnectedComponents` that clears the table. */
  method ClearTable(g: Grid)
    requires g.Valid()
    modifies g.disconnectedComponentTable
    ensures Mirrors(g, {})
  {
    var n := g.n;
    var t := g.disconnectedComponentTable;
    var x := 0;
    while x < n
      invariant 0 <= x <= n
      invariant forall a, b, c :: InLattice(n, a, b, c) && a < x ==> !t[a, b, c]
    {
      var y := 0;
      while y < n
        invariant 0 <= y <= n
        invariant forall a, b, c :: InLattice(n, a, b, c) && (a < x || (a == x && b < y)) ==> !t[a, b, c]
      {
        var z := 0;
        while z < n
          invariant 0 <= z <= n
          invariant forall a, b, c :: InLattice(n, a, b, c) && (a < x || (a == x && b < y) || (a == x && b == y && c < z)) ==> !t[a, b, c]
        {
          t[x, y, z] := false;
          z := z + 1;
        }
        y := y + 1;
      }
      x := x + 1;
    }
  }

  /** One neighbour test of the sweep: mark `d` if it is metal and unmarked. */
  method Spread(g: Grid, d: Cell, ghost s: seq<Byte>, ghost m: set<Cell>) returns (found: bool, ghost m': set<Cell>)
    requires g.Valid() && s == g.cellEnabled[..] && CellInLattice(g.n, d) && Mirrors(g, m)
    modifies g.disconnectedComponentTable
    ensures Mirrors(g, m')
    ensures found ==> At(s, g.n, d.x, d.y, d.z) == 1 && d !in m && m' == m + {d} && |m'| == |m| + 1
    ensures !found ==> m' == m
    ensures At(s, g.n, d.x, d.y, d.z) == 1 ==> d in m'
  {
    var n := g.n;
    IdxDecode(n, d.x, d.y, d.z);
    if g.cellEnabled[Idx(n, d.x, d.y, d.z)] == 1 && !g.disconnectedComponentTable[d.x, d.y, d.z] {
      g.disconnectedComponentTable[d.x, d.y, d.z] := true;
      found, m' := true, m + {d};
    } else {
      found, m' := false, m;
    }
  }

  /** At the bottom layer `idx(x, -1, z)` is `idx(x - 1, N - 1, z)`, a cell of
      the top border: on a design whose border is air it reads 0. */
  lemma BelowBottomIsBorder(s: seq<Byte>, n: int, airPadding: int, x: int, z: int)
    requires ValidConfig(n, airPadding) && IsDesign(s, n) && PaddingIsAir(s, n, airPadding)
    requires airPadding <= x < n - airPadding && airPadding <= z < n - airPadding
    ensures 0 <= Idx(n, x, -1, z) < |s| && s[Idx(n, x, -1, z)] == 0
  {
    assert (x - 1) * n == x * n - n;
    assert Idx(n, x, -1, z) == Idx(n, x - 1, n - 1, z);
    IdxDecode(n, x - 1, n - 1, z);
    assert IsPadding(n, airPadding, x - 1, n - 1, z);
    assert At(s, n, x - 1, n - 1, z) == 0;
  }

  /** The downward test, in the order of the source: the design is read at
      `idx(x, y-1, z)` before `y > 0` is known, and the table only once that
      read gave 1, which the air border rules out at y == 0. */
  method SpreadDown(g: Grid, x: int, y: int, z: int, ghost s: seq<Byte>, ghost m: set<Cell>) returns (found: bool, ghost m': set<Cell>)
    requires g.Valid() && s == g.cellEnabled[..] && PaddingIsAir(s, g.n, g.airPadding) && Mirrors(g, m)
    requires IsInterior(g.n, g.airPadding, x, y, z)
    modifies g.disconnectedComponentTable
    ensures Mirrors(g, m')
    ensures found ==> 0 < y && CellInLattice(g.n, Cell(x, y - 1, z)) && At(s, g.n, x, y - 1, z) == 1
    ensures found ==> Cell(x, y - 1, z) !in m && m' == m + {Cell(x, y - 1, z)} && |m'| == |m| + 1
    ensures !found ==> m' == m
    ensures Open(s, g.n, g.airPadding, Cell(x, y - 1, z)) ==> Cell(x, y - 1, z) in m'
  {
    var n := g.n;
    if y == 0 {
      BelowBottomIsBorder(s, n, g.airPadding, x, z);
    } else {
      IdxDecode(n, x, y - 1, z);
    }
    if g.cellEnabled[Idx(n, x, y - 1, z)] == 1 && !g.disconnectedComponentTable[x, y - 1, z] && y > 0 {
      g.disconnectedComponentTable[x, y - 1, z] := true;
      found, m' := true, m + {Cell(x, y - 1, z)};
    } else {
      found, m' := false, m;
    }
  }

  /** A metal neighbour of an interior cell, on a design whose border is
      air, is itself an interior cell. */
  lemma MetalNeighbourIsOpen(s: seq<Byte>, n: int, airPadding: int, c: Cell, d: Cell)
    requires ValidConfig(n, airPadding) && IsDesign(s, n) && PaddingIsAir(s, n, airPadding)
    requires IsInterior(n, airPadding, c.x, c.y, c.z) && Adjacent(c, d) && CellInLattice(n, d)
    ensures At(s, n, d.x, d.y, d.z) == 1 ==> Open(s, n, airPadding, d)
  {
  }

  /** Marking a metal neighbour of an open cell of a sound set keeps the set sound. */
  lemma SpreadKeepsSound(s: seq<Byte>, n: int, airPadding: int, m: set<Cell>, c: Cell, d: Cell)
    requires ValidConfig(n, airPadding) && IsDesign(s, n) && PaddingIsAir(s, n, airPadding)
    requires Sound(s, n, airPadding, m) && c in m && Open(s, n, airPadding, c) && Adjacent(c, d) && CellInLattice(n, d)
    requires At(s, n, d.x, d.y, d.z) == 1
    ensures Sound(s, n, airPadding, m + {d})
  {
    MetalNeighbourIsOpen(s, n, airPadding, c, d);
    MarkKeepsSound(s, n, airPadding, m, c, d);
  }

  /** `SpreadKeepsSound` for the cell below (x, y, z). */
  lemma SpreadDownKeepsSound(s: seq<Byte>, n: int, airPadding: int, m: set<Cell>, x: int, y: int, z: int)
    requires ValidConfig(n, airPadding) && IsDesign(s, n) && PaddingIsAir(s, n, airPadding)
    requires Sound(s, n, airPadding, m) && Cell(x, y, z) in m && Open(s, n, airPadding, Cell(x, y, z))
    requires 0 < y && CellInLattice(n, Cell(x, y - 1, z)) && At(s, n, x, y - 1, z) == 1
    ensures Sound(s, n, airPadding, m + {Cell(x, y - 1, z)})
  {
    SpreadKeepsSound(s, n, airPadding, m, Cell(x, y, z), Cell(x, y - 1, z));
  }

  /** The first three neighbour tests of the sweep body: x+1, y+1, z+1. */
  method SpreadForward(g: Grid, x: int, y: int, z: int, ghost s: seq<Byte>, ghost m: set<Cell>) returns (found: bool, ghost m': set<Cell>)
    requires g.Valid() && s == g.cellEnabled[..] && PaddingIsAir(s, g.n, g.airPadding)
    requires Mirrors(g, m) && Sound(s, g.n, g.airPadding, m)
    requires IsInterior(g.n, g.airPadding, x, y, z) && Cell(x, y, z) in m && Open(s, g.n, g.airPadding, Cell(x, y, z))
    modifies g.disconnectedComponentTable
    ensures Mirrors(g, m') && Sound(s, g.n, g.airPadding, m') && m <= m'
    ensures !found ==> m' == m
    ensures found ==> |m'| > |m|
    ensures Open(s, g.n, g.airPadding, Cell(x + 1, y, z)) ==> Cell(x + 1, y, z) in m'
    ensures Open(s, g.n, g.airPadding, Cell(x, y + 1, z)) ==> Cell(x, y + 1, z) in m'
    ensures Open(s, g.n, g.airPadding, Cell(x, y, z + 1)) ==> Cell(x, y, z + 1) in m'
  {
    var n, ap := g.n, g.airPadding;
    ghost var c := Cell(x, y, z);
    var f1, f2, f3;
    ghost var m1, m2;
    f1, m1 := Spread(g, Cell(x + 1, y, z), s, m);
    if f1 { SpreadKeepsSound(s, n, ap, m, c, Cell(x + 1, y, z)); }
    f2, m2 := Spread(g, Cell(x, y + 1, z), s, m1);
    if f2 { SpreadKeepsSound(s, n, ap, m1, c, Cell(x, y + 1, z)); }
    f3, m' := Spread(g, Cell(x, y, z + 1), s, m2);
    if f3 { SpreadKeepsSound(s, n, ap, m2, c, Cell(x, y, z + 1)); }
    found := f1 || f2 || f3;
  }

  /** The last three neighbour tests of the sweep body: x-1, y-1, z-1. */
  method SpreadBackward(g: Grid, x: int, y: int, z: int, ghost s: seq<Byte>, ghost m: set<Cell>) returns (found: bool, ghost m': set<Cell>)
    requires g.Valid() && s == g.cellEnabled[..] && PaddingIsAir(s, g.n, g.airPadding)
    requires Mirrors(g, m) && Sound(s, g.n, g.airPadding, m)
    requires IsInterior(g.n, g.airPadding, x, y, z) && Cell(x, y, z) in m && Open(s, g.n, g.airPadding, Cell(x, y, z))
    modifies g.disconnectedComponentTable
    ensures Mirrors(g, m') && Sound(s, g.n, g.airPadding, m') && m <= m'
    ensures !found ==> m' == m
    ensures found ==> |m'| > |m|
    ensures Open(s, g.n, g.airPadding, Cell(x - 1, y, z)) ==> Cell(x - 1, y, z) in m'
    ensures Open(s, g.n, g.airPadding, Cell(x, y - 1, z)) ==> Cell(x, y - 1, z) in m'
    ensures Open(s, g.n, g.airPadding, Cell(x, y, z - 1)) ==> Cell(x, y, z - 1) in m'
  {
    var n, ap := g.n, g.airPadding;
    ghost var c := Cell(x, y, z);
    var f1, f2, f3;
    ghost var m1, m2;
    f1, m1 := Spread(g, Cell(x - 1, y, z), s, m);
    if f1 { SpreadKeepsSound(s, n, ap, m, c, Cell(x - 1, y, z)); }
    f2, m2 := SpreadDown(g, x, y, z, s, m1);
    if f2 { SpreadDownKeepsSound(s, n, ap, m1, x, y, z); }
    f3, m' := Spread(g, Cell(x, y, z - 1), s, m2);
    if f3 { SpreadKeepsSound(s, n, ap, m2, c, Cell(x, y, z - 1)); }
    found := f1 || f2 || f3;
  }

  /** `c` is saturated once each of its six neighbours is known to be in
      the set if it is open. */
  lemma SaturatedFromNeighbours(s: seq<Byte>, n: int, airPadding: int, m1: set<Cell>, m: set<Cell>, x: int, y: int, z: int)
    requires ValidConfig(n, airPadding) && IsDesign(s, n) && m1 <= m
    requires Open(s, n, airPadding, Cell(x + 1, y, z)) ==> Cell(x + 1, y, z) in m1
    requires Open(s, n, airPadding, Cell(x, y + 1, z)) ==> Cell(x, y + 1, z) in m1
    requires Open(s, n, airPadding, Cell(x, y, z + 1)) ==> Cell(x, y, z + 1) in m1
    requires Open(s, n, airPadding, Cell(x - 1, y, z)) ==> Cell(x - 1, y, z) in m
    requires Open(s, n, airPadding, Cell(x, y - 1, z)) ==> Cell(x, y - 1, z) in m
    requires Open(s, n, airPadding, Cell(x, y, z - 1)) ==> Cell(x, y, z - 1) in m
    ensures Saturated(s, n, airPadding, m, Cell(x, y, z))
  {
  }

  /** The body of the sweep for cell (x, y, z): if it is metal and marked,
      the six neighbour tests in the order of the source. */
  method Visit(g: Grid, x: int, y: int, z: int, ghost s: seq<Byte>, ghost m: set<Cell>) returns (found: bool, ghost m': set<Cell>)
    requires g.Valid() && s == g.cellEnabled[..] && PaddingIsAir(s, g.n, g.airPadding)
    requires Mirrors(g, m) && Sound(s, g.n, g.airPadding, m)
    requires IsInterior(g.n, g.airPadding, x, y, z)
    modifies g.disconnectedComponentTable
    ensures Mirrors(g, m') && Sound(s, g.n, g.airPadding, m') && m <= m'
    ensures !found ==> m' == m
    ensures found ==> |m'| > |m|
    ensures Cell(x, y, z) in m && Open(s, g.n, g.airPadding, Cell(x, y, z)) ==>
      Saturated(s, g.n, g.airPadding, m', Cell(x, y, z))
  {
    var n, ap := g.n, g.airPadding;
    ghost var c := Cell(x, y, z);
    IdxDecode(n, x, y, z);
    found, m' := false, m;
    if g.cellEnabled[Idx(n, x, y, z)] == 1 && g.disconnectedComponentTable[x, y, z] {
      assert c in m && Open(s, n, ap, c);
      var f1, f2;
      ghost var m1;
      f1, m1 := SpreadForward(g, x, y, z, s, m);
      f2, m' := SpreadBackward(g, x, y, z, s, m1);
      found := f1 || f2;
      SaturatedFromNeighbours(s, n, ap, m1, m', x, y, z);
    }
  }

  /** (a, b, c) comes before (x, y, z) in the order the sweep visits cells. */
  predicate Before(d: Cell, x: int, y: int, z: int) {
    d.x < x || (d.x == x && d.y < y) || (d.x == x && d.y == y && d.z < z)
  }

  /** One pass of the `do ... while (foundNewCell)` loop over the interior box. */
  method Sweep(g: Grid, ghost s: seq<Byte>, ghost m0: set<Cell>) returns (found: bool, ghost m: set<Cell>)
    requires g.Valid() && s == g.cellEnabled[..] && PaddingIsAir(s, g.n, g.airPadding)
    requires Mirrors(g, m0) && Sound(s, g.n, g.airPadding, m0)
    modifies g.disconnectedComponentTable
    ensures Mirrors(g, m) && Sound(s, g.n, g.airPadding, m) && m0 <= m
    ensures !found ==> m == m0 && Closed(s, g.n, g.airPadding, m)
    ensures found ==> |m| > |m0|
  {
    var n, ap := g.n, g.airPadding;
    found, m := false, m0;
    var x := ap;
    while x < n - ap
      invariant ap <= x <= n - ap
      invariant Mirrors(g, m) && Sound(s, n, ap, m) && m0 <= m
      invariant !found ==> m == m0
      invariant found ==> |m| > |m0|
      invariant !found ==> forall d :: d in m && Open(s, n, ap, d) && d.x < x ==> Saturated(s, n, ap, m, d)
    {
      var y := 0;
      while y < n - ap
        invariant 0 <= y <= n - ap
        invariant Mirrors(g, m) && Sound(s, n, ap, m) && m0 <= m
        invariant !found ==> m == m0
        invariant found ==> |m| > |m0|
        invariant !found ==> forall d :: d in m && Open(s, n, ap, d) && Before(d, x, y, 0) ==> Saturated(s, n, ap, m, d)
      {
        var z := ap;
        while z < n - ap
          invariant ap <= z <= n - ap
          invariant Mirrors(g, m) && Sound(s, n, ap, m) && m0 <= m
          invariant !found ==> m == m0
          invariant found ==> |m| > |m0|
          invariant !found ==> forall d :: d in m && Open(s, n, ap, d) && Before(d, x, y, z) ==> Saturated(s, n, ap, m, d)
        {
          var f;
          f, m := Visit(g, x, y, z, s, m);
          found := found || f;
          if !found {
            forall d | d in m && Open(s, n, ap, d) && Before(d, x, y, z + 1) ensures Saturated(s, n, ap, m, d) {
              if d != Cell(x, y, z) {
                assert Before(d, x, y, z);
              }
            }
          }
          z := z + 1;
        }
        y := y + 1;
      }
      x := x + 1;
    }
  }

  /** Marking more cells leaves fewer unmarked ones. */
  lemma UnmarkedShrinks(l: set<Cell>, m0: set<Cell>, m: set<Cell>)
    requires m0 <= m <= l && |m| > |m0|
    ensures l - m < l - m0
  {
    assert m != m0;
    var e :| e in m && e !in m0;
    assert e in l - m0;
  }

  /** The closing loop: is some interior metal cell unmarked? */
  method FindUnreached(g: Grid, ghost m: set<Cell>) returns (r: bool)
    requires g.Valid() && Mirrors(g, m)
    ensures r <==> !(forall c :: Open(g.cellEnabled[..], g.n, g.airPadding, c) ==> c in m)
  {
    var n, ap := g.n, g.airPadding;
    ghost var s := g.cellEnabled[..];
    var x := ap;
    while x < n - ap
      invariant ap <= x <= n - ap
      invariant forall d :: Open(s, n, ap, d) && d.x < x ==> d in m
    {
      var y := 0;
      while y < n - ap
        invariant 0 <= y <= n - ap
        invariant forall d :: Open(s, n, ap, d) && Before(d, x, y, 0) ==> d in m
      {
        var z := ap;
        while z < n - ap
          invariant ap <= z <= n - ap
          invariant forall d :: Open(s, n, ap, d) && Before(d, x, y, z) ==> d in m
        {
          IdxDecode(n, x, y, z);
          if g.cellEnabled[Idx(n, x, y, z)] == 1 && !g.disconnectedComponentTable[x, y, z] {
            assert Open(s, n, ap, Cell(x, y, z)) && Cell(x, y, z) !in m;
            return true;
          }
          z := z + 1;
        }
        y := y + 1;
      }
      x := x + 1;
    }
    r := false;
  }

  /** `hasDisconnectedComponents()`. The source requires the air border to be
      air: otherwise the downward test at y == 0 indexes the table at -1.
      It returns true exactly when some interior metal cell cannot be reached
      from the seed, and leaves marked exactly the seed and the reachable cells. */
  method HasDisconnectedComponents(g: Grid) returns (r: bool)
    requires g.Valid() && PaddingIsAir(g.cellEnabled[..], g.n, g.airPadding)
    modifies g.disconnectedComponentTable
    ensures r == !Connected(g.cellEnabled[..], g.n, g.airPadding)
    ensures forall a, b, c :: InLattice(g.n, a, b, c) ==>
      (g.disconnectedComponentTable[a, b, c] <==>
        Cell(a, b, c) == Seed(g.n) || Reachable(g.cellEnabled[..], g.n, g.airPadding, Cell(a, b, c)))
  {
    var n, ap := g.n, g.airPadding;
    ghost var s := g.cellEnabled[..];
    ClearTable(g);
    g.disconnectedComponentTable[n / 2, 0, n / 2] := true;
    ghost var m: set<Cell> := {Seed(n)};
    var foundNewCell := true;
    while foundNewCell
      invariant Mirrors(g, m) && Sound(s, n, ap, m) && Seed(n) in m
      invariant !foundNewCell ==> Closed(s, n, ap, m)
      decreases LatticeCells(n) - m, foundNewCell
    {
      ghost var m0 := m;
      foundNewCell, m := Sweep(g, s, m);
      InLatticeCells(n, m);
      if foundNewCell {
        UnmarkedShrinks(LatticeCells(n), m0, m);
      }
    }
    r := FindUnreached(g, m);
    AllReachedIffConnected(s, n, ap, m);
  }
}
