/** `evolveDesign3D`: swap two interior cells of opposite state that lie on
    the metal-air interface, then optionally reflect every layer below the
    top border 8-fold. */
module Design3D {
  import opened Wrappers
  import opened Lattice
  import opened VoxelGrid
  import opened Mutation
  import opened Symmetry

  /** `a > airPadding*1.3 && a < cellsWide - airPadding*1.3 - 1`, in exact
      integers (no double product falls on the wrong side of an integer). */
  predicate SkipCoord(n: int, airPadding: int, a: int) {
    10 * a > 13 * airPadding && 10 * a < 10 * n - 13 * airPadding - 10
  }

  /** The skip band: the bottom cells the mutator never picks. It is one cell
      narrower on every side than the footprint `addHeat` heats, so the rim of
      that footprint is not in it. */
  predicate InSkipBand(n: int, airPadding: int, x: int, y: int, z: int) {
    y == 0 && SkipCoord(n, airPadding, x) && SkipCoord(n, airPadding, z)
  }

  /** Every cell of the skip band is metal. */
  ghost predicate SkipBandMetal(s: seq<Byte>, n: int, airPadding: int)
    requires IsDesign(s, n)
  {
    forall x, y, z :: InLattice(n, x, y, z) && InSkipBand(n, airPadding, x, y, z) ==> At(s, n, x, y, z) == 1
  }

  /** The cell a draw (x, y, z) picks: y from [0, N - airPadding), x and z as
      for the forged mutator. */
  function CubeCell(n: int, airPadding: int, enforceSymmetry: bool, d: (nat, nat, nat)): (i: int)
    requires ValidConfig(n, airPadding)
    ensures 0 <= i < n * n * n
    ensures CellX(n, i) == ColumnDraw(n, airPadding, enforceSymmetry, d.0, d.2).0
    ensures CellY(n, i) == RandomInt(d.1, n - airPadding, 0)
    ensures CellZ(n, i) == ColumnDraw(n, airPadding, enforceSymmetry, d.0, d.2).1
  {
    var c := ColumnDraw(n, airPadding, enforceSymmetry, d.0, d.2);
    var y := RandomInt(d.1, n - airPadding, 0);
    IdxDecode(n, c.0, y, c.1);
    Idx(n, c.0, y, c.1)
  }

  /** A draw the rejection loop accepts, with its tests in the order of the
      source: for the second cell a value other than `avoid` (the first
      cell's value), then not in the border, not in the skip band, and a
      face neighbour in the lattice of the other state. */
  predicate CubeAccepts(s: seq<Byte>, n: int, airPadding: int, enforceSymmetry: bool, avoid: Option<Byte>, d: (nat, nat, nat)) {
    ValidConfig(n, airPadding) && IsDesign(s, n) &&
    var i := CubeCell(n, airPadding, enforceSymmetry, d);
    var x, y, z := CellX(n, i), CellY(n, i), CellZ(n, i);
    (avoid.None? || s[i] != avoid.value) &&
    !IsPadding(n, airPadding, x, y, z) && !InSkipBand(n, airPadding, x, y, z) &&
    NeighbourDiffers(s, n, x, y, z, CubeAxes, s[i])
  }

  function CubeTest(s: seq<Byte>, n: int, airPadding: int, enforceSymmetry: bool, avoid: Option<Byte>): ((nat, nat, nat)) -> bool {
    d => CubeAccepts(s, n, airPadding, enforceSymmetry, avoid, d)
  }

  /** The cells the two rejection loops of `evolveDesign3D` settle on. Both
      loops read the design before either cell is flipped. */
  function CubeSearch(s: seq<Byte>, n: int, airPadding: int, enforceSymmetry: bool, draws: seq<(nat, nat, nat)>): (o: Search)
    requires ValidConfig(n, airPadding) && IsDesign(s, n)
    ensures !o.NoCell? ==> 0 <= o.first < |s|
    ensures o.TwoCells? ==> 0 <= o.second < |s|
  {
    var k1 := FirstHit(CubeTest(s, n, airPadding, enforceSymmetry, None), draws, 0);
    if k1 == |draws| then NoCell
    else
      var i1 := CubeCell(n, airPadding, enforceSymmetry, draws[k1]);
      var k2 := FirstHit(CubeTest(s, n, airPadding, enforceSymmetry, Some(s[i1])), draws, k1 + 1);
      if k2 == |draws| then OneCell(i1)
      else TwoCells(i1, CubeCell(n, airPadding, enforceSymmetry, draws[k2]))
  }

  /** An interior cell, outside the skip band, with a face neighbour of the other state. */
  predicate OnInterface(s: seq<Byte>, n: int, airPadding: int, i: int)
    requires IsDesign(s, n) && 0 <= i < |s|
  {
    var x, y, z := CellX(n, i), CellY(n, i), CellZ(n, i);
    IsInterior(n, airPadding, x, y, z) && !InSkipBand(n, airPadding, x, y, z) &&
    NeighbourDiffers(s, n, x, y, z, CubeAxes, s[i])
  }

  /** Both cells found lie on the interface, they hold opposite values (so
      they differ), and with symmetry enforced both come from the wedge
      z < x < N/2 of their layer or are on the column (airPadding, airPadding). */
  lemma CubeSearchPicks(s: seq<Byte>, n: int, airPadding: int, enforceSymmetry: bool, draws: seq<(nat, nat, nat)>)
    requires ValidConfig(n, airPadding) && IsDesign(s, n)
    ensures var o := CubeSearch(s, n, airPadding, enforceSymmetry, draws);
      (!o.NoCell? ==> 0 <= o.first < |s| && OnInterface(s, n, airPadding, o.first)) &&
      (o.TwoCells? ==> 0 <= o.second < |s| && s[o.second] != s[o.first] && OnInterface(s, n, airPadding, o.second)) &&
      (enforceSymmetry && !o.NoCell? ==>
        InWedge(n, CellX(n, o.first), CellZ(n, o.first)) || CellX(n, o.first) == CellZ(n, o.first) == airPadding) &&
      (enforceSymmetry && o.TwoCells? ==>
        InWedge(n, CellX(n, o.second), CellZ(n, o.second)) || CellX(n, o.second) == CellZ(n, o.second) == airPadding)
  {
    var k1 := FirstHit(CubeTest(s, n, airPadding, enforceSymmetry, None), draws, 0);
    if k1 < |draws| {
      var i1 := CubeCell(n, airPadding, enforceSymmetry, draws[k1]);
      assert CubeAccepts(s, n, airPadding, enforceSymmetry, None, draws[k1]);
      var k2 := FirstHit(CubeTest(s, n, airPadding, enforceSymmetry, Some(s[i1])), draws, k1 + 1);
      if k2 < |draws| {
        assert CubeAccepts(s, n, airPadding, enforceSymmetry, Some(s[i1]), draws[k2]);
      }
    }
  }

  /** The design `evolveDesign3D` leaves behind: when both cells are found,
      both flipped and, with symmetry enforced, every layer below the top
      border reflected; otherwise (the draws ran out) the design unchanged. */
  ghost function CubeResult(s: seq<Byte>, n: int, airPadding: int, enforceSymmetry: bool, draws: seq<(nat, nat, nat)>): seq<Byte>
    requires ValidConfig(n, airPadding) && IsDesign(s, n)
  {
    var o := CubeSearch(s, n, airPadding, enforceSymmetry, draws);
    if o.TwoCells? then CubeReflected(Flipped(s, o), n, airPadding, enforceSymmetry) else s
  }

  /** The design after the optional reflection of every layer below the top border. */
  ghost function CubeReflected(t: seq<Byte>, n: int, airPadding: int, enforceSymmetry: bool): seq<Byte>
    requires ValidConfig(n, airPadding) && IsDesign(t, n)
  {
    if enforceSymmetry then Symmetrized(t, n, 0, n - airPadding) else t
  }

  /** One rejection loop of `evolveDesign3D`: draws from `start` on until one
      is accepted; |draws| if none is. */
  method FindCubeCell(g: Grid, enforceSymmetry: bool, draws: seq<(nat, nat, nat)>, start: nat, avoid: Option<Byte>)
    returns (k: nat)
    requires g.Valid() && start <= |draws|
    ensures k == FirstHit(CubeTest(g.cellEnabled[..], g.n, g.airPadding, enforceSymmetry, avoid), draws, start)
  {
    var n, ap := g.n, g.airPadding;
    k := start;
    while k < |draws|
      invariant start <= k <= |draws|
      invariant forall j :: start <= j < k ==> !CubeTest(g.cellEnabled[..], n, ap, enforceSymmetry, avoid)(draws[j])
    {
      var c := ColumnDraw(n, ap, enforceSymmetry, draws[k].0, draws[k].2);
      var x, y, z := c.0, RandomInt(draws[k].1, n - ap, 0), c.1;
      var index := CubeCell(n, ap, enforceSymmetry, draws[k]);
      if avoid.None? || g.cellEnabled[index] != avoid.value {
        var isEnabled := g.cellEnabled[index];
        if !IsPadding(n, ap, x, y, z) && !InSkipBand(n, ap, x, y, z) {
          var differs := HasDifferentNeighbour(g, x, y, z, CubeAxes, isEnabled);
          if differs {
            assert CubeAccepts(g.cellEnabled[..], n, ap, enforceSymmetry, avoid, draws[k]);
            assert CubeTest(g.cellEnabled[..], n, ap, enforceSymmetry, avoid)(draws[k]);
            return;
          }
        }
      }
      k := k + 1;
    }
  }

  /** The two rejection loops of `evolveDesign3D`, which only read the design. */
  method FindCubePair(g: Grid, enforceSymmetry: bool, draws: seq<(nat, nat, nat)>) returns (o: Search)
    requires g.Valid()
    ensures o == CubeSearch(g.cellEnabled[..], g.n, g.airPadding, enforceSymmetry, draws)
  {
    var n, ap := g.n, g.airPadding;
    var k1 := FindCubeCell(g, enforceSymmetry, draws, 0, None);
    if k1 == |draws| {
      return NoCell;
    }
    var index1 := CubeCell(n, ap, enforceSymmetry, draws[k1]);
    var k2 := FindCubeCell(g, enforceSymmetry, draws, k1 + 1, Some(g.cellEnabled[index1]));
    if k2 == |draws| {
      return OneCell(index1);
    }
    o := TwoCells(index1, CubeCell(n, ap, enforceSymmetry, draws[k2]));
  }

  /** `evolveDesign3D(enforceSymmetry)`. `ok` is false when the draws run out
      before both cells are found, where the source would keep drawing. */
  method EvolveDesign3D(g: Grid, enforceSymmetry: bool, draws: seq<(nat, nat, nat)>) returns (ok: bool)
    requires g.Valid()
    modifies g.cellEnabled
    ensures ok == CubeSearch(old(g.cellEnabled[..]), g.n, g.airPadding, enforceSymmetry, draws).TwoCells?
    ensures g.cellEnabled[..] == CubeResult(old(g.cellEnabled[..]), g.n, g.airPadding, enforceSymmetry, draws)
  {
    var o := FindCubePair(g, enforceSymmetry, draws);
    if !o.TwoCells? {
      return false;
    }
    FlipPair(g, o.first, o.second);
    if enforceSymmetry {
      SymmetricCopyLayers(g, 0, g.n - g.airPadding);
    }
    ok := true;
  }

  // ---------------------------------------------------------------------------
  // Properties

  /** The two flips trade a metal cell for an air cell: the volume of metal
      is kept, and without symmetry that is the whole mutation. */
  lemma CubeSwapKeepsVolume(s: seq<Byte>, n: int, airPadding: int, enforceSymmetry: bool, draws: seq<(nat, nat, nat)>)
    requires ValidConfig(n, airPadding) && IsDesign(s, n) && Binary(s)
    ensures CubeSearch(s, n, airPadding, enforceSymmetry, draws).TwoCells? ==>
      Count(Flipped(s, CubeSearch(s, n, airPadding, enforceSymmetry, draws))) == Count(s)
    ensures !enforceSymmetry ==> Count(CubeResult(s, n, airPadding, enforceSymmetry, draws)) == Count(s)
  {
    var o := CubeSearch(s, n, airPadding, enforceSymmetry, draws);
    CubeSearchPicks(s, n, airPadding, enforceSymmetry, draws);
    if o.TwoCells? {
      FlipPairKeepsCount(s, o.first, o.second);
    }
  }

  /** The swap keeps the air border air and every cell 0 or 1, and so does the reflection. */
  lemma CubeResultInvariants(s: seq<Byte>, n: int, airPadding: int, enforceSymmetry: bool, draws: seq<(nat, nat, nat)>)
    requires ValidConfig(n, airPadding) && IsDesign(s, n)
    ensures IsDesign(CubeResult(s, n, airPadding, enforceSymmetry, draws), n)
    ensures PaddingIsAir(s, n, airPadding) ==> PaddingIsAir(CubeResult(s, n, airPadding, enforceSymmetry, draws), n, airPadding)
    ensures Binary(s) ==> Binary(CubeResult(s, n, airPadding, enforceSymmetry, draws))
  {
    var o := CubeSearch(s, n, airPadding, enforceSymmetry, draws);
    CubeSearchPicks(s, n, airPadding, enforceSymmetry, draws);
    if o.TwoCells? {
      FlipPairInvariants(s, n, airPadding, o.first, o.second);
      CubeReflectedInvariants(Flipped(s, o), n, airPadding, enforceSymmetry);
    }
  }

  lemma CubeReflectedInvariants(t: seq<Byte>, n: int, airPadding: int, enforceSymmetry: bool)
    requires ValidConfig(n, airPadding) && IsDesign(t, n)
    ensures IsDesign(CubeReflected(t, n, airPadding, enforceSymmetry), n)
    ensures PaddingIsAir(t, n, airPadding) ==> PaddingIsAir(CubeReflected(t, n, airPadding, enforceSymmetry), n, airPadding)
    ensures Binary(t) ==> Binary(CubeReflected(t, n, airPadding, enforceSymmetry))
  {
    SymmetrizedInvariants(t, n, airPadding, 0, n - airPadding);
  }

  /** Cells of the two flipped indices aside, the swap changes nothing. */
  lemma FlipPairElsewhere(s: seq<Byte>, n: int, i: int, j: int, x: int, y: int, z: int)
    requires IsDesign(s, n) && 0 <= i < |s| && 0 <= j < |s| && InLattice(n, x, y, z)
    requires (x, y, z) != (CellX(n, i), CellY(n, i), CellZ(n, i))
    requires (x, y, z) != (CellX(n, j), CellY(n, j), CellZ(n, j))
    ensures At(Flip(Flip(s, i), j), n, x, y, z) == At(s, n, x, y, z)
  {
    IdxDecode(n, x, y, z);
  }

  /** Without symmetry the mutation never changes a border cell or a
      skip-band cell. */
  lemma CubeResultKeepsFixedCells(s: seq<Byte>, n: int, airPadding: int, draws: seq<(nat, nat, nat)>)
    requires ValidConfig(n, airPadding) && IsDesign(s, n)
    ensures IsDesign(CubeResult(s, n, airPadding, false, draws), n)
    ensures forall x, y, z :: InLattice(n, x, y, z) && (IsPadding(n, airPadding, x, y, z) || InSkipBand(n, airPadding, x, y, z)) ==>
      At(CubeResult(s, n, airPadding, false, draws), n, x, y, z) == At(s, n, x, y, z)
  {
    var o := CubeSearch(s, n, airPadding, false, draws);
    CubeSearchPicks(s, n, airPadding, false, draws);
    if o.TwoCells? {
      forall x, y, z | InLattice(n, x, y, z) && (IsPadding(n, airPadding, x, y, z) || InSkipBand(n, airPadding, x, y, z))
        ensures At(Flip(Flip(s, o.first), o.second), n, x, y, z) == At(s, n, x, y, z)
      {
        FlipPairElsewhere(s, n, o.first, o.second, x, y, z);
      }
    }
  }

  /** Mirroring a coordinate keeps it inside or outside the skip band's span. */
  lemma SkipCoordFold(n: int, airPadding: int, a: int)
    requires n % 2 == 0 && 0 <= a < n
    ensures SkipCoord(n, airPadding, Fold(n, a)) == SkipCoord(n, airPadding, a)
  {
  }

  /** The skip band is symmetric in the same eight ways as the reflection,
      so reflecting layers of a design whose skip band is metal keeps it metal. */
  lemma SymmetrizedKeepsSkipBand(t: seq<Byte>, n: int, airPadding: int, lo: int, hi: int)
    requires ValidConfig(n, airPadding) && IsDesign(t, n) && SkipBandMetal(t, n, airPadding)
    ensures IsDesign(Symmetrized(t, n, lo, hi), n)
    ensures SkipBandMetal(Symmetrized(t, n, lo, hi), n, airPadding)
  {
    var r := Symmetrized(t, n, lo, hi);
    forall x, y, z | InLattice(n, x, y, z) && InSkipBand(n, airPadding, x, y, z)
      ensures At(r, n, x, y, z) == 1
    {
      IdxDecode(n, x, y, z);
      SkipCoordFold(n, airPadding, x);
      SkipCoordFold(n, airPadding, z);
      if lo <= y < hi && Fold(n, x) != Fold(n, z) {
        assert At(r, n, x, y, z) == At(t, n, RepX(n, x, z), y, RepZ(n, x, z));
      }
    }
  }

  /** Flipping two cells outside the skip band keeps it all metal. */
  lemma FlipPairKeepsSkipBand(s: seq<Byte>, n: int, airPadding: int, i: int, j: int)
    requires ValidConfig(n, airPadding) && IsDesign(s, n) && SkipBandMetal(s, n, airPadding)
    requires 0 <= i < |s| && !InSkipBand(n, airPadding, CellX(n, i), CellY(n, i), CellZ(n, i))
    requires 0 <= j < |s| && !InSkipBand(n, airPadding, CellX(n, j), CellY(n, j), CellZ(n, j))
    ensures IsDesign(Flip(Flip(s, i), j), n)
    ensures SkipBandMetal(Flip(Flip(s, i), j), n, airPadding)
  {
    var t := Flip(Flip(s, i), j);
    forall x, y, z | InLattice(n, x, y, z) && InSkipBand(n, airPadding, x, y, z)
      ensures At(t, n, x, y, z) == 1
    {
      FlipPairElsewhere(s, n, i, j, x, y, z);
    }
  }

  /** Whether or not symmetry is enforced, a skip band that is all metal
      stays all metal. */
  lemma CubeResultKeepsSkipBand(s: seq<Byte>, n: int, airPadding: int, enforceSymmetry: bool, draws: seq<(nat, nat, nat)>)
    requires ValidConfig(n, airPadding) && IsDesign(s, n) && SkipBandMetal(s, n, airPadding)
    ensures IsDesign(CubeResult(s, n, airPadding, enforceSymmetry, draws), n)
    ensures SkipBandMetal(CubeResult(s, n, airPadding, enforceSymmetry, draws), n, airPadding)
  {
    var o := CubeSearch(s, n, airPadding, enforceSymmetry, draws);
    CubeSearchPicks(s, n, airPadding, enforceSymmetry, draws);
    if o.TwoCells? {
      var t := Flipped(s, o);
      assert t == Flip(Flip(s, o.first), o.second);
      FlipPairKeepsSkipBand(s, n, airPadding, o.first, o.second);
      CubeReflectedKeepsSkipBand(t, n, airPadding, enforceSymmetry);
      assert CubeResult(s, n, airPadding, enforceSymmetry, draws) == CubeReflected(t, n, airPadding, enforceSymmetry);
    } else {
      assert CubeResult(s, n, airPadding, enforceSymmetry, draws) == s;
    }
  }

  /** The optional reflection keeps a skip band that is all metal. */
  lemma CubeReflectedKeepsSkipBand(t: seq<Byte>, n: int, airPadding: int, enforceSymmetry: bool)
    requires ValidConfig(n, airPadding) && IsDesign(t, n) && SkipBandMetal(t, n, airPadding)
    ensures IsDesign(CubeReflected(t, n, airPadding, enforceSymmetry), n)
    ensures SkipBandMetal(CubeReflected(t, n, airPadding, enforceSymmetry), n, airPadding)
  {
    if enforceSymmetry {
      SymmetrizedKeepsSkipBand(t, n, airPadding, 0, n - airPadding);
    }
  }

  /** The reflection leaves every layer below the top border 8-fold
      symmetric off the diagonals. */
  lemma CubeReflectedSymmetric(t: seq<Byte>, n: int, airPadding: int)
    requires ValidConfig(n, airPadding) && IsDesign(t, n)
    ensures IsDesign(CubeReflected(t, n, airPadding, true), n)
    ensures forall y :: 0 <= y < n - airPadding ==> LayerSymmetric(CubeReflected(t, n, airPadding, true), n, y)
  {
    SymmetrizedIsSymmetric(t, n, 0, n - airPadding);
  }

  /** With symmetry enforced, every layer below the top border ends up
      8-fold symmetric off the diagonals. */
  lemma CubeResultSymmetric(s: seq<Byte>, n: int, airPadding: int, draws: seq<(nat, nat, nat)>)
    requires ValidConfig(n, airPadding) && IsDesign(s, n)
    requires CubeSearch(s, n, airPadding, true, draws).TwoCells?
    ensures IsDesign(CubeResult(s, n, airPadding, true, draws), n)
    ensures forall y :: 0 <= y < n - airPadding ==> LayerSymmetric(CubeResult(s, n, airPadding, true, draws), n, y)
  {
    CubeReflectedSymmetric(Flipped(s, CubeSearch(s, n, airPadding, true, draws)), n, airPadding);
  }
}
