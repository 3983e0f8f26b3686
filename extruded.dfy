/** `evolveDesignExtruded`: toggle a pair of cells of the slice x == airPadding
    that mirror each other in z, extrude the slice along x, and undo the
    toggle when the extruded design falls apart; twice, the second time for
    a cell of the other state than the first. */
module ExtrudedMutation {
  import opened Wrappers
  import opened Lattice
  import opened VoxelGrid
  import opened Mutation
  import opened Extrusion
  import opened Connectivity

  /** The pair a draw (y, z) picks: (airPadding, y, z) and its mirror image
      (airPadding, y, N - z - 1), with y from [1, N - airPadding) and z from
      [airPadding, N - airPadding). N is even, so the two never coincide. */
  function PairCells(n: int, airPadding: int, d: (nat, nat)): (p: (int, int))
    requires ValidConfig(n, airPadding)
    ensures 0 <= p.0 < n * n * n && 0 <= p.1 < n * n * n && p.0 != p.1
    ensures CellX(n, p.0) == airPadding && CellX(n, p.1) == airPadding
    ensures CellY(n, p.0) == CellY(n, p.1) == RandomInt(d.0, n - airPadding - 1, 1)
    ensures CellZ(n, p.0) == RandomInt(d.1, n - 2 * airPadding, airPadding)
    ensures CellZ(n, p.1) == n - 1 - CellZ(n, p.0)
  {
    var y := RandomInt(d.0, n - airPadding - 1, 1);
    var z := RandomInt(d.1, n - 2 * airPadding, airPadding);
    IdxDecode(n, airPadding, y, z);
    IdxDecode(n, airPadding, y, n - z - 1);
    assert z != n - z - 1;
    (Idx(n, airPadding, y, z), Idx(n, airPadding, y, n - z - 1))
  }

  /** Both cells of a pair are interior cells above the bottom layer. */
  lemma PairCellsInterior(n: int, airPadding: int, d: (nat, nat))
    requires ValidConfig(n, airPadding)
    ensures var p := PairCells(n, airPadding, d);
      IsInterior(n, airPadding, CellX(n, p.0), CellY(n, p.0), CellZ(n, p.0)) && 1 <= CellY(n, p.0) &&
      IsInterior(n, airPadding, CellX(n, p.1), CellY(n, p.1), CellZ(n, p.1))
  {
  }

  /** The design after the pair is toggled and the slice extruded along x. */
  ghost function Toggled(s: seq<Byte>, n: int, airPadding: int, p: (int, int)): seq<Byte>
    requires ValidConfig(n, airPadding) && IsDesign(s, n) && 0 <= p.0 < |s| && 0 <= p.1 < |s|
  {
    ExtrudedInX(Flip(Flip(s, p.0), p.1), n, airPadding)
  }

  /** A draw the rejection loop accepts, in the order of the source: for the
      second pair a first cell of a value other than `avoid`, then a
      neighbour within the slice (y +- 1, z +- 1) of the other state, and a
      toggled and extruded design that is still connected. */
  ghost predicate PairAccepts(s: seq<Byte>, n: int, airPadding: int, avoid: Option<Byte>, d: (nat, nat)) {
    ValidConfig(n, airPadding) && IsDesign(s, n) &&
    var p := PairCells(n, airPadding, d);
    (avoid.None? || s[p.0] != avoid.value) &&
    NeighbourDiffers(s, n, airPadding, CellY(n, p.0), CellZ(n, p.0), ExtrudedAxes, s[p.0]) &&
    Connected(Toggled(s, n, airPadding, p), n, airPadding)
  }

  ghost function PairTest(s: seq<Byte>, n: int, airPadding: int, avoid: Option<Byte>): ((nat, nat)) -> bool {
    d => PairAccepts(s, n, airPadding, avoid, d)
  }

  /** The design `evolveDesignExtruded` leaves behind, or None when the draws
      run out first. The second loop reads the design the first one left
      and avoids the value the first cell had before its toggle. */
  ghost function ExtrudedResult(s: seq<Byte>, n: int, airPadding: int, draws: seq<(nat, nat)>): Option<seq<Byte>>
    requires ValidConfig(n, airPadding) && IsDesign(s, n)
  {
    var k1 := FirstHit(PairTest(s, n, airPadding, None), draws, 0);
    if k1 == |draws| then None
    else
      var p1 := PairCells(n, airPadding, draws[k1]);
      var s1 := Toggled(s, n, airPadding, p1);
      ExtrudedInXShape(Flip(Flip(s, p1.0), p1.1), n, airPadding);
      var k2 := FirstHit(PairTest(s1, n, airPadding, Some(s[p1.0])), draws, k1 + 1);
      if k2 == |draws| then None
      else Some(Toggled(s1, n, airPadding, PairCells(n, airPadding, draws[k2])))
  }

  // ---------------------------------------------------------------------------
  // Properties of the result

  /** What the mutator promises: the design it returns is connected, has
      one cross-section along x, and keeps its border air and its cells 0 or 1. */
  lemma ExtrudedResultConnected(s: seq<Byte>, n: int, airPadding: int, draws: seq<(nat, nat)>)
    requires ValidConfig(n, airPadding) && IsDesign(s, n)
    ensures var r := ExtrudedResult(s, n, airPadding, draws);
      r.Some? ==> (IsDesign(r.value, n) && Connected(r.value, n, airPadding) && UniformInX(r.value, n, airPadding) &&
        (PaddingIsAir(s, n, airPadding) ==> PaddingIsAir(r.value, n, airPadding)) &&
        (Binary(s) ==> Binary(r.value)))
  {
    var k1 := FirstHit(PairTest(s, n, airPadding, None), draws, 0);
    if k1 < |draws| {
      var p1 := PairCells(n, airPadding, draws[k1]);
      var s1 := Toggled(s, n, airPadding, p1);
      ToggledInvariants(s, n, airPadding, draws[k1]);
      var k2 := FirstHit(PairTest(s1, n, airPadding, Some(s[p1.0])), draws, k1 + 1);
      if k2 < |draws| {
        assert PairTest(s1, n, airPadding, Some(s[p1.0]))(draws[k2]);
        assert PairAccepts(s1, n, airPadding, Some(s[p1.0]), draws[k2]);
        ToggledInvariants(s1, n, airPadding, draws[k2]);
      }
    }
  }

  /** Toggling a pair and extruding keeps the border air, the cells 0 or 1,
      and gives a design with one cross-section. */
  lemma ToggledInvariants(s: seq<Byte>, n: int, airPadding: int, d: (nat, nat))
    requires ValidConfig(n, airPadding) && IsDesign(s, n)
    ensures var t := Toggled(s, n, airPadding, PairCells(n, airPadding, d));
      IsDesign(t, n) && UniformInX(t, n, airPadding) &&
      (PaddingIsAir(s, n, airPadding) ==> PaddingIsAir(t, n, airPadding)) &&
      (Binary(s) ==> Binary(t))
  {
    var p := PairCells(n, airPadding, d);
    PairCellsInterior(n, airPadding, d);
    FlipPairInvariants(s, n, airPadding, p.0, p.1);
    ExtrudedInXShape(Flip(Flip(s, p.0), p.1), n, airPadding);
    ExtrudedInXInvariants(Flip(Flip(s, p.0), p.1), n, airPadding);
  }

  /** The design is its own mirror image in z. */
  ghost predicate MirroredInZ(s: seq<Byte>, n: int)
    requires IsDesign(s, n)
  {
    forall x, y, z :: InLattice(n, x, y, z) ==> At(s, n, x, y, z) == At(s, n, x, y, n - 1 - z)
  }

  /** Since both cells of a pair are toggled together, a design that is its
      own mirror image in z stays so. */
  lemma ToggledKeepsMirror(s: seq<Byte>, n: int, airPadding: int, d: (nat, nat))
    requires ValidConfig(n, airPadding) && IsDesign(s, n) && MirroredInZ(s, n)
    ensures MirroredInZ(Toggled(s, n, airPadding, PairCells(n, airPadding, d)), n)
  {
    var p := PairCells(n, airPadding, d);
    IndexDecode(n, p.0);
    IndexDecode(n, p.1);
    FlipMirroredKeepsMirror(s, n, airPadding, CellY(n, p.0), CellZ(n, p.0));
    ExtrudedInXKeepsMirror(Flip(Flip(s, p.0), p.1), n, airPadding);
  }

  /** Flipping a cell together with its mirror image in z keeps a z-mirrored design z-mirrored. */
  lemma FlipMirroredKeepsMirror(s: seq<Byte>, n: int, x0: int, y0: int, z0: int)
    requires IsDesign(s, n) && n % 2 == 0 && InLattice(n, x0, y0, z0) && MirroredInZ(s, n)
    ensures 0 <= Idx(n, x0, y0, z0) < |s| && 0 <= Idx(n, x0, y0, n - 1 - z0) < |s|
    ensures MirroredInZ(Flip(Flip(s, Idx(n, x0, y0, z0)), Idx(n, x0, y0, n - 1 - z0)), n)
  {
    var i, j := Idx(n, x0, y0, z0), Idx(n, x0, y0, n - 1 - z0);
    IdxDecode(n, x0, y0, z0);
    IdxDecode(n, x0, y0, n - 1 - z0);
    var f := Flip(Flip(s, i), j);
    forall x, y, z | InLattice(n, x, y, z) ensures At(f, n, x, y, z) == At(f, n, x, y, n - 1 - z) {
      var a, b := Idx(n, x, y, z), Idx(n, x, y, n - 1 - z);
      IdxDecode(n, x, y, z);
      IdxDecode(n, x, y, n - 1 - z);
      assert s[a] == s[b] by { assert At(s, n, x, y, z) == At(s, n, x, y, n - 1 - z); }
      if x == x0 && y == y0 && (z == z0 || z == n - 1 - z0) {
        assert (a == i && b == j) || (a == j && b == i);
        assert i != j;
      } else {
        IdxInjective(n, x, y, z, x0, y0, z0);
        IdxInjective(n, x, y, z, x0, y0, n - 1 - z0);
        IdxInjective(n, x, y, n - 1 - z, x0, y0, z0);
        IdxInjective(n, x, y, n - 1 - z, x0, y0, n - 1 - z0);
        assert f[a] == s[a] && f[b] == s[b];
      }
    }
  }

  /** The extrusion along x commutes with the mirror in z. */
  lemma ExtrudedInXKeepsMirror(s: seq<Byte>, n: int, airPadding: int)
    requires ValidConfig(n, airPadding) && IsDesign(s, n) && MirroredInZ(s, n)
    ensures MirroredInZ(ExtrudedInX(s, n, airPadding), n)
  {
    var r := ExtrudedInX(s, n, airPadding);
    forall x, y, z | InLattice(n, x, y, z) ensures At(r, n, x, y, z) == At(r, n, x, y, n - 1 - z) {
      IdxDecode(n, x, y, z);
      IdxDecode(n, x, y, n - 1 - z);
      assert At(r, n, x, y, z) == if InExtrusionX(n, airPadding, x, y, z) then At(s, n, airPadding, y, z) else At(s, n, x, y, z);
      assert At(r, n, x, y, n - 1 - z) ==
        if InExtrusionX(n, airPadding, x, y, n - 1 - z) then At(s, n, airPadding, y, n - 1 - z) else At(s, n, x, y, n - 1 - z);
    }
  }

  /** Both toggles of `evolveDesignExtruded` keep a z-mirrored design z-mirrored. */
  lemma ExtrudedResultKeepsMirror(s: seq<Byte>, n: int, airPadding: int, draws: seq<(nat, nat)>)
    requires ValidConfig(n, airPadding) && IsDesign(s, n) && MirroredInZ(s, n)
    ensures var r := ExtrudedResult(s, n, airPadding, draws);
      r.Some? ==> IsDesign(r.value, n) && MirroredInZ(r.value, n)
  {
    var k1 := FirstHit(PairTest(s, n, airPadding, None), draws, 0);
    if k1 < |draws| {
      var p1 := PairCells(n, airPadding, draws[k1]);
      var s1 := Toggled(s, n, airPadding, p1);
      ToggledInvariants(s, n, airPadding, draws[k1]);
      ToggledKeepsMirror(s, n, airPadding, draws[k1]);
      var k2 := FirstHit(PairTest(s1, n, airPadding, Some(s[p1.0])), draws, k1 + 1);
      if k2 < |draws| {
        ToggledInvariants(s1, n, airPadding, draws[k2]);
        ToggledKeepsMirror(s1, n, airPadding, draws[k2]);
      }
    }
  }

  // ---------------------------------------------------------------------------
  // Volume

  /** Toggling the cells (x', y, z1) and (x', y, z2) of every slice x' from x up to xe. */
  ghost function FlipColumns(s: seq<Byte>, n: int, x: int, xe: int, y: int, z1: int, z2: int): (r: seq<Byte>)
    requires IsDesign(s, n) && 0 <= x && xe <= n && 0 <= y < n && 0 <= z1 < n && 0 <= z2 < n
    ensures |r| == |s|
    decreases xe - x
  {
    if x >= xe then s
    else
      IdxDecode(n, x, y, z1);
      IdxDecode(n, x, y, z2);
      FlipColumns(Flip(Flip(s, Idx(n, x, y, z1)), Idx(n, x, y, z2)), n, x + 1, xe, y, z1, z2)
  }

  /** The cell at index i is one of the cells `FlipColumns` toggles. */
  ghost predicate InColumns(n: int, i: int, x: int, xe: int, y: int, z1: int, z2: int)
    requires 0 < n
  {
    x <= CellX(n, i) < xe && CellY(n, i) == y && (CellZ(n, i) == z1 || CellZ(n, i) == z2)
  }

  /** The columns from slice x on are the two cells of slice x and the columns from slice x + 1 on. */
  lemma ColumnsSplit(n: int, i: int, x: int, xe: int, y: int, z1: int, z2: int)
    requires 0 < n && 0 <= i < n * n * n && 0 <= x < xe <= n && 0 <= y < n && 0 <= z1 < n && 0 <= z2 < n
    ensures InColumns(n, i, x, xe, y, z1, z2) <==>
      InColumns(n, i, x + 1, xe, y, z1, z2) || i == Idx(n, x, y, z1) || i == Idx(n, x, y, z2)
    ensures InColumns(n, i, x + 1, xe, y, z1, z2) ==> i != Idx(n, x, y, z1) && i != Idx(n, x, y, z2)
  {
    IndexDecode(n, i);
    IdxDecode(n, x, y, z1);
    IdxDecode(n, x, y, z2);
    if CellX(n, i) == x && CellY(n, i) == y && CellZ(n, i) == z1 {
      assert i == Idx(n, x, y, z1);
    }
    if CellX(n, i) == x && CellY(n, i) == y && CellZ(n, i) == z2 {
      assert i == Idx(n, x, y, z2);
    }
  }

  /** `FlipColumns` toggles exactly the cells of its columns. */
  lemma {:induction false} FlipColumnsAt(s: seq<Byte>, n: int, x: int, xe: int, y: int, z1: int, z2: int, i: int)
    requires IsDesign(s, n) && 0 <= x && xe <= n && 0 <= y < n && 0 <= z1 < n && 0 <= z2 < n && z1 != z2
    requires 0 <= i < |s|
    ensures FlipColumns(s, n, x, xe, y, z1, z2)[i] == if InColumns(n, i, x, xe, y, z1, z2) then s[i] ^ 1 else s[i]
    decreases xe - x
  {
    if x < xe {
      var a, b := Idx(n, x, y, z1), Idx(n, x, y, z2);
      IdxDecode(n, x, y, z1);
      IdxDecode(n, x, y, z2);
      IdxInjective(n, x, y, z1, x, y, z2);
      var f := Flip(Flip(s, a), b);
      assert FlipColumns(s, n, x, xe, y, z1, z2) == FlipColumns(f, n, x + 1, xe, y, z1, z2);
      FlipColumnsAt(f, n, x + 1, xe, y, z1, z2, i);
      ColumnsSplit(n, i, x, xe, y, z1, z2);
      assert s[i] ^ 1 ^ 1 == s[i];
    }
  }

  /** Every cell of the columns holds v. */
  ghost predicate ColumnsHold(s: seq<Byte>, n: int, x: int, xe: int, y: int, z1: int, z2: int, v: Byte)
    requires IsDesign(s, n) && 0 <= x && xe <= n && 0 <= y < n && 0 <= z1 < n && 0 <= z2 < n
  {
    forall x' :: x <= x' < xe ==> At(s, n, x', y, z1) == v && At(s, n, x', y, z2) == v
  }

  /** Toggling 2 (xe - x) cells that all hold v changes the metal volume by
      2 (xe - x), up when v is air and down when it is metal. */
  lemma {:induction false} FlipColumnsCount(s: seq<Byte>, n: int, x: int, xe: int, y: int, z1: int, z2: int, v: Byte)
    requires IsDesign(s, n) && 0 <= x <= xe <= n && 0 <= y < n && 0 <= z1 < n && 0 <= z2 < n && z1 != z2
    requires Binary(s) && (v == 0 || v == 1) && ColumnsHold(s, n, x, xe, y, z1, z2, v)
    ensures Count(FlipColumns(s, n, x, xe, y, z1, z2)) == if v == 0 then Count(s) + 2 * (xe - x) else Count(s) - 2 * (xe - x)
    decreases xe - x
  {
    if x < xe {
      var a, b := Idx(n, x, y, z1), Idx(n, x, y, z2);
      IdxDecode(n, x, y, z1);
      IdxDecode(n, x, y, z2);
      IdxInjective(n, x, y, z1, x, y, z2);
      assert s[a] == v && s[b] == v by { assert At(s, n, x, y, z1) == v && At(s, n, x, y, z2) == v; }
      var f := Flip(Flip(s, a), b);
      FlipPairCount(s, a, b, v);
      assert ColumnsHold(f, n, x + 1, xe, y, z1, z2, v) by {
        forall x' | x + 1 <= x' < xe ensures At(f, n, x', y, z1) == v && At(f, n, x', y, z2) == v {
          assert At(s, n, x', y, z1) == v && At(s, n, x', y, z2) == v;
          var i1, i2 := Idx(n, x', y, z1), Idx(n, x', y, z2);
          IdxDecode(n, x', y, z1);
          IdxDecode(n, x', y, z2);
          IdxInjective(n, x', y, z1, x, y, z1);
          IdxInjective(n, x', y, z1, x, y, z2);
          IdxInjective(n, x', y, z2, x, y, z1);
          IdxInjective(n, x', y, z2, x, y, z2);
          assert f[i1] == s[i1] && f[i2] == s[i2];
        }
      }
      FlipColumnsCount(f, n, x + 1, xe, y, z1, z2, v);
      assert FlipColumns(s, n, x, xe, y, z1, z2) == FlipColumns(f, n, x + 1, xe, y, z1, z2);
    }
  }

  /** Toggling two distinct cells that both hold v changes the metal volume by 2. */
  lemma FlipPairCount(s: seq<Byte>, a: int, b: int, v: Byte)
    requires Binary(s) && 0 <= a < |s| && 0 <= b < |s| && a != b && s[a] == v && s[b] == v && (v == 0 || v == 1)
    ensures Binary(Flip(Flip(s, a), b))
    ensures Count(Flip(Flip(s, a), b)) == if v == 0 then Count(s) + 2 else Count(s) - 2
  {
    CountUpdate(s, a, s[a] ^ 1);
    CountUpdate(Flip(s, a), b, s[b] ^ 1);
  }

  /** On a design with one cross-section, toggling a pair and extruding
      toggles the pair's two columns through the whole extruded box. */
  lemma ToggledIsColumns(s: seq<Byte>, n: int, airPadding: int, d: (nat, nat))
    requires ValidConfig(n, airPadding) && IsDesign(s, n) && UniformInX(s, n, airPadding)
    ensures var p := PairCells(n, airPadding, d);
      Toggled(s, n, airPadding, p) ==
        FlipColumns(s, n, airPadding, n - airPadding, CellY(n, p.0), CellZ(n, p.0), n - 1 - CellZ(n, p.0))
  {
    var p := PairCells(n, airPadding, d);
    var y, z := CellY(n, p.0), CellZ(n, p.0);
    var t := Toggled(s, n, airPadding, p);
    var c := FlipColumns(s, n, airPadding, n - airPadding, y, z, n - 1 - z);
    forall i | 0 <= i < |s| ensures t[i] == c[i] {
      FlipColumnsAt(s, n, airPadding, n - airPadding, y, z, n - 1 - z, i);
      ToggledAt(s, n, airPadding, d, i);
    }
  }

  /** One cell of the toggled and extruded design. */
  lemma ToggledAt(s: seq<Byte>, n: int, airPadding: int, d: (nat, nat), i: int)
    requires ValidConfig(n, airPadding) && IsDesign(s, n) && UniformInX(s, n, airPadding) && 0 <= i < |s|
    ensures var p := PairCells(n, airPadding, d);
      var y, z := CellY(n, p.0), CellZ(n, p.0);
      Toggled(s, n, airPadding, p)[i] == if InColumns(n, i, airPadding, n - airPadding, y, z, n - 1 - z) then s[i] ^ 1 else s[i]
  {
    var p := PairCells(n, airPadding, d);
    var y, z := CellY(n, p.0), CellZ(n, p.0);
    IndexDecode(n, p.0);
    IndexDecode(n, p.1);
    var f := Flip(Flip(s, p.0), p.1);
    var t := Toggled(s, n, airPadding, p);
    IndexDecode(n, i);
    var x', y', z' := CellX(n, i), CellY(n, i), CellZ(n, i);
    if InExtrusionX(n, airPadding, x', y', z') {
      var j := Idx(n, airPadding, y', z');
      IdxDecode(n, airPadding, y', z');
      assert t[i] == f[j];
      assert s[j] == s[i] by { assert At(s, n, x', y', z') == At(s, n, airPadding, y', z'); }
      if j != p.0 && j != p.1 {
        assert !(y' == y && (z' == z || z' == n - 1 - z));
      }
    } else {
      assert t[i] == f[i];
    }
  }

  /** On a 0/1 design with one cross-section that is its own mirror image in
      z, one toggle-and-extrude changes the metal volume by 2 (N - 2
      airPadding): up when the pair was air, down when it was metal. */
  lemma ToggledCount(s: seq<Byte>, n: int, airPadding: int, d: (nat, nat))
    requires ValidConfig(n, airPadding) && IsDesign(s, n) && Binary(s)
    requires MirroredInZ(s, n) && UniformInX(s, n, airPadding)
    ensures var p := PairCells(n, airPadding, d);
      Count(Toggled(s, n, airPadding, p)) ==
        if s[p.0] == 0 then Count(s) + 2 * (n - 2 * airPadding) else Count(s) - 2 * (n - 2 * airPadding)
  {
    var p := PairCells(n, airPadding, d);
    var y, z := CellY(n, p.0), CellZ(n, p.0);
    var c := FlipColumns(s, n, airPadding, n - airPadding, y, z, n - 1 - z);
    assert Toggled(s, n, airPadding, p) == c by { ToggledIsColumns(s, n, airPadding, d); }
    PairColumnsHold(s, n, airPadding, d);
    FlipColumnsCount(s, n, airPadding, n - airPadding, y, z, n - 1 - z, s[p.0]);
  }

  /** On such a design both columns of a pair hold the first cell's value in every slice of the box. */
  lemma PairColumnsHold(s: seq<Byte>, n: int, airPadding: int, d: (nat, nat))
    requires ValidConfig(n, airPadding) && IsDesign(s, n) && Binary(s)
    requires MirroredInZ(s, n) && UniformInX(s, n, airPadding)
    ensures var p := PairCells(n, airPadding, d);
      var y, z := CellY(n, p.0), CellZ(n, p.0);
      0 <= y < n && airPadding <= z < n - airPadding && z != n - 1 - z && (s[p.0] == 0 || s[p.0] == 1) &&
      ColumnsHold(s, n, airPadding, n - airPadding, y, z, n - 1 - z, s[p.0])
  {
    var p := PairCells(n, airPadding, d);
    var y, z := CellY(n, p.0), CellZ(n, p.0);
    IndexDecode(n, p.0);
    var v := s[p.0];
    assert At(s, n, airPadding, y, z) == v;
    assert At(s, n, airPadding, y, n - 1 - z) == v;
    forall x' | airPadding <= x' < n - airPadding
      ensures At(s, n, x', y, z) == v && At(s, n, x', y, n - 1 - z) == v
    {
      assert At(s, n, x', y, z) == At(s, n, airPadding, y, z);
      assert At(s, n, x', y, n - 1 - z) == At(s, n, airPadding, y, n - 1 - z);
    }
  }

  /** `evolveDesignExtruded` keeps the metal volume of a 0/1 design with one
      cross-section that is its own mirror image in z: the second pair has
      the other state than the first, so its columns undo the first pair's
      change of volume. */
  lemma ExtrudedResultKeepsCount(s: seq<Byte>, n: int, airPadding: int, draws: seq<(nat, nat)>)
    requires ValidConfig(n, airPadding) && IsDesign(s, n) && Binary(s)
    requires MirroredInZ(s, n) && UniformInX(s, n, airPadding)
    ensures var r := ExtrudedResult(s, n, airPadding, draws);
      r.Some? ==> Count(r.value) == Count(s)
  {
    var k1 := FirstHit(PairTest(s, n, airPadding, None), draws, 0);
    if k1 < |draws| {
      var p1 := PairCells(n, airPadding, draws[k1]);
      var s1 := Toggled(s, n, airPadding, p1);
      ToggledInvariants(s, n, airPadding, draws[k1]);
      ToggledKeepsMirror(s, n, airPadding, draws[k1]);
      ToggledCount(s, n, airPadding, draws[k1]);
      var k2 := FirstHit(PairTest(s1, n, airPadding, Some(s[p1.0])), draws, k1 + 1);
      if k2 < |draws| {
        assert PairTest(s1, n, airPadding, Some(s[p1.0]))(draws[k2]);
        assert PairAccepts(s1, n, airPadding, Some(s[p1.0]), draws[k2]);
        var p2 := PairCells(n, airPadding, draws[k2]);
        assert s1[p2.0] != s[p1.0];
        assert s[p1.0] == 0 || s[p1.0] == 1;
        assert s1[p2.0] == 0 || s1[p2.0] == 1;
        ToggledCount(s1, n, airPadding, draws[k2]);
      }
    }
  }

  // ---------------------------------------------------------------------------
  // Slices

  /** Flipping the same cell of two designs keeps them agreeing wherever they agreed. */
  lemma FlipKeepsSameSlice(s: seq<Byte>, t: seq<Byte>, n: int, airPadding: int, i: int)
    requires IsDesign(s, n) && IsDesign(t, n) && SameSliceAndPadding(s, t, n, airPadding) && 0 <= i < |s|
    ensures SameSliceAndPadding(Flip(s, i), Flip(t, i), n, airPadding)
  {
    IdxFacts(n);
  }

  lemma SameSliceTransitive(s: seq<Byte>, t: seq<Byte>, u: seq<Byte>, n: int, airPadding: int)
    requires IsDesign(s, n) && IsDesign(t, n) && IsDesign(u, n)
    requires SameSliceAndPadding(s, t, n, airPadding) && SameSliceAndPadding(t, u, n, airPadding)
    ensures SameSliceAndPadding(s, u, n, airPadding)
  {
  }

  /** Flipping two cells twice gives the design back. */
  lemma FlipPairTwice(s: seq<Byte>, i: int, j: int)
    requires 0 <= i < |s| && 0 <= j < |s|
    ensures Flip(Flip(Flip(Flip(s, i), j), i), j) == s
  {
    var r := Flip(Flip(Flip(Flip(s, i), j), i), j);
    forall k | 0 <= k < |s| ensures r[k] == s[k] {
      assert s[k] ^ 1 ^ 1 == s[k];
    }
  }

  // ---------------------------------------------------------------------------
  // The mutator

  /** What a rejected attempt leaves: the border still air, and the border
      and the slice x == airPadding as in `s0`. */
  ghost predicate SliceKept(s: seq<Byte>, s0: seq<Byte>, n: int, airPadding: int) {
    IsDesign(s, n) && IsDesign(s0, n) && PaddingIsAir(s, n, airPadding) && SameSliceAndPadding(s, s0, n, airPadding)
  }

  /** One attempt: toggle the pair, extrude, test connectivity, and toggle
      the pair back if the test fails. Only the slice x == airPadding is
      put back: the other slices keep the rejected extrusion. `s0` is a
      design with the slice and border the grid has. */
  method AttemptPair(g: Grid, i1: int, i2: int, ghost s0: seq<Byte>) returns (connected: bool)
    requires g.Valid() && IsDesign(s0, g.n) && 0 <= i1 < |s0| && 0 <= i2 < |s0|
    requires !IsPadding(g.n, g.airPadding, CellX(g.n, i1), CellY(g.n, i1), CellZ(g.n, i1))
    requires !IsPadding(g.n, g.airPadding, CellX(g.n, i2), CellY(g.n, i2), CellZ(g.n, i2))
    requires SliceKept(g.cellEnabled[..], s0, g.n, g.airPadding)
    modifies g.cellEnabled, g.disconnectedComponentTable
    ensures connected == Connected(Toggled(s0, g.n, g.airPadding, (i1, i2)), g.n, g.airPadding)
    ensures connected ==> g.cellEnabled[..] == Toggled(s0, g.n, g.airPadding, (i1, i2))
    ensures !connected ==> SliceKept(g.cellEnabled[..], s0, g.n, g.airPadding)
  {
    var n, ap := g.n, g.airPadding;
    ghost var c := g.cellEnabled[..];
    FlipPair(g, i1, i2);
    ghost var f := g.cellEnabled[..];
    FlipPairInvariants(c, n, ap, i1, i2);
    FlipKeepsSameSlice(c, s0, n, ap, i1);
    FlipKeepsSameSlice(Flip(c, i1), Flip(s0, i1), n, ap, i2);
    ExtrudedInXReadsSlice(f, Flip(Flip(s0, i1), i2), n, ap);
    ExtrudedInXInvariants(f, n, ap);
    ExtrudeDesignInX(g);
    var r := HasDisconnectedComponents(g);
    if r {
      ghost var e := g.cellEnabled[..];
      FlipPair(g, i1, i2);
      FlipPairInvariants(e, n, ap, i1, i2);
      ExtrudedInXShape(f, n, ap);
      FlipKeepsSameSlice(e, f, n, ap, i1);
      FlipKeepsSameSlice(Flip(e, i1), Flip(f, i1), n, ap, i2);
      FlipPairTwice(c, i1, i2);
      SameSliceTransitive(g.cellEnabled[..], c, s0, n, ap);
    }
    connected := !r;
  }

  /** The four neighbour tests of one draw, in the order of the `axes`
      table, attempting the toggle for each neighbour of the other state
      than `v` until an attempt keeps the design connected. */
  method TryAxes(g: Grid, p: (int, int), y: int, z: int, v: Byte, ghost s0: seq<Byte>) returns (accepted: bool)
    requires g.Valid() && IsDesign(s0, g.n) && 0 <= p.0 < |s0| && 0 <= p.1 < |s0|
    requires !IsPadding(g.n, g.airPadding, CellX(g.n, p.0), CellY(g.n, p.0), CellZ(g.n, p.0))
    requires !IsPadding(g.n, g.airPadding, CellX(g.n, p.1), CellY(g.n, p.1), CellZ(g.n, p.1))
    requires 0 < y < g.n - 1 && 0 < z < g.n - 1
    requires SliceKept(g.cellEnabled[..], s0, g.n, g.airPadding)
    modifies g.cellEnabled, g.disconnectedComponentTable
    ensures accepted == (NeighbourDiffers(s0, g.n, g.airPadding, y, z, ExtrudedAxes, v) && Connected(Toggled(s0, g.n, g.airPadding, p), g.n, g.airPadding))
    ensures accepted ==> g.cellEnabled[..] == Toggled(s0, g.n, g.airPadding, p)
    ensures !accepted ==> SliceKept(g.cellEnabled[..], s0, g.n, g.airPadding)
  {
    var n, ap := g.n, g.airPadding;
    NeighboursInLattice(n, ap, y, z, ExtrudedAxes);
    var i := 0;
    while i < |ExtrudedAxes|
      invariant 0 <= i <= |ExtrudedAxes|
      invariant SliceKept(g.cellEnabled[..], s0, n, ap)
      invariant (exists k :: 0 <= k < i && At(s0, n, ap, y + ExtrudedAxes[k].dy, z + ExtrudedAxes[k].dz) != v) ==>
        !Connected(Toggled(s0, n, ap, p), n, ap)
    {
      var a := ExtrudedAxes[i];
      var connected := TryNeighbour(g, p, y + a.dy, z + a.dz, v, s0);
      if connected {
        return true;
      }
      i := i + 1;
    }
    accepted := false;
  }

  /** The body of the test loop for one neighbour (airPadding, y, z) of the
      pair's first cell: when it differs from `v`, one attempt. */
  method TryNeighbour(g: Grid, p: (int, int), y: int, z: int, v: Byte, ghost s0: seq<Byte>) returns (connected: bool)
    requires g.Valid() && IsDesign(s0, g.n) && 0 <= p.0 < |s0| && 0 <= p.1 < |s0|
    requires !IsPadding(g.n, g.airPadding, CellX(g.n, p.0), CellY(g.n, p.0), CellZ(g.n, p.0))
    requires !IsPadding(g.n, g.airPadding, CellX(g.n, p.1), CellY(g.n, p.1), CellZ(g.n, p.1))
    requires InLattice(g.n, g.airPadding, y, z)
    requires SliceKept(g.cellEnabled[..], s0, g.n, g.airPadding)
    modifies g.cellEnabled, g.disconnectedComponentTable
    ensures At(s0, g.n, g.airPadding, y, z) != v && Connected(Toggled(s0, g.n, g.airPadding, p), g.n, g.airPadding) ==> connected
    ensures connected ==> At(s0, g.n, g.airPadding, y, z) != v && Connected(Toggled(s0, g.n, g.airPadding, p), g.n, g.airPadding)
    ensures At(s0, g.n, g.airPadding, y, z) != v && !connected ==> !Connected(Toggled(s0, g.n, g.airPadding, p), g.n, g.airPadding)
    ensures connected ==> g.cellEnabled[..] == Toggled(s0, g.n, g.airPadding, p)
    ensures !connected ==> SliceKept(g.cellEnabled[..], s0, g.n, g.airPadding)
  {
    var n, ap := g.n, g.airPadding;
    IdxDecode(n, ap, y, z);
    assert At(g.cellEnabled[..], n, ap, y, z) == At(s0, n, ap, y, z);
    connected := false;
    if g.cellEnabled[Idx(n, ap, y, z)] != v {
      connected := AttemptPair(g, p.0, p.1, s0);
    }
  }

  /** One draw of a rejection loop of `evolveDesignExtruded`: the value of
      the first cell of the pair, then the neighbour tests. */
  method TryPair(g: Grid, d: (nat, nat), avoid: Option<Byte>, ghost s0: seq<Byte>) returns (accepted: bool, v: Byte)
    requires g.Valid() && IsDesign(s0, g.n) && SliceKept(g.cellEnabled[..], s0, g.n, g.airPadding)
    modifies g.cellEnabled, g.disconnectedComponentTable
    ensures accepted == PairAccepts(s0, g.n, g.airPadding, avoid, d)
    ensures v == s0[PairCells(g.n, g.airPadding, d).0]
    ensures accepted ==> g.cellEnabled[..] == Toggled(s0, g.n, g.airPadding, PairCells(g.n, g.airPadding, d))
    ensures !accepted ==> SliceKept(g.cellEnabled[..], s0, g.n, g.airPadding)
  {
    var n, ap := g.n, g.airPadding;
    var p := PairCells(n, ap, d);
    var y, z := CellY(n, p.0), CellZ(n, p.0);
    PairCellsInterior(n, ap, d);
    IdxDecode(n, ap, y, z);
    assert p.0 == Idx(n, ap, y, z);
    assert At(g.cellEnabled[..], n, ap, y, z) == At(s0, n, ap, y, z);
    v := g.cellEnabled[p.0];
    if avoid.Some? && v == avoid.value {
      return false, v;
    }
    accepted := TryAxes(g, p, y, z, v, s0);
  }

  /** One rejection loop of `evolveDesignExtruded`: draws from `start` on
      until one is accepted; |draws| if none is. `v` is the value the
      accepted cell had before its toggle. */
  method FindPair(g: Grid, draws: seq<(nat, nat)>, start: nat, avoid: Option<Byte>, ghost s0: seq<Byte>) returns (k: nat, v: Byte)
    requires g.Valid() && IsDesign(s0, g.n) && start <= |draws| && SliceKept(g.cellEnabled[..], s0, g.n, g.airPadding)
    modifies g.cellEnabled, g.disconnectedComponentTable
    ensures k == FirstHit(PairTest(s0, g.n, g.airPadding, avoid), draws, start)
    ensures k < |draws| ==> v == s0[PairCells(g.n, g.airPadding, draws[k]).0]
    ensures k < |draws| ==> g.cellEnabled[..] == Toggled(s0, g.n, g.airPadding, PairCells(g.n, g.airPadding, draws[k]))
    ensures k == |draws| ==> PaddingIsAir(g.cellEnabled[..], g.n, g.airPadding)
  {
    k := start;
    v := 0;
    while k < |draws|
      invariant start <= k <= |draws|
      invariant SliceKept(g.cellEnabled[..], s0, g.n, g.airPadding)
      invariant forall j :: start <= j < k ==> !PairTest(s0, g.n, g.airPadding, avoid)(draws[j])
    {
      var accepted;
      accepted, v := TryPair(g, draws[k], avoid, s0);
      if accepted {
        return;
      }
      k := k + 1;
    }
  }

  /** `evolveDesignExtruded()`. `ok` is false when the draws run out before
      both pairs are toggled, where the source would keep drawing. */
  method EvolveDesignExtruded(g: Grid, draws: seq<(nat, nat)>) returns (ok: bool)
    requires g.Valid() && PaddingIsAir(g.cellEnabled[..], g.n, g.airPadding)
    modifies g.cellEnabled, g.disconnectedComponentTable
    ensures ok == ExtrudedResult(old(g.cellEnabled[..]), g.n, g.airPadding, draws).Some?
    ensures ok ==> g.cellEnabled[..] == ExtrudedResult(old(g.cellEnabled[..]), g.n, g.airPadding, draws).value
    ensures PaddingIsAir(g.cellEnabled[..], g.n, g.airPadding)
  {
    var n, ap := g.n, g.airPadding;
    ghost var s := g.cellEnabled[..];
    var k1, v := FindPair(g, draws, 0, None, s);
    if k1 == |draws| {
      return false;
    }
    ghost var p1 := PairCells(n, ap, draws[k1]);
    ToggledInvariants(s, n, ap, draws[k1]);
    ghost var s1 := g.cellEnabled[..];
    var k2, _ := FindPair(g, draws, k1 + 1, Some(v), s1);
    if k2 == |draws| {
      return false;
    }
    ToggledInvariants(s1, n, ap, draws[k2]);
    ExtrudedInXOfUniform(g.cellEnabled[..], n, ap);
    ExtrudeDesignInX(g);
    ok := true;
  }
}
