/** The CPU part of `preprocessDesign`: the `isCellOnBoundary` flags, which
    mark the metal cells with at least one face not covered by metal. */
module Boundary {
  import opened Lattice
  import opened VoxelGrid
  import opened Mutation

  /** The face of (x, y, z) towards `o` is open: the neighbour is outside
      the lattice or holds 0. */
  predicate FaceExposed(s: seq<Byte>, n: int, x: int, y: int, z: int, o: Offset)
    requires IsDesign(s, n)
  {
    !InLattice(n, x + o.dx, y + o.dy, z + o.dz) || At(s, n, x + o.dx, y + o.dy, z + o.dz) == 0
  }

  /** The flag of one cell: 0 for a cell holding 0, otherwise 1 exactly when
      one of its six faces, taken in the order of the `axes` table, is open. */
  function BoundaryFlag(s: seq<Byte>, n: int, x: int, y: int, z: int): Byte
    requires IsDesign(s, n) && InLattice(n, x, y, z)
  {
    if At(s, n, x, y, z) == 0 then 0
    else if exists k :: 0 <= k < |CubeAxes| && FaceExposed(s, n, x, y, z, CubeAxes[k]) then 1
    else 0
  }

  /** The flags of a whole design, index by index. */
  ghost function BoundaryFlags(s: seq<Byte>, n: int): seq<Byte>
    requires IsDesign(s, n)
  {
    seq(|s|, i requires 0 <= i < |s| =>
      IndexDecode(n, i);
      BoundaryFlag(s, n, CellX(n, i), CellY(n, i), CellZ(n, i)))
  }

  /** A cell is flagged exactly when it is enabled and one of its six face
      neighbours is outside the lattice or disabled; every flag is 0 or 1. */
  lemma BoundaryFlagsIff(s: seq<Byte>, n: int, x: int, y: int, z: int)
    requires IsDesign(s, n) && InLattice(n, x, y, z)
    ensures 0 <= Idx(n, x, y, z) < |s| && |BoundaryFlags(s, n)| == |s|
    ensures var f := BoundaryFlags(s, n)[Idx(n, x, y, z)]; f == 0 || f == 1
    ensures BoundaryFlags(s, n)[Idx(n, x, y, z)] == 1 <==>
      s[Idx(n, x, y, z)] != 0 &&
      (x == 0 || At(s, n, x - 1, y, z) == 0 || x == n - 1 || At(s, n, x + 1, y, z) == 0 ||
       y == 0 || At(s, n, x, y - 1, z) == 0 || y == n - 1 || At(s, n, x, y + 1, z) == 0 ||
       z == 0 || At(s, n, x, y, z - 1) == 0 || z == n - 1 || At(s, n, x, y, z + 1) == 0)
  {
    IdxDecode(n, x, y, z);
    if x == 0 { assert FaceExposed(s, n, x, y, z, CubeAxes[1]); }
    if x == n - 1 { assert FaceExposed(s, n, x, y, z, CubeAxes[0]); }
    if y == 0 { assert FaceExposed(s, n, x, y, z, CubeAxes[3]); }
    if y == n - 1 { assert FaceExposed(s, n, x, y, z, CubeAxes[2]); }
    if z == 0 { assert FaceExposed(s, n, x, y, z, CubeAxes[5]); }
    if z == n - 1 { assert FaceExposed(s, n, x, y, z, CubeAxes[4]); }
    if 0 < x && At(s, n, x - 1, y, z) == 0 { assert FaceExposed(s, n, x, y, z, CubeAxes[1]); }
    if x < n - 1 && At(s, n, x + 1, y, z) == 0 { assert FaceExposed(s, n, x, y, z, CubeAxes[0]); }
    if 0 < y && At(s, n, x, y - 1, z) == 0 { assert FaceExposed(s, n, x, y, z, CubeAxes[3]); }
    if y < n - 1 && At(s, n, x, y + 1, z) == 0 { assert FaceExposed(s, n, x, y, z, CubeAxes[2]); }
    if 0 < z && At(s, n, x, y, z - 1) == 0 { assert FaceExposed(s, n, x, y, z, CubeAxes[5]); }
    if z < n - 1 && At(s, n, x, y, z + 1) == 0 { assert FaceExposed(s, n, x, y, z, CubeAxes[4]); }
    assert BoundaryFlags(s, n)[Idx(n, x, y, z)] == BoundaryFlag(s, n, x, y, z);
  }

  /** The body of the loop for one cell: clear the flag of a cell holding 0;
      otherwise clear it, then set it and stop at the first open face. */
  method FlagCell(g: Grid, x: int, y: int, z: int)
    requires g.Valid() && InLattice(g.n, x, y, z)
    modifies g.isCellOnBoundary
    ensures 0 <= Idx(g.n, x, y, z) < g.isCellOnBoundary.Length
    ensures g.isCellOnBoundary[..] == old(g.isCellOnBoundary[..])[Idx(g.n, x, y, z) := BoundaryFlag(g.cellEnabled[..], g.n, x, y, z)]
  {
    var n := g.n;
    IdxDecode(n, x, y, z);
    var i := Idx(n, x, y, z);
    if g.cellEnabled[i] == 0 {
      g.isCellOnBoundary[i] := 0;
      return;
    }
    g.isCellOnBoundary[i] := 0;
    var k := 0;
    while k < |CubeAxes|
      invariant 0 <= k <= |CubeAxes|
      invariant forall j :: 0 <= j < k ==> !FaceExposed(g.cellEnabled[..], n, x, y, z, CubeAxes[j])
      invariant g.isCellOnBoundary[..] == old(g.isCellOnBoundary[..])[i := 0]
    {
      var a := CubeAxes[k];
      if 0 <= x + a.dx < n && 0 <= y + a.dy < n && 0 <= z + a.dz < n {
        IdxDecode(n, x + a.dx, y + a.dy, z + a.dz);
        if g.cellEnabled[Idx(n, x + a.dx, y + a.dy, z + a.dz)] == 0 {
          assert FaceExposed(g.cellEnabled[..], n, x, y, z, CubeAxes[k]);
          g.isCellOnBoundary[i] := 1;
          return;
        }
      } else {
        assert FaceExposed(g.cellEnabled[..], n, x, y, z, CubeAxes[k]);
        g.isCellOnBoundary[i] := 1;
        return;
      }
      k := k + 1;
    }
  }

  /** `preprocessDesign()`, without its GPU upload: every flag recomputed,
      in x, y, z order. */
  method PreprocessDesign(g: Grid)
    requires g.Valid()
    modifies g.isCellOnBoundary
    ensures g.isCellOnBoundary[..] == BoundaryFlags(g.cellEnabled[..], g.n)
  {
    var n := g.n;
    ghost var f := BoundaryFlags(g.cellEnabled[..], n);
    var x := 0;
    while x < n
      invariant 0 <= x <= n
      invariant forall j :: 0 <= j < n * n * n ==>
        g.isCellOnBoundary[j] == if j < Idx(n, x, 0, 0) then f[j] else old(g.isCellOnBoundary[j])
    {
      FlagPlane(g, x, f);
      x := x + 1;
    }
    RowEnds(n, n, 0);
  }

  /** The y and z loops for plane x: the flags of its cells, and no other. */
  method FlagPlane(g: Grid, x: int, ghost f: seq<Byte>)
    requires g.Valid() && 0 <= x < g.n && f == BoundaryFlags(g.cellEnabled[..], g.n)
    modifies g.isCellOnBoundary
    ensures Idx(g.n, x + 1, 0, 0) <= g.n * g.n * g.n == |f|
    ensures forall j :: 0 <= j < g.n * g.n * g.n ==>
      g.isCellOnBoundary[j] == if Idx(g.n, x, 0, 0) <= j < Idx(g.n, x + 1, 0, 0) then f[j] else old(g.isCellOnBoundary[j])
  {
    var n := g.n;
    PlaneBounds(n, x);
    RowEnds(n, x, n);
    var y := 0;
    while y < n
      invariant 0 <= y <= n
      invariant Idx(n, x, 0, 0) <= Idx(n, x, y, 0) <= Idx(n, x + 1, 0, 0)
      invariant forall j :: 0 <= j < n * n * n ==>
        g.isCellOnBoundary[j] == if Idx(n, x, 0, 0) <= j < Idx(n, x, y, 0) then f[j] else old(g.isCellOnBoundary[j])
    {
      ghost var before := g.isCellOnBoundary[..];
      FlagRow(g, x, y, f);
      RowWithinPlane(n, x, y);
      RowEnds(n, x, y);
      forall j | 0 <= j < n * n * n
        ensures g.isCellOnBoundary[j] == if Idx(n, x, 0, 0) <= j < Idx(n, x, y + 1, 0) then f[j] else old(g.isCellOnBoundary[j])
      {
        if j < Idx(n, x, y, 0) || Idx(n, x, y + 1, 0) <= j {
          assert g.isCellOnBoundary[j] == before[j];
        }
      }
      y := y + 1;
    }
  }

  /** The z loop for row (x, y): the flags of its cells, and no other. */
  method FlagRow(g: Grid, x: int, y: int, ghost f: seq<Byte>)
    requires g.Valid() && 0 <= x < g.n && 0 <= y < g.n && f == BoundaryFlags(g.cellEnabled[..], g.n)
    modifies g.isCellOnBoundary
    ensures Idx(g.n, x, y + 1, 0) <= g.n * g.n * g.n == |f|
    ensures forall j :: 0 <= j < g.n * g.n * g.n ==>
      g.isCellOnBoundary[j] == if Idx(g.n, x, y, 0) <= j < Idx(g.n, x, y + 1, 0) then f[j] else old(g.isCellOnBoundary[j])
  {
    var n := g.n;
    ghost var s := g.cellEnabled[..];
    IdxBounds(n, x, y, n - 1);
    RowEnds(n, x, y);
    var z := 0;
    while z < n
      invariant 0 <= z <= n
      invariant forall j :: 0 <= j < n * n * n ==>
        g.isCellOnBoundary[j] == if Idx(n, x, y, 0) <= j < Idx(n, x, y, z) then f[j] else old(g.isCellOnBoundary[j])
    {
      FlagCell(g, x, y, z);
      FlagAt(s, n, x, y, z);
      z := z + 1;
    }
  }

  /** The entry of `BoundaryFlags` for a lattice cell is its flag. */
  lemma FlagAt(s: seq<Byte>, n: int, x: int, y: int, z: int)
    requires IsDesign(s, n) && InLattice(n, x, y, z)
    ensures 0 <= Idx(n, x, y, z) < |s| && |BoundaryFlags(s, n)| == |s|
    ensures BoundaryFlags(s, n)[Idx(n, x, y, z)] == BoundaryFlag(s, n, x, y, z)
  {
    IdxDecode(n, x, y, z);
  }
}
