/** `exportCurrentHeatsink`: a counting pass over the drawn cells (metal
    cells on the metal-air boundary), a buffer of 108 coordinates per drawn
    cell, a fill pass writing the 12 triangles of each drawn cell, and the
    index buffer 0, 1, 2, ... of the OBJ mesh. The coordinates are small
    integers, which a `float` holds exactly, so they are modelled as `int`. */
module Export {
  import opened Lattice
  import opened VoxelGrid

  /** Largest Java `int`. */
  const MaxInt := 0x7fff_ffff

  /** Cell i is drawn: it is metal and flagged as on the boundary. */
  predicate Drawn(s: seq<Byte>, f: seq<Byte>, i: int)
    requires 0 <= i < |s| == |f|
  {
    s[i] == 1 && f[i] == 1
  }

  /** The number of drawn cells among the first m indices. */
  function DrawnCount(s: seq<Byte>, f: seq<Byte>, m: int): nat
    requires 0 <= m <= |s| == |f|
  {
    if m == 0 then 0 else DrawnCount(s, f, m - 1) + (if Drawn(s, f, m - 1) then 1 else 0)
  }

  lemma {:induction false} DrawnCountMonotone(s: seq<Byte>, f: seq<Byte>, a: int, b: int)
    requires 0 <= a <= b <= |s| == |f|
    ensures DrawnCount(s, f, a) <= DrawnCount(s, f, b) <= DrawnCount(s, f, a) + (b - a)
    decreases b
  {
    if a < b {
      DrawnCountMonotone(s, f, a, b - 1);
    }
  }

  /** The corners of the 12 triangles of a unit cell, offsets from its
      corner (x, y, z), two triangles per face, in the order the fill loop
      writes them: front (z + 1), back (z), right (x + 1), left (x), bottom
      (y) and top (y + 1). */
  const CubeCorners: seq<(int, int, int)> := [
    (1, 0, 1), (1, 1, 1), (0, 1, 1), (1, 0, 1), (0, 0, 1), (0, 1, 1),
    (0, 0, 0), (0, 1, 0), (1, 1, 0), (0, 0, 0), (1, 0, 0), (1, 1, 0),
    (1, 0, 0), (1, 1, 0), (1, 1, 1), (1, 0, 0), (1, 0, 1), (1, 1, 1),
    (0, 0, 1), (0, 1, 1), (0, 1, 0), (0, 0, 1), (0, 0, 0), (0, 1, 0),
    (1, 0, 1), (0, 0, 1), (0, 0, 0), (1, 0, 1), (1, 0, 0), (0, 0, 0),
    (1, 1, 0), (0, 1, 0), (0, 1, 1), (1, 1, 0), (1, 1, 1), (0, 1, 1)
  ]

  /** The 108 coordinates the fill loop writes for cell (x, y, z): its 36
      corners, x, y and z each. */
  function CellVertices(x: int, y: int, z: int): (r: seq<int>)
    ensures |r| == 108
  {
    seq(108, k requires 0 <= k < 108 =>
      var c := CubeCorners[k / 3];
      if k % 3 == 0 then x + c.0 else if k % 3 == 1 then y + c.1 else z + c.2)
  }

  /** The vertex buffer the fill loop produces from the first m indices:
      the vertices of every drawn cell, in index order. */
  ghost function Mesh(s: seq<Byte>, f: seq<Byte>, n: int, m: int): seq<int>
    requires IsDesign(s, n) && |f| == |s| && 0 <= m <= |s|
  {
    if m == 0 then [] else
    var cell := if Drawn(s, f, m - 1) then CellVertices(CellX(n, m - 1), CellY(n, m - 1), CellZ(n, m - 1)) else [];
    Mesh(s, f, n, m - 1) + cell
  }

  /** The fill fits the buffer the counting pass sized: 108 coordinates per
      counted cell. */
  lemma {:induction false} MeshLength(s: seq<Byte>, f: seq<Byte>, n: int, m: int)
    requires IsDesign(s, n) && |f| == |s| && 0 <= m <= |s|
    ensures |Mesh(s, f, n, m)| == 108 * DrawnCount(s, f, m)
  {
    if m > 0 {
      MeshLength(s, f, n, m - 1);
    }
  }

  /** The triangles of drawn cell i sit at 108 times the number of drawn
      cells before it. */
  lemma {:induction false} MeshCellPlacement(s: seq<Byte>, f: seq<Byte>, n: int, m: int, i: int)
    requires IsDesign(s, n) && |f| == |s| && 0 <= i < m <= |s| && Drawn(s, f, i)
    ensures 108 * DrawnCount(s, f, i) + 108 <= |Mesh(s, f, n, m)|
    ensures Mesh(s, f, n, m)[108 * DrawnCount(s, f, i)..108 * DrawnCount(s, f, i) + 108] ==
      CellVertices(CellX(n, i), CellY(n, i), CellZ(n, i))
  {
    MeshLength(s, f, n, m - 1);
    MeshLength(s, f, n, i);
    var p := 108 * DrawnCount(s, f, i);
    if i == m - 1 {
      assert Mesh(s, f, n, m)[p..p + 108] == CellVertices(CellX(n, i), CellY(n, i), CellZ(n, i));
    } else {
      MeshCellPlacement(s, f, n, m - 1, i);
      var e := if Drawn(s, f, m - 1) then CellVertices(CellX(n, m - 1), CellY(n, m - 1), CellZ(n, m - 1)) else [];
      assert Mesh(s, f, n, m) == Mesh(s, f, n, m - 1) + e;
      assert Mesh(s, f, n, m)[p..p + 108] == Mesh(s, f, n, m - 1)[p..p + 108];
    }
  }

  /** One step of the fill and counting loops: cell i extends the count
      and the mesh of the indices before it. */
  lemma MeshStepAt(s: seq<Byte>, f: seq<Byte>, n: int, i: int)
    requires IsDesign(s, n) && |f| == |s| && 0 <= i < |s|
    ensures DrawnCount(s, f, i + 1) == DrawnCount(s, f, i) + if Drawn(s, f, i) then 1 else 0
    ensures Mesh(s, f, n, i + 1) ==
      Mesh(s, f, n, i) + if Drawn(s, f, i) then CellVertices(CellX(n, i), CellY(n, i), CellZ(n, i)) else []
  {
  }

  /** The counting pass for row (x, y): adds that row's drawn cells. */
  method CountRow(g: Grid, x: int, y: int, c0: nat) returns (c: nat)
    requires g.Valid() && 0 <= x < g.n && 0 <= y < g.n
    requires 0 <= Idx(g.n, x, y, 0) && Idx(g.n, x, y + 1, 0) <= g.n * g.n * g.n
    requires c0 == DrawnCount(g.cellEnabled[..], g.isCellOnBoundary[..], Idx(g.n, x, y, 0))
    ensures c == DrawnCount(g.cellEnabled[..], g.isCellOnBoundary[..], Idx(g.n, x, y + 1, 0))
  {
    var n := g.n;
    RowEnds(n, x, y);
    c := c0;
    var z := 0;
    while z < n
      invariant 0 <= z <= n
      invariant c == DrawnCount(g.cellEnabled[..], g.isCellOnBoundary[..], Idx(n, x, y, z))
    {
      var i := Idx(n, x, y, z);
      if g.cellEnabled[i] == 1 && g.isCellOnBoundary[i] == 1 {
        c := c + 1;
      }
      z := z + 1;
    }
  }

  /** The first pass of `exportCurrentHeatsink`: the number of drawn cells. */
  method CountDrawnCells(g: Grid) returns (cellCount: nat)
    requires g.Valid()
    ensures cellCount == DrawnCount(g.cellEnabled[..], g.isCellOnBoundary[..], g.n * g.n * g.n)
  {
    var n := g.n;
    cellCount := 0;
    var x := 0;
    while x < n
      invariant 0 <= x <= n
      invariant cellCount == DrawnCount(g.cellEnabled[..], g.isCellOnBoundary[..], Idx(n, x, 0, 0))
    {
      PlaneBounds(n, x);
      var y := 0;
      while y < n
        invariant 0 <= y <= n
        invariant Idx(n, x, y, 0) <= Idx(n, x + 1, 0, 0)
        invariant 0 <= Idx(n, x, y, 0)
        invariant cellCount == DrawnCount(g.cellEnabled[..], g.isCellOnBoundary[..], Idx(n, x, y, 0))
      {
        RowWithinPlane(n, x, y);
        RowEnds(n, x, y);
        cellCount := CountRow(g, x, y, cellCount);
        y := y + 1;
      }
      RowEnds(n, x, n);
      x := x + 1;
    }
    RowEnds(n, n, 0);
  }

  /** `vertices[i++] = ...` for the 108 coordinates of one cell. */
  method WriteVertices(v: array<int>, i: int, c: seq<int>)
    requires 0 <= i && i + |c| <= v.Length
    modifies v
    ensures v[..] == old(v[..])[..i] + c + old(v[..])[i + |c|..]
  {
    var k := 0;
    while k < |c|
      invariant 0 <= k <= |c|
      invariant v[..] == old(v[..])[..i] + c[..k] + old(v[..])[i + k..]
    {
      v[i + k] := c[k];
      k := k + 1;
      assert v[..] == old(v[..])[..i] + c[..k] + old(v[..])[i + k..];
    }
  }

  /** The fill pass for row (x, y) of the design `s` with boundary flags `f`. */
  method FillRow(v: array<int>, n: int, s: seq<Byte>, f: seq<Byte>, x: int, y: int, i0: nat) returns (i: nat)
    requires IsDesign(s, n) && |f| == |s| && 0 <= x < n && 0 <= y < n
    requires 0 <= Idx(n, x, y, 0) && Idx(n, x, y + 1, 0) <= |s|
    requires v.Length == 108 * DrawnCount(s, f, |s|)
    requires i0 == 108 * DrawnCount(s, f, Idx(n, x, y, 0)) <= v.Length
    requires v[..i0] == Mesh(s, f, n, Idx(n, x, y, 0))
    modifies v
    ensures i == 108 * DrawnCount(s, f, Idx(n, x, y + 1, 0)) <= v.Length
    ensures v[..i] == Mesh(s, f, n, Idx(n, x, y + 1, 0))
  {
    RowEnds(n, x, y);
    i := i0;
    var z, j := 0, Idx(n, x, y, 0);
    while z < n
      invariant 0 <= z <= n && j == Idx(n, x, y, 0) + z
      invariant i == 108 * DrawnCount(s, f, j) <= v.Length
      invariant v[..i] == Mesh(s, f, n, j)
    {
      IdxDecode(n, x, y, z);
      MeshStepAt(s, f, n, j);
      if s[j] == 1 && f[j] == 1 {
        DrawnCountMonotone(s, f, j + 1, |s|);
        ghost var before := v[..];
        WriteVertices(v, i, CellVertices(x, y, z));
        assert v[..i + 108] == before[..i] + CellVertices(x, y, z);
        i := i + 108;
      }
      z, j := z + 1, j + 1;
    }
  }

  /** The second pass of `exportCurrentHeatsink`: it fills the buffer the
      first pass sized exactly to its end. */
  method FillVertices(v: array<int>, n: int, s: seq<Byte>, f: seq<Byte>) returns (i: nat)
    requires IsDesign(s, n) && |f| == |s|
    requires v.Length == 108 * DrawnCount(s, f, |s|)
    modifies v
    ensures i == v.Length
    ensures v[..] == Mesh(s, f, n, |s|)
  {
    i := 0;
    var x := 0;
    while x < n
      invariant 0 <= x <= n
      invariant 0 <= Idx(n, x, 0, 0) <= |s|
      invariant i == 108 * DrawnCount(s, f, Idx(n, x, 0, 0)) <= v.Length
      invariant v[..i] == Mesh(s, f, n, Idx(n, x, 0, 0))
    {
      PlaneBounds(n, x);
      var y := 0;
      while y < n
        invariant 0 <= y <= n
        invariant 0 <= Idx(n, x, y, 0) <= Idx(n, x + 1, 0, 0)
        invariant i == 108 * DrawnCount(s, f, Idx(n, x, y, 0)) <= v.Length
        invariant v[..i] == Mesh(s, f, n, Idx(n, x, y, 0))
      {
        RowWithinPlane(n, x, y);
        RowEnds(n, x, y);
        i := FillRow(v, n, s, f, x, y, i);
        y := y + 1;
      }
      RowEnds(n, x, n);
      x := x + 1;
    }
    RowEnds(n, n, 0);
    assert v[..] == v[..i];
  }

  /** The index buffer: `indices[j] = j` for every vertex. */
  method NumberVertices(count: nat) returns (indices: array<int>)
    ensures indices.Length == count
    ensures forall j :: 0 <= j < count ==> indices[j] == j
  {
    indices := new int[count];
    var j := 0;
    while j < count
      invariant 0 <= j <= count
      invariant forall k :: 0 <= k < j ==> indices[k] == k
    {
      indices[j] := j;
      j := j + 1;
    }
  }

  /** `exportCurrentHeatsink` up to the OBJ writer. The buffer size
      `cellCount * 18 * 6` is a Java `int`: when the true product exceeds
      the largest `int` it wraps, and the allocation or the fill then throws,
      so nothing is exported. */
  method ExportCurrentHeatsink(g: Grid) returns (exported: bool, vertices: array<int>, indices: array<int>)
    requires g.Valid()
    ensures exported <==> 108 * DrawnCount(g.cellEnabled[..], g.isCellOnBoundary[..], g.n * g.n * g.n) <= MaxInt
    ensures exported ==> vertices.Length == 108 * DrawnCount(g.cellEnabled[..], g.isCellOnBoundary[..], g.n * g.n * g.n)
    ensures exported ==> vertices[..] == Mesh(g.cellEnabled[..], g.isCellOnBoundary[..], g.n, g.n * g.n * g.n)
    ensures exported ==> indices.Length == vertices.Length / 3
    ensures exported ==> forall j :: 0 <= j < indices.Length ==> indices[j] == j
  {
    var cellCount := CountDrawnCells(g);
    if cellCount * 18 * 6 > MaxInt {
      exported := false;
      vertices := new int[0];
      indices := new int[0];
      return;
    }
    vertices := new int[cellCount * 18 * 6];
    var i := FillVertices(vertices, g.n, g.cellEnabled[..], g.isCellOnBoundary[..]);
    indices := NumberVertices(vertices.Length / 3);
    exported := true;
  }
}
