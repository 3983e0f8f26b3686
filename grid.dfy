/** The voxel grid: the design array and the two arrays derived from it, all
    of side N, together with the clearing of the air border that ends
    `setInitialDesign`. The heat arrays belong to the thermal solver, which is
    not part of this model. */
module VoxelGrid {
  import opened Lattice

  class Grid {
    /** `cellsWide`. */
    const n: int
    const airPadding: int
    /** 1 for metal, 0 for air. */
    const cellEnabled: array<Byte>
    /** 1 for a metal cell with an air or out-of-lattice neighbour. */
    const isCellOnBoundary: array<Byte>
    /** Scratch space of the connectivity check. */
    const disconnectedComponentTable: array3<bool>

    ghost predicate Valid() {
      ValidConfig(n, airPadding) &&
      cellEnabled.Length == n * n * n && isCellOnBoundary.Length == n * n * n &&
      cellEnabled != isCellOnBoundary &&
      disconnectedComponentTable.Length0 == n &&
      disconnectedComponentTable.Length1 == n &&
      disconnectedComponentTable.Length2 == n
    }

    /** The arrays as Java allocates them: every element zero. */
    constructor (n: int, airPadding: int)
      requires ValidConfig(n, airPadding)
      ensures Valid() && this.n == n && this.airPadding == airPadding
      ensures fresh(cellEnabled) && fresh(isCellOnBoundary) && fresh(disconnectedComponentTable)
      ensures forall i :: 0 <= i < n * n * n ==> cellEnabled[i] == 0 && isCellOnBoundary[i] == 0
    {
      this.n := n;
      this.airPadding := airPadding;
      cellEnabled := new Byte[n * n * n](_ => 0);
      isCellOnBoundary := new Byte[n * n * n](_ => 0);
      disconnectedComponentTable := new bool[n, n, n]((_, _, _) => false);
    }
  }

  /** A design with its air border forced to air. */
  ghost function WithAirBorder(s: seq<Byte>, n: int, airPadding: int): seq<Byte>
    requires IsDesign(s, n)
  {
    seq(|s|, i requires 0 <= i < |s| =>
      if IsPadding(n, airPadding, CellX(n, i), CellY(n, i), CellZ(n, i)) then 0 else s[i])
  }

  /** Clearing the border makes it all air and changes no interior cell. */
  lemma WithAirBorderSpec(s: seq<Byte>, n: int, airPadding: int)
    requires IsDesign(s, n)
    ensures PaddingIsAir(WithAirBorder(s, n, airPadding), n, airPadding)
    ensures forall x, y, z :: InLattice(n, x, y, z) && !IsPadding(n, airPadding, x, y, z) ==>
      At(WithAirBorder(s, n, airPadding), n, x, y, z) == At(s, n, x, y, z)
  {
    IdxFacts(n);
  }

  /** The loop of `setInitialDesign` that clears every cell of the
      surrounding air (its clearing of the heat array is not modelled). */
  method ClearSurroundingAir(g: Grid)
    requires g.Valid()
    modifies g.cellEnabled
    ensures g.cellEnabled[..] == WithAirBorder(old(g.cellEnabled[..]), g.n, g.airPadding)
  {
    var n, ap := g.n, g.airPadding;
    IdxFacts(n);
    var x := 0;
    while x < n
      invariant 0 <= x <= n
      invariant forall a, b, c :: InLattice(n, a, b, c) ==>
        g.cellEnabled[Idx(n, a, b, c)] ==
          if a < x && IsPadding(n, ap, a, b, c) then 0 else old(g.cellEnabled[Idx(n, a, b, c)])
    {
      var y := 0;
      while y < n
        invariant 0 <= y <= n
        invariant forall a, b, c :: InLattice(n, a, b, c) ==>
          g.cellEnabled[Idx(n, a, b, c)] ==
            if (a < x || (a == x && b < y)) && IsPadding(n, ap, a, b, c) then 0 else old(g.cellEnabled[Idx(n, a, b, c)])
      {
        var z := 0;
        while z < n
          invariant 0 <= z <= n
          invariant forall a, b, c :: InLattice(n, a, b, c) ==>
            g.cellEnabled[Idx(n, a, b, c)] ==
              if (a < x || (a == x && b < y) || (a == x && b == y && c < z)) && IsPadding(n, ap, a, b, c) then 0
              else old(g.cellEnabled[Idx(n, a, b, c)])
        {
          var i := Idx(n, x, y, z);
          if x < ap || x >= n - ap || y >= n - ap || z < ap || z >= n - ap {
            g.cellEnabled[i] := 0;
          }
          z := z + 1;
        }
        y := y + 1;
      }
      x := x + 1;
    }
    IndexFacts(n);
    assert forall i :: 0 <= i < n * n * n ==>
      g.cellEnabled[i] == WithAirBorder(old(g.cellEnabled[..]), n, ap)[i];
  }
}
