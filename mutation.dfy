/** What the three mutators share: the conversion of a uniform random draw
    into a coordinate, the interface test over a list of neighbour offsets,
    and the first draw of a sequence that passes a test. `Math.random()` is
    not modelled: each call is replaced by a natural number `pick` supplied by
    the caller, and every rejection loop consumes a finite sequence of them. */
module Mutation {
  import opened Lattice
  import opened VoxelGrid

  /** `(int)(Math.random() * span + low)` for a span >= 0: some value of
      [low, low + span), chosen by `pick`, or `low` when the span is empty
      (the random factor is below 1 and the cast truncates). */
  function RandomInt(pick: nat, span: int, low: int): (r: int)
    requires 0 <= span
    ensures 0 < span ==> low <= r < low + span
    ensures span == 0 ==> r == low
  {
    if span > 0 then low + pick % span else low
  }

  /** Every value of the span can be drawn. */
  lemma RandomIntCovers(span: int, low: int, v: int)
    requires low <= v < low + span
    ensures RandomInt(v - low, span, low) == v
  {
  }

  /** A neighbour offset, one line of an `axes` table. */
  datatype Offset = Offset(dx: int, dy: int, dz: int)

  /** The four horizontal neighbours the forged mutator inspects. */
  const ForgedAxes: seq<Offset> := [Offset(1, 0, 0), Offset(-1, 0, 0), Offset(0, 0, 1), Offset(0, 0, -1)]

  /** The four neighbours within a slice x = const that the extruded mutator inspects. */
  const ExtrudedAxes: seq<Offset> := [Offset(0, 1, 0), Offset(0, -1, 0), Offset(0, 0, 1), Offset(0, 0, -1)]

  /** The six face neighbours the 3D mutator inspects. */
  const CubeAxes: seq<Offset> :=
    [Offset(1, 0, 0), Offset(-1, 0, 0), Offset(0, 1, 0), Offset(0, -1, 0), Offset(0, 0, 1), Offset(0, 0, -1)]

  /** Some neighbour of (x, y, z) along `axes` lies in the lattice and holds a
      value other than `v`: the cell is on the metal-air interface. */
  predicate NeighbourDiffers(s: seq<Byte>, n: int, x: int, y: int, z: int, axes: seq<Offset>, v: Byte)
    requires IsDesign(s, n)
  {
    exists k :: 0 <= k < |axes| && InLattice(n, x + axes[k].dx, y + axes[k].dy, z + axes[k].dz) &&
      At(s, n, x + axes[k].dx, y + axes[k].dy, z + axes[k].dz) != v
  }

  /** A cell strictly inside the lattice has all its face neighbours in the
      lattice, so the bounds test of the interface check never fails there
      (the forged and extruded mutators index their neighbours unchecked). */
  lemma NeighboursInLattice(n: int, x: int, y: int, z: int, axes: seq<Offset>)
    requires 0 < x < n - 1 && 0 < y < n - 1 && 0 < z < n - 1
    requires forall k :: 0 <= k < |axes| ==> -1 <= axes[k].dx <= 1 && -1 <= axes[k].dy <= 1 && -1 <= axes[k].dz <= 1
    ensures forall k :: 0 <= k < |axes| ==> InLattice(n, x + axes[k].dx, y + axes[k].dy, z + axes[k].dz)
  {
  }

  /** The `for` loop over an `axes` table that looks for a neighbour whose
      value differs from `v`. */
  method HasDifferentNeighbour(g: Grid, x: int, y: int, z: int, axes: seq<Offset>, v: Byte) returns (r: bool)
    requires g.Valid()
    ensures r == NeighbourDiffers(g.cellEnabled[..], g.n, x, y, z, axes, v)
  {
    var n := g.n;
    r := false;
    var i := 0;
    while i < |axes|
      invariant 0 <= i <= |axes|
      invariant forall k :: 0 <= k < i ==>
        !(InLattice(n, x + axes[k].dx, y + axes[k].dy, z + axes[k].dz) &&
          At(g.cellEnabled[..], n, x + axes[k].dx, y + axes[k].dy, z + axes[k].dz) != v)
    {
      var a := axes[i];
      if InLattice(n, x + a.dx, y + a.dy, z + a.dz) {
        IdxDecode(n, x + a.dx, y + a.dy, z + a.dz);
        if g.cellEnabled[Idx(n, x + a.dx, y + a.dy, z + a.dz)] != v {
          r := true;
          return;
        }
      }
      i := i + 1;
    }
  }

  /** What the two rejection loops of a mutator found: no first cell, only a
      first cell, or both cells (as flat indices). */
  datatype Search = NoCell | OneCell(first: int) | TwoCells(first: int, second: int)

  /** A design with the cells a search found flipped (an index outside the
      design is ignored). */
  function Flipped(s: seq<Byte>, o: Search): (r: seq<Byte>)
    ensures |r| == |s|
  {
    match o
    case NoCell => s
    case OneCell(i) => if 0 <= i < |s| then Flip(s, i) else s
    case TwoCells(i, j) => if 0 <= i < |s| && 0 <= j < |s| then Flip(Flip(s, i), j) else s
  }

  /** The index of the first draw from k on that passes `p`, or |draws| if
      none does: where a rejection loop stops. */
  function FirstHit<D>(p: D -> bool, draws: seq<D>, k: nat): (r: nat)
    requires k <= |draws|
    ensures k <= r <= |draws|
    ensures r < |draws| ==> p(draws[r])
    ensures forall j :: k <= j < r ==> !p(draws[j])
    decreases |draws| - k
  {
    if k == |draws| then k else if p(draws[k]) then k else FirstHit(p, draws, k + 1)
  }

  /** The draw the two horizontal coordinates of a cell are taken from. With
      symmetry enforced x lies in [airPadding, N/2) and z in [airPadding, x),
      except that x == airPadding leaves z an empty span and so z == airPadding:
      the cell on the diagonal. */
  function ColumnDraw(n: int, airPadding: int, enforceSymmetry: bool, px: nat, pz: nat): (r: (int, int))
    requires ValidConfig(n, airPadding)
    ensures airPadding <= r.0 < n - airPadding && airPadding <= r.1 < n - airPadding
    ensures enforceSymmetry ==> r.0 < n / 2 && (r.1 < r.0 || r == (airPadding, airPadding))
  {
    if enforceSymmetry then
      var x := RandomInt(px, n / 2 - airPadding, airPadding);
      (x, RandomInt(pz, x - airPadding, airPadding))
    else
      (RandomInt(px, n - 2 * airPadding, airPadding), RandomInt(pz, n - 2 * airPadding, airPadding))
  }

  /** Flipping an interior cell keeps the air border air, and every cell 0 or 1. */
  lemma FlipInvariants(s: seq<Byte>, n: int, airPadding: int, i: int)
    requires ValidConfig(n, airPadding) && IsDesign(s, n) && 0 <= i < |s|
    requires !IsPadding(n, airPadding, CellX(n, i), CellY(n, i), CellZ(n, i))
    ensures PaddingIsAir(s, n, airPadding) ==> PaddingIsAir(Flip(s, i), n, airPadding)
    ensures Binary(s) ==> Binary(Flip(s, i))
  {
    IdxFacts(n);
    if Binary(s) {
      assert s[i] == 0 || s[i] == 1;
    }
  }

  /** The same for the two flips of a mutation. */
  lemma FlipPairInvariants(s: seq<Byte>, n: int, airPadding: int, i: int, j: int)
    requires ValidConfig(n, airPadding) && IsDesign(s, n) && 0 <= i < |s| && 0 <= j < |s|
    requires !IsPadding(n, airPadding, CellX(n, i), CellY(n, i), CellZ(n, i))
    requires !IsPadding(n, airPadding, CellX(n, j), CellY(n, j), CellZ(n, j))
    ensures PaddingIsAir(s, n, airPadding) ==> PaddingIsAir(Flip(Flip(s, i), j), n, airPadding)
    ensures Binary(s) ==> Binary(Flip(Flip(s, i), j))
  {
    FlipInvariants(s, n, airPadding, i);
    FlipInvariants(Flip(s, i), n, airPadding, j);
  }

  /** The two flips a mutator makes, `cellEnabled[i] ^= 1; cellEnabled[j] ^= 1`. */
  method FlipPair(g: Grid, i: int, j: int)
    requires g.Valid() && 0 <= i < g.cellEnabled.Length && 0 <= j < g.cellEnabled.Length
    modifies g.cellEnabled
    ensures g.cellEnabled[..] == Flip(Flip(old(g.cellEnabled[..]), i), j)
  {
    g.cellEnabled[i] := g.cellEnabled[i] ^ 1;
    g.cellEnabled[j] := g.cellEnabled[j] ^ 1;
  }
}
