/** The cubic lattice of side N that every array of the heat-sink search is
    laid out on: the flat index of a cell, its decoding back to coordinates,
    the air border and the interior, and a few predicates on whole designs.
    A design is the `cellEnabled` byte array, seen here as a `seq<Byte>`. */
module Lattice {

  /** A Java `byte`, as its 8 bits. */
  type Byte = bv8

  /** Largest side for which N*N*N, and so every flat index, fits a Java `int`. */
  const MaxCellsWide := 1290

  /** The configurations the program is meant to run with: an even side (the
      mirror images used by the mutators need it), at least one cell of air
      around the heat sink, and a non-empty interior. */
  predicate ValidConfig(n: int, airPadding: int) {
    n % 2 == 0 && 1 <= airPadding && 2 * airPadding < n && n <= MaxCellsWide
  }

  /** `idx(x, y, z)`: the flat index of a cell. */
  function Idx(n: int, x: int, y: int, z: int): int {
    (x * n + y) * n + z
  }

  /** Coordinates of a flat index. */
  function CellX(n: int, i: int): int requires 0 < n { i / n / n }
  function CellY(n: int, i: int): int requires 0 < n { i / n % n }
  function CellZ(n: int, i: int): int requires 0 < n { i % n }

  predicate InLattice(n: int, x: int, y: int, z: int) {
    0 <= x < n && 0 <= y < n && 0 <= z < n
  }

  /** The fixed border of forced air: within airPadding of the four sides and
      of the top. The bottom layer y == 0 is not border: the heat source sits there. */
  predicate IsPadding(n: int, airPadding: int, x: int, y: int, z: int) {
    x < airPadding || x >= n - airPadding || y >= n - airPadding || z < airPadding || z >= n - airPadding
  }

  /** The box inside the border, where the heat sink may have metal. */
  predicate IsInterior(n: int, airPadding: int, x: int, y: int, z: int) {
    airPadding <= x < n - airPadding && 0 <= y < n - airPadding && airPadding <= z < n - airPadding
  }

  /** The top layer of the interior, the cross-section the forged mutator edits. */
  function TopLayer(n: int, airPadding: int): int { n - airPadding - 1 }

  // ---------------------------------------------------------------------------
  // Arithmetic of the flat index

  lemma MulNonNegative(a: int, b: int)
    requires 0 <= a && 0 <= b
    ensures 0 <= a * b
  {
  }

  lemma MulMonotone(a: int, b: int, n: int)
    requires a <= b && 0 <= n
    ensures a * n <= b * n
  {
    assert b * n - a * n == (b - a) * n;
    MulNonNegative(b - a, n);
  }

  lemma {:induction false} DivModUnique(a: int, n: int, q: int, r: int)
    requires 0 < n && 0 <= r < n && a == q * n + r
    ensures a / n == q && a % n == r
  {
    var q', r' := a / n, a % n;
    assert a == q' * n + r';
    assert (q - q') * n == r' - r;
    if q - q' >= 1 {
      MulMonotone(1, q - q', n);
      assert false;
    } else if q' - q >= 1 {
      MulMonotone(1, q' - q, n);
      assert false;
    }
  }

  lemma IdxBounds(n: int, x: int, y: int, z: int)
    requires 0 < n && InLattice(n, x, y, z)
    ensures 0 <= x * n + y < n * n
    ensures 0 <= Idx(n, x, y, z) < n * n * n
  {
    var row := x * n + y;
    MulNonNegative(x, n);
    MulMonotone(x + 1, n, n);
    assert (x + 1) * n == x * n + n;
    assert row + 1 <= n * n;
    MulNonNegative(row, n);
    MulMonotone(row + 1, n * n, n);
    assert (row + 1) * n == row * n + n;
  }

  /** Where the x, y, z loops step from one row or plane to the next: the
      index past the end of a row is the start of the next one, and past
      the last plane is N³. */
  lemma RowEnds(n: int, x: int, y: int)
    ensures Idx(n, x, y, n) == Idx(n, x, y + 1, 0)
    ensures Idx(n, x, n, 0) == Idx(n, x + 1, 0, 0)
    ensures Idx(n, n, 0, 0) == n * n * n
  {
    assert (x * n + y) * n + n == (x * n + y + 1) * n;
    assert (x * n + n) * n == ((x + 1) * n) * n;
  }

  /** A row of plane x ends no later than the plane does. */
  lemma RowWithinPlane(n: int, x: int, y: int)
    requires 0 < n && 0 <= y < n
    ensures Idx(n, x, y + 1, 0) <= Idx(n, x + 1, 0, 0)
  {
    MulMonotone(x * n + y + 1, x * n + n, n);
    RowEnds(n, x, n - 1);
  }

  /** Plane x of the lattice starts no later than it ends, and ends within N³. */
  lemma PlaneBounds(n: int, x: int)
    requires 0 < n && 0 <= x < n
    ensures 0 <= Idx(n, x, 0, 0) <= Idx(n, x + 1, 0, 0) <= n * n * n
  {
    MulNonNegative(x * n, n);
    MulMonotone(x * n, x * n + n, n);
    assert (x * n + n) * n == Idx(n, x + 1, 0, 0);
    MulMonotone(x * n + n, n * n, n);
  }

  /** Decoding undoes `idx`, and every lattice cell has an index in [0, N³). */
  lemma IdxDecode(n: int, x: int, y: int, z: int)
    requires 0 < n && InLattice(n, x, y, z)
    ensures 0 <= Idx(n, x, y, z) < n * n * n
    ensures CellX(n, Idx(n, x, y, z)) == x && CellY(n, Idx(n, x, y, z)) == y && CellZ(n, Idx(n, x, y, z)) == z
  {
    IdxBounds(n, x, y, z);
    var row := x * n + y;
    var i := row * n + z;
    assert i == Idx(n, x, y, z);
    DivModUnique(i, n, row, z);
    DivModUnique(row, n, x, y);
    assert i / n / n == x;
  }

  /** Every index in [0, N³) is the index of a lattice cell. */
  lemma IndexDecode(n: int, i: int)
    requires 0 < n && 0 <= i < n * n * n
    ensures InLattice(n, CellX(n, i), CellY(n, i), CellZ(n, i))
    ensures Idx(n, CellX(n, i), CellY(n, i), CellZ(n, i)) == i
  {
    var q := i / n;
    var x, y, z := q / n, q % n, i % n;
    assert x == CellX(n, i) && y == CellY(n, i) && z == CellZ(n, i);
    assert i == q * n + z;
    assert q == x * n + y;
    assert 0 <= q;
    if q >= n * n {
      MulMonotone(n * n, q, n);
      assert false;
    }
    if x >= n {
      MulMonotone(n, x, n);
      assert false;
    }
    assert 0 <= x < n && 0 <= y < n && 0 <= z < n;
    assert Idx(n, x, y, z) == q * n + z;
  }

  /** Two lattice cells share an index only if they are the same cell. */
  lemma IdxInjective(n: int, a: int, b: int, c: int, p: int, q: int, r: int)
    requires 0 < n && InLattice(n, a, b, c) && InLattice(n, p, q, r)
    ensures Idx(n, a, b, c) == Idx(n, p, q, r) <==> a == p && b == q && c == r
  {
    IdxDecode(n, a, b, c);
    IdxDecode(n, p, q, r);
  }

  /** `IdxDecode` for every cell at once. */
  lemma IdxFacts(n: int)
    requires 0 < n
    ensures forall x, y, z {:trigger Idx(n, x, y, z)} :: InLattice(n, x, y, z) ==>
      0 <= Idx(n, x, y, z) < n * n * n &&
      CellX(n, Idx(n, x, y, z)) == x && CellY(n, Idx(n, x, y, z)) == y && CellZ(n, Idx(n, x, y, z)) == z
  {
    forall x, y, z | InLattice(n, x, y, z)
      ensures 0 <= Idx(n, x, y, z) < n * n * n
      ensures CellX(n, Idx(n, x, y, z)) == x && CellY(n, Idx(n, x, y, z)) == y && CellZ(n, Idx(n, x, y, z)) == z
    {
      IdxDecode(n, x, y, z);
    }
  }

  /** `IndexDecode` for every index at once. */
  lemma IndexFacts(n: int)
    requires 0 < n
    ensures forall i {:trigger CellX(n, i)} :: 0 <= i < n * n * n ==>
      InLattice(n, CellX(n, i), CellY(n, i), CellZ(n, i)) &&
      Idx(n, CellX(n, i), CellY(n, i), CellZ(n, i)) == i
  {
    forall i | 0 <= i < n * n * n
      ensures InLattice(n, CellX(n, i), CellY(n, i), CellZ(n, i))
      ensures Idx(n, CellX(n, i), CellY(n, i), CellZ(n, i)) == i
    {
      IndexDecode(n, i);
    }
  }

  /** The cell at (x, y, z) of a design. */
  function At(s: seq<Byte>, n: int, x: int, y: int, z: int): Byte
    requires 0 < n && |s| == n * n * n && InLattice(n, x, y, z)
  {
    IdxDecode(n, x, y, z);
    s[Idx(n, x, y, z)]
  }

  // ---------------------------------------------------------------------------
  // Predicates on designs

  predicate IsDesign(s: seq<Byte>, n: int) {
    0 < n && |s| == n * n * n
  }

  /** Every cell holds 0 (air) or 1 (metal), as every writer of the array ensures. */
  ghost predicate Binary(s: seq<Byte>) {
    forall i :: 0 <= i < |s| ==> s[i] == 0 || s[i] == 1
  }

  /** The border of forced air holds no metal. */
  ghost predicate PaddingIsAir(s: seq<Byte>, n: int, airPadding: int) {
    IsDesign(s, n) &&
    forall x, y, z :: InLattice(n, x, y, z) && IsPadding(n, airPadding, x, y, z) ==> At(s, n, x, y, z) == 0
  }

  /** Flipping the low bit of an index, as `cellEnabled[i] ^= 1` does. */
  function Flip(s: seq<Byte>, i: int): (r: seq<Byte>)
    requires 0 <= i < |s|
    ensures |r| == |s| && r[i] == s[i] ^ 1
    ensures forall j :: 0 <= j < |s| && j != i ==> r[j] == s[j]
  {
    s[i := s[i] ^ 1]
  }

  /** The metal volume: the number of cells equal to 1. */
  function Count(s: seq<Byte>): nat {
    if s == [] then 0 else Count(s[..|s| - 1]) + (if s[|s| - 1] == 1 then 1 else 0)
  }

  lemma {:induction false} CountUpdate(s: seq<Byte>, i: int, v: Byte)
    requires 0 <= i < |s|
    ensures Count(s[i := v]) + (if s[i] == 1 then 1 else 0) == Count(s) + (if v == 1 then 1 else 0)
  {
    var t := s[i := v];
    if i < |s| - 1 {
      assert t[..|t| - 1] == s[..|s| - 1][i := v];
      CountUpdate(s[..|s| - 1], i, v);
    } else {
      assert t[..|t| - 1] == s[..|s| - 1];
    }
  }

  /** Flipping two cells of opposite state, as every mutator does, keeps the
      metal volume (flipping one cell twice keeps the design). */
  lemma FlipPairKeepsCount(s: seq<Byte>, i: int, j: int)
    requires Binary(s) && 0 <= i < |s| && 0 <= j < |s|
    requires Flip(s, i)[j] != s[i]
    ensures Count(Flip(Flip(s, i), j)) == Count(s)
  {
    CountUpdate(s, i, s[i] ^ 1);
    CountUpdate(Flip(s, i), j, Flip(s, i)[j] ^ 1);
    if i != j {
      assert s[i] == 0 || s[i] == 1;
      assert s[j] == 0 || s[j] == 1;
    }
  }
}
