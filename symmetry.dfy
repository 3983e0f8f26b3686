/** The 8-fold reflection that the symmetric mutators apply to a horizontal
    layer: every cell of the wedge z < x < N/2 is copied onto its seven images
    under the mirrors x -> N-1-x, z -> N-1-z and the swap of x and z. The cells
    on the two diagonals (where the swap maps a cell onto a mirror image of
    itself) belong to no wedge cell and are never written. */
module Symmetry {
  import opened Lattice
  import opened VoxelGrid

  /** The distance of a coordinate from the nearer side: the mirror a -> N-1-a
      folded onto [0, N/2). */
  function Fold(n: int, a: int): (r: int)
    ensures n % 2 == 0 && 0 <= a < n ==> 0 <= r < n / 2
  {
    if a < n / 2 then a else n - 1 - a
  }

  predicate InWedge(n: int, x: int, z: int) {
    0 <= z < x < n / 2
  }

  /** The wedge cell the reflection copies onto column (a, c); a cell on a
      diagonal (equal folds) is its own representative. */
  function RepX(n: int, a: int, c: int): (r: int)
    ensures n % 2 == 0 && 0 <= a < n && 0 <= c < n ==> 0 <= r < n
    ensures n % 2 == 0 && 0 <= a < n && 0 <= c < n && Fold(n, a) != Fold(n, c) ==> InWedge(n, r, RepZ(n, a, c))
  {
    var fa, fc := Fold(n, a), Fold(n, c);
    if fc < fa then fa else if fa < fc then fc else a
  }

  function RepZ(n: int, a: int, c: int): (r: int)
    ensures n % 2 == 0 && 0 <= a < n && 0 <= c < n ==> 0 <= r < n
  {
    var fa, fc := Fold(n, a), Fold(n, c);
    if fc < fa then fc else if fa < fc then fa else c
  }

  /** A design after the reflection of every layer in [lo, hi). */
  ghost function Symmetrized(s: seq<Byte>, n: int, lo: int, hi: int): seq<Byte>
    requires IsDesign(s, n) && n % 2 == 0
  {
    seq(|s|, i requires 0 <= i < |s| =>
      IndexDecode(n, i);
      var a, b, c := CellX(n, i), CellY(n, i), CellZ(n, i);
      if lo <= b < hi && Fold(n, a) != Fold(n, c) then At(s, n, RepX(n, a, c), b, RepZ(n, a, c)) else s[i])
  }

  /** Every off-diagonal column of layer y holds the same value as its mirror
      image in x and as its image under the swap of x and z; the two generate
      all eight symmetries of the square. */
  ghost predicate LayerSymmetric(s: seq<Byte>, n: int, y: int)
    requires IsDesign(s, n) && 0 <= y < n
  {
    forall a, c :: 0 <= a < n && 0 <= c < n && Fold(n, a) != Fold(n, c) ==>
      At(s, n, a, y, c) == At(s, n, n - 1 - a, y, c) && At(s, n, a, y, c) == At(s, n, c, y, a)
  }

  // ---------------------------------------------------------------------------
  // Facts about the representative

  /** Mirroring a coordinate keeps its fold. */
  lemma FoldMirror(n: int, a: int)
    requires n % 2 == 0 && 0 <= a < n
    ensures Fold(n, n - 1 - a) == Fold(n, a)
  {
  }

  /** An off-diagonal column, its mirror image in x and its swap have the
      same representative. */
  lemma RepSymmetric(n: int, a: int, c: int)
    requires n % 2 == 0 && 0 <= a < n && 0 <= c < n && Fold(n, a) != Fold(n, c)
    ensures RepX(n, n - 1 - a, c) == RepX(n, a, c) && RepZ(n, n - 1 - a, c) == RepZ(n, a, c)
    ensures RepX(n, c, a) == RepX(n, a, c) && RepZ(n, c, a) == RepZ(n, a, c)
  {
    FoldMirror(n, a);
  }

  /** The columns whose representative is the wedge cell (x, z) are exactly
      that cell and its seven images. */
  lemma RepImage(n: int, x: int, z: int, a: int, c: int)
    requires 0 < n && n % 2 == 0 && InWedge(n, x, z) && 0 <= a < n && 0 <= c < n
    ensures (Fold(n, a) != Fold(n, c) && RepX(n, a, c) == x && RepZ(n, a, c) == z) <==>
      (((a == x || a == n - 1 - x) && (c == z || c == n - 1 - z)) ||
       ((a == z || a == n - 1 - z) && (c == x || c == n - 1 - x)))
  {
    FoldMirror(n, x);
    FoldMirror(n, z);
    assert Fold(n, a) == x <==> (a == x || a == n - 1 - x);
    assert Fold(n, a) == z <==> (a == z || a == n - 1 - z);
    assert Fold(n, c) == x <==> (c == x || c == n - 1 - x);
    assert Fold(n, c) == z <==> (c == z || c == n - 1 - z);
  }

  // ---------------------------------------------------------------------------
  // What the reflection does

  /** The reflected layers are symmetric. */
  lemma SymmetrizedIsSymmetric(s: seq<Byte>, n: int, lo: int, hi: int)
    requires IsDesign(s, n) && n % 2 == 0
    ensures IsDesign(Symmetrized(s, n, lo, hi), n)
    ensures forall y :: 0 <= y < n && lo <= y < hi ==> LayerSymmetric(Symmetrized(s, n, lo, hi), n, y)
  {
    var r := Symmetrized(s, n, lo, hi);
    IdxFacts(n);
    forall y | 0 <= y < n && lo <= y < hi ensures LayerSymmetric(r, n, y) {
      forall a, c | 0 <= a < n && 0 <= c < n && Fold(n, a) != Fold(n, c)
        ensures At(r, n, a, y, c) == At(r, n, n - 1 - a, y, c) && At(r, n, a, y, c) == At(r, n, c, y, a)
      {
        FoldMirror(n, a);
        RepSymmetric(n, a, c);
        assert At(r, n, a, y, c) == At(s, n, RepX(n, a, c), y, RepZ(n, a, c));
        assert At(r, n, n - 1 - a, y, c) == At(s, n, RepX(n, n - 1 - a, c), y, RepZ(n, n - 1 - a, c));
        assert At(r, n, c, y, a) == At(s, n, RepX(n, c, a), y, RepZ(n, c, a));
      }
    }
  }

  /** The reflection writes no cell of the wedge, of a diagonal or of a layer
      outside [lo, hi): together with the symmetry above this determines the
      result entirely. */
  lemma SymmetrizedKeepsSources(s: seq<Byte>, n: int, lo: int, hi: int)
    requires IsDesign(s, n) && n % 2 == 0
    ensures IsDesign(Symmetrized(s, n, lo, hi), n)
    ensures forall a, b, c :: InLattice(n, a, b, c) && (InWedge(n, a, c) || Fold(n, a) == Fold(n, c) || !(lo <= b < hi)) ==>
      At(Symmetrized(s, n, lo, hi), n, a, b, c) == At(s, n, a, b, c)
  {
    IdxFacts(n);
  }

  /** In a symmetric layer every column holds the value of its representative. */
  lemma AtRepOfSymmetric(s: seq<Byte>, n: int, y: int, a: int, c: int)
    requires IsDesign(s, n) && n % 2 == 0 && 0 <= y < n && LayerSymmetric(s, n, y)
    requires 0 <= a < n && 0 <= c < n && Fold(n, a) != Fold(n, c)
    ensures At(s, n, RepX(n, a, c), y, RepZ(n, a, c)) == At(s, n, a, y, c)
  {
    var a1, c1 := Fold(n, a), Fold(n, c);
    FoldMirror(n, a);
    FoldMirror(n, c);
    // Mirror x onto the near half.
    assert At(s, n, a1, y, c) == At(s, n, a, y, c);
    // Mirror z onto the near half by swap, mirror, swap.
    if c1 != c {
      assert At(s, n, a1, y, c) == At(s, n, c, y, a1);
      assert At(s, n, c, y, a1) == At(s, n, c1, y, a1);
      assert At(s, n, c1, y, a1) == At(s, n, a1, y, c1);
    }
    assert At(s, n, a1, y, c1) == At(s, n, a, y, c);
    if a1 < c1 {
      assert At(s, n, c1, y, a1) == At(s, n, a1, y, c1);
    }
  }

  /** A design whose layers are already symmetric is left as it is. */
  lemma SymmetrizedOfSymmetric(s: seq<Byte>, n: int, lo: int, hi: int)
    requires IsDesign(s, n) && n % 2 == 0
    requires forall y :: 0 <= y < n && lo <= y < hi ==> LayerSymmetric(s, n, y)
    ensures Symmetrized(s, n, lo, hi) == s
  {
    var r := Symmetrized(s, n, lo, hi);
    forall i | 0 <= i < |s| ensures r[i] == s[i] {
      IndexDecode(n, i);
      var a, b, c := CellX(n, i), CellY(n, i), CellZ(n, i);
      if lo <= b < hi && Fold(n, a) != Fold(n, c) {
        AtRepOfSymmetric(s, n, b, a, c);
      }
    }
  }

  /** The reflection keeps the air border air and every cell 0 or 1. */
  lemma SymmetrizedInvariants(s: seq<Byte>, n: int, airPadding: int, lo: int, hi: int)
    requires ValidConfig(n, airPadding) && IsDesign(s, n)
    ensures PaddingIsAir(s, n, airPadding) ==> PaddingIsAir(Symmetrized(s, n, lo, hi), n, airPadding)
    ensures Binary(s) ==> Binary(Symmetrized(s, n, lo, hi))
  {
    var r := Symmetrized(s, n, lo, hi);
    if Binary(s) {
      forall i | 0 <= i < |r| ensures r[i] == 0 || r[i] == 1 {
        IndexDecode(n, i);
        var a, b, c := CellX(n, i), CellY(n, i), CellZ(n, i);
        if lo <= b < hi && Fold(n, a) != Fold(n, c) {
          IdxDecode(n, RepX(n, a, c), b, RepZ(n, a, c));
        }
      }
    }
    if PaddingIsAir(s, n, airPadding) {
      IdxFacts(n);
      forall a, b, c | InLattice(n, a, b, c) && IsPadding(n, airPadding, a, b, c) ensures At(r, n, a, b, c) == 0 {
        if lo <= b < hi && Fold(n, a) != Fold(n, c) {
          assert IsPadding(n, airPadding, RepX(n, a, c), b, RepZ(n, a, c));
        }
      }
    }
  }

  /** Reflecting layers [lo, y) and then layer y is reflecting [lo, y + 1). */
  lemma SymmetrizedStep(s: seq<Byte>, n: int, lo: int, y: int)
    requires IsDesign(s, n) && n % 2 == 0 && lo <= y
    ensures Symmetrized(Symmetrized(s, n, lo, y), n, y, y + 1) == Symmetrized(s, n, lo, y + 1)
  {
    var r := Symmetrized(s, n, lo, y);
    var q := Symmetrized(r, n, y, y + 1);
    var t := Symmetrized(s, n, lo, y + 1);
    SymmetrizedKeepsSources(s, n, lo, y);
    forall i | 0 <= i < |s| ensures q[i] == t[i] {
      IndexDecode(n, i);
      var a, b, c := CellX(n, i), CellY(n, i), CellZ(n, i);
      if b == y && Fold(n, a) != Fold(n, c) {
        assert q[i] == At(r, n, RepX(n, a, c), b, RepZ(n, a, c));
      }
    }
  }

  /** Reflecting an empty range of layers changes nothing. */
  lemma SymmetrizedEmpty(s: seq<Byte>, n: int, lo: int)
    requires IsDesign(s, n) && n % 2 == 0
    ensures Symmetrized(s, n, lo, lo) == s
  {
  }

  // ---------------------------------------------------------------------------
  // The loops

  /** The flat indices of wedge cell (x, y, z) and of its seven images, in
      the order of the source, all in range and the first unlike the rest. */
  function ImageIndices(n: int, x: int, y: int, z: int): (r: seq<int>)
    requires 0 < n && n % 2 == 0 && InWedge(n, x, z) && 0 <= y < n
    ensures |r| == 8 && forall k :: 0 <= k < 8 ==> 0 <= r[k] < n * n * n
    ensures forall k :: 1 <= k < 8 ==> r[k] != r[0]
  {
    IdxDecode(n, x, y, z);
    IdxDecode(n, n - x - 1, y, z);
    IdxDecode(n, x, y, n - z - 1);
    IdxDecode(n, n - x - 1, y, n - z - 1);
    IdxDecode(n, z, y, x);
    IdxDecode(n, z, y, n - x - 1);
    IdxDecode(n, n - z - 1, y, x);
    IdxDecode(n, n - z - 1, y, n - x - 1);
    [Idx(n, x, y, z), Idx(n, n - x - 1, y, z), Idx(n, x, y, n - z - 1), Idx(n, n - x - 1, y, n - z - 1),
     Idx(n, z, y, x), Idx(n, z, y, n - x - 1), Idx(n, n - z - 1, y, x), Idx(n, n - z - 1, y, n - x - 1)]
  }

  /** The design after the seven assignments of one step of the reflection
      loop, which copy wedge cell (x, y, z) onto its images. */
  ghost function CopiedToImages(s: seq<Byte>, n: int, x: int, y: int, z: int): seq<Byte>
    requires IsDesign(s, n) && n % 2 == 0 && InWedge(n, x, z) && 0 <= y < n
  {
    var ix := ImageIndices(n, x, y, z);
    var v := s[ix[0]];
    s[ix[1] := v][ix[2] := v][ix[3] := v][ix[4] := v][ix[5] := v][ix[6] := v][ix[7] := v]
  }

  /** The assignments write exactly the columns whose representative is (x, z). */
  lemma CopiedToImagesAt(s: seq<Byte>, n: int, x: int, y: int, z: int, a: int, b: int, c: int)
    requires IsDesign(s, n) && n % 2 == 0 && InWedge(n, x, z) && 0 <= y < n && InLattice(n, a, b, c)
    ensures IsDesign(CopiedToImages(s, n, x, y, z), n)
    ensures At(CopiedToImages(s, n, x, y, z), n, a, b, c) ==
      if b == y && Fold(n, a) != Fold(n, c) && RepX(n, a, c) == x && RepZ(n, a, c) == z
      then At(s, n, x, y, z) else At(s, n, a, b, c)
  {
    var ix := ImageIndices(n, x, y, z);
    var v := s[ix[0]];
    var j := Idx(n, a, b, c);
    IdxDecode(n, a, b, c);
    IdxDecode(n, x, y, z);
    RepImage(n, x, z, a, c);
    IdxInjective(n, a, b, c, n - x - 1, y, z);
    IdxInjective(n, a, b, c, x, y, n - z - 1);
    IdxInjective(n, a, b, c, n - x - 1, y, n - z - 1);
    IdxInjective(n, a, b, c, z, y, x);
    IdxInjective(n, a, b, c, z, y, n - x - 1);
    IdxInjective(n, a, b, c, n - z - 1, y, x);
    IdxInjective(n, a, b, c, n - z - 1, y, n - x - 1);
  }

  /** One step of the reflection loop: the value of wedge cell (x, y, z) is
      copied onto its seven images. */
  method CopyToImages(g: Grid, x: int, y: int, z: int)
    requires g.Valid() && InWedge(g.n, x, z) && 0 <= y < g.n
    modifies g.cellEnabled
    ensures g.cellEnabled[..] == CopiedToImages(old(g.cellEnabled[..]), g.n, x, y, z)
  {
    var ix := ImageIndices(g.n, x, y, z);
    var index1, index2, index3, index4 := ix[0], ix[1], ix[2], ix[3];
    var index5, index6, index7, index8 := ix[4], ix[5], ix[6], ix[7];
    g.cellEnabled[index2] := g.cellEnabled[index1];
    g.cellEnabled[index3] := g.cellEnabled[index1];
    g.cellEnabled[index4] := g.cellEnabled[index1];
    g.cellEnabled[index5] := g.cellEnabled[index1];
    g.cellEnabled[index6] := g.cellEnabled[index1];
    g.cellEnabled[index7] := g.cellEnabled[index1];
    g.cellEnabled[index8] := g.cellEnabled[index1];
  }

  /** The reflection of one layer y: the double loop over the wedge that ends
      `evolveDesignForged` and that `evolveDesign3D` runs for every layer. */
  method SymmetricCopyLayer(g: Grid, y: int)
    requires g.Valid() && 0 <= y < g.n
    modifies g.cellEnabled
    ensures g.cellEnabled[..] == Symmetrized(old(g.cellEnabled[..]), g.n, y, y + 1)
  {
    var n := g.n;
    ghost var s0 := g.cellEnabled[..];
    var x := 0;
    while x < n / 2
      invariant 0 <= x <= n / 2 && |g.cellEnabled[..]| == n * n * n
      invariant forall a, b, c :: InLattice(n, a, b, c) ==>
        At(g.cellEnabled[..], n, a, b, c) ==
          if b == y && Fold(n, a) != Fold(n, c) && RepX(n, a, c) < x
          then At(s0, n, RepX(n, a, c), y, RepZ(n, a, c))
          else At(s0, n, a, b, c)
    {
      var z := 0;
      while z < x
        invariant 0 <= z <= x && |g.cellEnabled[..]| == n * n * n
        invariant forall a, b, c :: InLattice(n, a, b, c) ==>
          At(g.cellEnabled[..], n, a, b, c) ==
            if b == y && Fold(n, a) != Fold(n, c) && (RepX(n, a, c) < x || (RepX(n, a, c) == x && RepZ(n, a, c) < z))
            then At(s0, n, RepX(n, a, c), y, RepZ(n, a, c))
            else At(s0, n, a, b, c)
      {
        ghost var before := g.cellEnabled[..];
        assert At(before, n, x, y, z) == At(s0, n, x, y, z);
        CopyToImages(g, x, y, z);
        forall a, b, c | InLattice(n, a, b, c) {
          CopiedToImagesAt(before, n, x, y, z, a, b, c);
        }
        z := z + 1;
      }
      x := x + 1;
    }
    forall i | 0 <= i < n * n * n
      ensures g.cellEnabled[i] == Symmetrized(s0, n, y, y + 1)[i]
    {
      IndexDecode(n, i);
      assert At(g.cellEnabled[..], n, CellX(n, i), CellY(n, i), CellZ(n, i)) == g.cellEnabled[i];
    }
  }

  /** The reflection of every layer in [lo, hi), one layer after the other,
      as `evolveDesign3D` runs it for y in [0, N - airPadding). */
  method SymmetricCopyLayers(g: Grid, lo: int, hi: int)
    requires g.Valid() && 0 <= lo <= hi <= g.n
    modifies g.cellEnabled
    ensures g.cellEnabled[..] == Symmetrized(old(g.cellEnabled[..]), g.n, lo, hi)
  {
    ghost var s0 := g.cellEnabled[..];
    SymmetrizedEmpty(s0, g.n, lo);
    var y := lo;
    while y < hi
      invariant lo <= y <= hi
      invariant g.cellEnabled[..] == Symmetrized(s0, g.n, lo, y)
    {
      SymmetricCopyLayer(g, y);
      SymmetrizedStep(s0, g.n, lo, y);
      y := y + 1;
    }
  }
}
