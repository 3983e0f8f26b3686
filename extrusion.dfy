/** The two extrusions of a design: `extrudeDesignInY` copies the top layer of
    the interior down to a bottom margin (the forged, single-draw shape), and
    `extrudeDesignInX` copies the slice x == airPadding across the interior
    (the extruded shape). Each is a method over the grid proved against a
    function of the old design. */
module Extrusion {
  import opened Lattice
  import opened VoxelGrid

  // ---------------------------------------------------------------------------
  // Extrusion along y

  /** The cells `extrudeDesignInY(bottomMargin)` overwrites. */
  predicate InExtrusionY(n: int, airPadding: int, bottomMargin: int, x: int, y: int, z: int) {
    airPadding <= x < n - airPadding && airPadding <= z < n - airPadding &&
    bottomMargin <= y < TopLayer(n, airPadding)
  }

  ghost function ExtrudedInY(s: seq<Byte>, n: int, airPadding: int, bottomMargin: int): seq<Byte>
    requires ValidConfig(n, airPadding) && IsDesign(s, n)
  {
    seq(|s|, i requires 0 <= i < |s| =>
      var x, y, z := CellX(n, i), CellY(n, i), CellZ(n, i);
      if InExtrusionY(n, airPadding, bottomMargin, x, y, z) then At(s, n, x, TopLayer(n, airPadding), z) else s[i])
  }

  /** After the extrusion every column of the interior, from the bottom margin
      up to the top layer, holds that column's top-layer cell; the top layer,
      the layers below the margin and the air border are what they were. */
  lemma ExtrudedInYShape(s: seq<Byte>, n: int, airPadding: int, bottomMargin: int)
    requires ValidConfig(n, airPadding) && IsDesign(s, n)
    ensures IsDesign(ExtrudedInY(s, n, airPadding, bottomMargin), n)
    ensures forall x, y, z :: InLattice(n, x, y, z) && InExtrusionY(n, airPadding, bottomMargin, x, y, z) ==>
      At(ExtrudedInY(s, n, airPadding, bottomMargin), n, x, y, z) == At(s, n, x, TopLayer(n, airPadding), z)
    ensures forall x, y, z :: InLattice(n, x, y, z) && !InExtrusionY(n, airPadding, bottomMargin, x, y, z) ==>
      At(ExtrudedInY(s, n, airPadding, bottomMargin), n, x, y, z) == At(s, n, x, y, z)
  {
    IdxFacts(n);
  }

  /** Extruding twice is extruding once. */
  lemma ExtrudedInYIdempotent(s: seq<Byte>, n: int, airPadding: int, bottomMargin: int)
    requires ValidConfig(n, airPadding) && IsDesign(s, n)
    ensures ExtrudedInY(ExtrudedInY(s, n, airPadding, bottomMargin), n, airPadding, bottomMargin)
         == ExtrudedInY(s, n, airPadding, bottomMargin)
  {
    var r := ExtrudedInY(s, n, airPadding, bottomMargin);
    ExtrudedInYShape(s, n, airPadding, bottomMargin);
    ExtrudedInYShape(r, n, airPadding, bottomMargin);
    IndexFacts(n);
    var rr := ExtrudedInY(r, n, airPadding, bottomMargin);
    forall i | 0 <= i < |r| ensures rr[i] == r[i] {
      var x, y, z := CellX(n, i), CellY(n, i), CellZ(n, i);
      assert At(rr, n, x, y, z) == At(r, n, x, y, z);
    }
  }

  /** The extrusion keeps the air border air and every cell 0 or 1. */
  lemma ExtrudedInYInvariants(s: seq<Byte>, n: int, airPadding: int, bottomMargin: int)
    requires ValidConfig(n, airPadding) && IsDesign(s, n)
    ensures PaddingIsAir(s, n, airPadding) ==> PaddingIsAir(ExtrudedInY(s, n, airPadding, bottomMargin), n, airPadding)
    ensures Binary(s) ==> Binary(ExtrudedInY(s, n, airPadding, bottomMargin))
  {
    ExtrudedInYShape(s, n, airPadding, bottomMargin);
    var r := ExtrudedInY(s, n, airPadding, bottomMargin);
    if Binary(s) {
      forall i | 0 <= i < |r| ensures r[i] == 0 || r[i] == 1 {
        var x, z := CellX(n, i), CellZ(n, i);
        if InExtrusionY(n, airPadding, bottomMargin, x, CellY(n, i), z) {
          IdxDecode(n, x, TopLayer(n, airPadding), z);
        }
      }
    }
  }

  /** `extrudeDesignInY`. */
  method ExtrudeDesignInY(g: Grid, bottomMargin: int)
    requires g.Valid() && 0 <= bottomMargin
    modifies g.cellEnabled
    ensures g.cellEnabled[..] == ExtrudedInY(old(g.cellEnabled[..]), g.n, g.airPadding, bottomMargin)
  {
    var n, ap := g.n, g.airPadding;
    var top := n - ap - 1;
    IdxFacts(n);
    var z := ap;
    while z < n - ap
      invariant ap <= z <= n - ap
      invariant forall a, b, c :: InLattice(n, a, b, c) ==>
        g.cellEnabled[Idx(n, a, b, c)] ==
          if InExtrusionY(n, ap, bottomMargin, a, b, c) && c < z then old(g.cellEnabled[Idx(n, a, top, c)])
          else old(g.cellEnabled[Idx(n, a, b, c)])
    {
      var x := ap;
      while x < n - ap
        invariant ap <= x <= n - ap
        invariant forall a, b, c :: InLattice(n, a, b, c) ==>
          g.cellEnabled[Idx(n, a, b, c)] ==
            if InExtrusionY(n, ap, bottomMargin, a, b, c) && (c < z || (c == z && a < x)) then old(g.cellEnabled[Idx(n, a, top, c)])
            else old(g.cellEnabled[Idx(n, a, b, c)])
      {
        var state := g.cellEnabled[Idx(n, x, top, z)];
        var y := bottomMargin;
        while y < top
          invariant bottomMargin <= y && (bottomMargin <= top ==> y <= top)
          invariant forall a, b, c :: InLattice(n, a, b, c) ==>
            g.cellEnabled[Idx(n, a, b, c)] ==
              if InExtrusionY(n, ap, bottomMargin, a, b, c) && (c < z || (c == z && a < x) || (c == z && a == x && b < y))
              then old(g.cellEnabled[Idx(n, a, top, c)])
              else old(g.cellEnabled[Idx(n, a, b, c)])
        {
          g.cellEnabled[Idx(n, x, y, z)] := state;
          y := y + 1;
        }
        x := x + 1;
      }
      z := z + 1;
    }
    IndexFacts(n);
    assert forall i :: 0 <= i < n * n * n ==>
      g.cellEnabled[i] == ExtrudedInY(old(g.cellEnabled[..]), n, ap, bottomMargin)[i];
  }

  // ---------------------------------------------------------------------------
  // Extrusion along x

  /** The cells `extrudeDesignInX` overwrites: the interior without its first slice. */
  predicate InExtrusionX(n: int, airPadding: int, x: int, y: int, z: int) {
    airPadding + 1 <= x < n - airPadding && 0 <= y < n - airPadding && airPadding <= z < n - airPadding
  }

  ghost function ExtrudedInX(s: seq<Byte>, n: int, airPadding: int): seq<Byte>
    requires ValidConfig(n, airPadding) && IsDesign(s, n)
  {
    seq(|s|, i requires 0 <= i < |s| =>
      var x, y, z := CellX(n, i), CellY(n, i), CellZ(n, i);
      if InExtrusionX(n, airPadding, x, y, z) then At(s, n, airPadding, y, z) else s[i])
  }

  /** The design has one cross-section: every interior cell equals the cell of
      the slice x == airPadding behind it. */
  ghost predicate UniformInX(s: seq<Byte>, n: int, airPadding: int)
    requires ValidConfig(n, airPadding) && IsDesign(s, n)
  {
    forall x, y, z :: InLattice(n, x, y, z) && IsInterior(n, airPadding, x, y, z) ==>
      At(s, n, x, y, z) == At(s, n, airPadding, y, z)
  }

  /** `s` and `t` agree on the air border and on the slice x == airPadding. */
  ghost predicate SameSliceAndPadding(s: seq<Byte>, t: seq<Byte>, n: int, airPadding: int)
    requires IsDesign(s, n) && IsDesign(t, n)
  {
    forall x, y, z :: InLattice(n, x, y, z) && (IsPadding(n, airPadding, x, y, z) || x == airPadding) ==>
      At(s, n, x, y, z) == At(t, n, x, y, z)
  }

  /** After the extrusion the design is uniform in x, and the border and the
      slice it copies from are what they were. */
  lemma ExtrudedInXShape(s: seq<Byte>, n: int, airPadding: int)
    requires ValidConfig(n, airPadding) && IsDesign(s, n)
    ensures IsDesign(ExtrudedInX(s, n, airPadding), n)
    ensures UniformInX(ExtrudedInX(s, n, airPadding), n, airPadding)
    ensures SameSliceAndPadding(ExtrudedInX(s, n, airPadding), s, n, airPadding)
  {
    IdxFacts(n);
  }

  /** The extrusion reads only the border and the slice x == airPadding. */
  lemma ExtrudedInXReadsSlice(s: seq<Byte>, t: seq<Byte>, n: int, airPadding: int)
    requires ValidConfig(n, airPadding) && IsDesign(s, n) && IsDesign(t, n)
    requires SameSliceAndPadding(s, t, n, airPadding)
    ensures ExtrudedInX(s, n, airPadding) == ExtrudedInX(t, n, airPadding)
  {
    IdxFacts(n);
    IndexFacts(n);
    var r, q := ExtrudedInX(s, n, airPadding), ExtrudedInX(t, n, airPadding);
    forall i | 0 <= i < |s| ensures r[i] == q[i] {
      var x, y, z := CellX(n, i), CellY(n, i), CellZ(n, i);
      if !InExtrusionX(n, airPadding, x, y, z) {
        assert At(s, n, x, y, z) == At(t, n, x, y, z);
      }
    }
  }

  /** A design that is already uniform in x is left as it is; in particular
      extruding twice is extruding once. */
  lemma ExtrudedInXOfUniform(s: seq<Byte>, n: int, airPadding: int)
    requires ValidConfig(n, airPadding) && IsDesign(s, n) && UniformInX(s, n, airPadding)
    ensures ExtrudedInX(s, n, airPadding) == s
  {
    IdxFacts(n);
    IndexFacts(n);
    var r := ExtrudedInX(s, n, airPadding);
    forall i | 0 <= i < |s| ensures r[i] == s[i] {
      var x, y, z := CellX(n, i), CellY(n, i), CellZ(n, i);
      if InExtrusionX(n, airPadding, x, y, z) {
        assert At(s, n, x, y, z) == At(s, n, airPadding, y, z);
      }
    }
  }

  /** The extrusion keeps the air border air and every cell 0 or 1. */
  lemma ExtrudedInXInvariants(s: seq<Byte>, n: int, airPadding: int)
    requires ValidConfig(n, airPadding) && IsDesign(s, n)
    ensures PaddingIsAir(s, n, airPadding) ==> PaddingIsAir(ExtrudedInX(s, n, airPadding), n, airPadding)
    ensures Binary(s) ==> Binary(ExtrudedInX(s, n, airPadding))
  {
    ExtrudedInXShape(s, n, airPadding);
    IdxFacts(n);
    IndexFacts(n);
  }

  /** `extrudeDesignInX`. */
  method ExtrudeDesignInX(g: Grid)
    requires g.Valid()
    modifies g.cellEnabled
    ensures g.cellEnabled[..] == ExtrudedInX(old(g.cellEnabled[..]), g.n, g.airPadding)
  {
    var n, ap := g.n, g.airPadding;
    IdxFacts(n);
    var z := ap;
    while z < n - ap
      invariant ap <= z <= n - ap
      invariant forall a, b, c :: InLattice(n, a, b, c) ==>
        g.cellEnabled[Idx(n, a, b, c)] ==
          if InExtrusionX(n, ap, a, b, c) && c < z then old(g.cellEnabled[Idx(n, ap, b, c)])
          else old(g.cellEnabled[Idx(n, a, b, c)])
    {
      var y := 0;
      while y < n - ap
        invariant 0 <= y <= n - ap
        invariant forall a, b, c :: InLattice(n, a, b, c) ==>
          g.cellEnabled[Idx(n, a, b, c)] ==
            if InExtrusionX(n, ap, a, b, c) && (c < z || (c == z && b < y)) then old(g.cellEnabled[Idx(n, ap, b, c)])
            else old(g.cellEnabled[Idx(n, a, b, c)])
      {
        var state := g.cellEnabled[Idx(n, ap, y, z)];
        var x := ap + 1;
        while x < n - ap
          invariant ap + 1 <= x <= n - ap
          invariant forall a, b, c :: InLattice(n, a, b, c) ==>
            g.cellEnabled[Idx(n, a, b, c)] ==
              if InExtrusionX(n, ap, a, b, c) && (c < z || (c == z && b < y) || (c == z && b == y && a < x))
              then old(g.cellEnabled[Idx(n, ap, b, c)])
              else old(g.cellEnabled[Idx(n, a, b, c)])
        {
          g.cellEnabled[Idx(n, x, y, z)] := state;
          x := x + 1;
        }
        y := y + 1;
      }
      z := z + 1;
    }
    IndexFacts(n);
    assert forall i :: 0 <= i < n * n * n ==>
      g.cellEnabled[i] == ExtrudedInX(old(g.cellEnabled[..]), n, ap)[i];
  }
}
