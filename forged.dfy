/** `evolveDesignForged`: flip two top-layer cells of opposite state that lie
    on the horizontal metal-air interface, optionally reflect the top layer
    8-fold, then extrude the top layer down to the bottom margin. */
module Forged {
  import opened Wrappers
  import opened Lattice
  import opened VoxelGrid
  import opened Mutation
  import opened Symmetry
  import opened Extrusion

  /** `(int)(cellsWide * 0.05 + 1)`: the double product is never below an
      integer it should equal, so the floor is the exact one. */
  function BottomMargin(n: int): int {
    n / 20 + 1
  }

  /** The top-layer cell a draw picks. */
  function ForgedCell(n: int, airPadding: int, enforceSymmetry: bool, d: (nat, nat)): (i: int)
    requires ValidConfig(n, airPadding)
    ensures 0 <= i < n * n * n
    ensures CellX(n, i) == ColumnDraw(n, airPadding, enforceSymmetry, d.0, d.1).0
    ensures CellY(n, i) == TopLayer(n, airPadding)
    ensures CellZ(n, i) == ColumnDraw(n, airPadding, enforceSymmetry, d.0, d.1).1
  {
    var c := ColumnDraw(n, airPadding, enforceSymmetry, d.0, d.1);
    var x, z := c.0, c.1;
    IdxDecode(n, x, TopLayer(n, airPadding), z);
    Idx(n, x, TopLayer(n, airPadding), z)
  }

  /** A draw the rejection loop accepts: its cell has a horizontal neighbour
      of the other state and, for the second cell, a value other than `avoid`
      (the first cell's value before it was flipped). */
  predicate ForgedAccepts(s: seq<Byte>, n: int, airPadding: int, enforceSymmetry: bool, avoid: Option<Byte>, d: (nat, nat)) {
    ValidConfig(n, airPadding) && IsDesign(s, n) &&
    var c := ColumnDraw(n, airPadding, enforceSymmetry, d.0, d.1);
    var x, z := c.0, c.1;
    var v := At(s, n, x, TopLayer(n, airPadding), z);
    (avoid.None? || v != avoid.value) && NeighbourDiffers(s, n, x, TopLayer(n, airPadding), z, ForgedAxes, v)
  }

  function ForgedTest(s: seq<Byte>, n: int, airPadding: int, enforceSymmetry: bool, avoid: Option<Byte>): ((nat, nat)) -> bool {
    d => ForgedAccepts(s, n, airPadding, enforceSymmetry, avoid, d)
  }

  /** A cell of the top layer in an interior column with a horizontal
      neighbour of the other state. */
  predicate OnTopInterface(s: seq<Byte>, n: int, airPadding: int, i: int)
    requires IsDesign(s, n) && 0 <= i < |s|
  {
    var x, y, z := CellX(n, i), CellY(n, i), CellZ(n, i);
    y == TopLayer(n, airPadding) && airPadding <= x < n - airPadding && airPadding <= z < n - airPadding &&
    NeighbourDiffers(s, n, x, y, z, ForgedAxes, s[i])
  }

  /** The cells the two rejection loops of `evolveDesignForged` settle on. */
  function ForgedSearch(s: seq<Byte>, n: int, airPadding: int, enforceSymmetry: bool, draws: seq<(nat, nat)>): Search
    requires ValidConfig(n, airPadding) && IsDesign(s, n)
  {
    var k1 := FirstHit(ForgedTest(s, n, airPadding, enforceSymmetry, None), draws, 0);
    if k1 == |draws| then NoCell
    else
      var i1 := ForgedCell(n, airPadding, enforceSymmetry, draws[k1]);
      var k2 := FirstHit(ForgedTest(Flip(s, i1), n, airPadding, enforceSymmetry, Some(s[i1])), draws, k1 + 1);
      if k2 == |draws| then OneCell(i1)
      else TwoCells(i1, ForgedCell(n, airPadding, enforceSymmetry, draws[k2]))
  }

  /** Both cells found are on the top-layer interface of the design they are
      drawn from, the second holds the value the first held, and with
      symmetry enforced both come from the wedge z < x < N/2 or are the
      diagonal cell (airPadding, airPadding). */
  lemma ForgedSearchPicks(s: seq<Byte>, n: int, airPadding: int, enforceSymmetry: bool, draws: seq<(nat, nat)>)
    requires ValidConfig(n, airPadding) && IsDesign(s, n)
    ensures var o := ForgedSearch(s, n, airPadding, enforceSymmetry, draws);
      (!o.NoCell? ==> 0 <= o.first < |s| && OnTopInterface(s, n, airPadding, o.first)) &&
      (o.TwoCells? ==>
        0 <= o.second < |s| && Flip(s, o.first)[o.second] != s[o.first] &&
        OnTopInterface(Flip(s, o.first), n, airPadding, o.second)) &&
      (enforceSymmetry && !o.NoCell? ==>
        InWedge(n, CellX(n, o.first), CellZ(n, o.first)) || CellX(n, o.first) == CellZ(n, o.first) == airPadding) &&
      (enforceSymmetry && o.TwoCells? ==>
        InWedge(n, CellX(n, o.second), CellZ(n, o.second)) || CellX(n, o.second) == CellZ(n, o.second) == airPadding)
  {
    var k1 := FirstHit(ForgedTest(s, n, airPadding, enforceSymmetry, None), draws, 0);
    if k1 < |draws| {
      var i1 := ForgedCell(n, airPadding, enforceSymmetry, draws[k1]);
      assert ForgedAccepts(s, n, airPadding, enforceSymmetry, None, draws[k1]);
      var k2 := FirstHit(ForgedTest(Flip(s, i1), n, airPadding, enforceSymmetry, Some(s[i1])), draws, k1 + 1);
      if k2 < |draws| {
        assert ForgedAccepts(Flip(s, i1), n, airPadding, enforceSymmetry, Some(s[i1]), draws[k2]);
      }
    }
  }

  /** The design after the optional reflection of the top layer. */
  ghost function TopReflected(s: seq<Byte>, n: int, airPadding: int, enforceSymmetry: bool): seq<Byte>
    requires ValidConfig(n, airPadding) && IsDesign(s, n)
  {
    if enforceSymmetry then Symmetrized(s, n, TopLayer(n, airPadding), TopLayer(n, airPadding) + 1) else s
  }

  /** What follows the two flips: the optional reflection of the top layer and
      the extrusion down to the bottom margin. */
  ghost function ForgedFinish(s: seq<Byte>, n: int, airPadding: int, enforceSymmetry: bool): seq<Byte>
    requires ValidConfig(n, airPadding) && IsDesign(s, n)
  {
    ExtrudedInY(TopReflected(s, n, airPadding, enforceSymmetry), n, airPadding, BottomMargin(n))
  }

  /** The design `evolveDesignForged` leaves behind. */
  ghost function ForgedResult(s: seq<Byte>, n: int, airPadding: int, enforceSymmetry: bool, draws: seq<(nat, nat)>): seq<Byte>
    requires ValidConfig(n, airPadding) && IsDesign(s, n)
  {
    ForgedSearchPicks(s, n, airPadding, enforceSymmetry, draws);
    match ForgedSearch(s, n, airPadding, enforceSymmetry, draws)
    case NoCell => s
    case OneCell(i) => Flip(s, i)
    case TwoCells(i, j) => ForgedFinish(Flip(Flip(s, i), j), n, airPadding, enforceSymmetry)
  }

  /** One rejection loop of `evolveDesignForged`: draws from `start` on until
      one picks a top-layer cell, of a value other than `avoid`, on the
      horizontal interface; |draws| if none does. */
  method FindForgedCell(g: Grid, enforceSymmetry: bool, draws: seq<(nat, nat)>, start: nat, avoid: Option<Byte>)
    returns (k: nat)
    requires g.Valid() && start <= |draws|
    ensures k == FirstHit(ForgedTest(g.cellEnabled[..], g.n, g.airPadding, enforceSymmetry, avoid), draws, start)
  {
    var n, ap := g.n, g.airPadding;
    var top := n - ap - 1;
    k := start;
    while k < |draws|
      invariant start <= k <= |draws|
      invariant forall j :: start <= j < k ==> !ForgedTest(g.cellEnabled[..], n, ap, enforceSymmetry, avoid)(draws[j])
    {
      var c := ColumnDraw(n, ap, enforceSymmetry, draws[k].0, draws[k].1);
      var x, z := c.0, c.1;
      IdxDecode(n, x, top, z);
      var isEnabled := g.cellEnabled[Idx(n, x, top, z)];
      if avoid.None? || isEnabled != avoid.value {
        var differs := HasDifferentNeighbour(g, x, top, z, ForgedAxes, isEnabled);
        if differs {
          assert ForgedAccepts(g.cellEnabled[..], n, ap, enforceSymmetry, avoid, draws[k]);
          assert ForgedTest(g.cellEnabled[..], n, ap, enforceSymmetry, avoid)(draws[k]);
          return;
        }
      }
      k := k + 1;
    }
  }

  /** The end of `evolveDesignForged`: the optional reflection of the top
      layer, then `extrudeDesignInY(bottomMargin)`. */
  method ReflectAndExtrude(g: Grid, enforceSymmetry: bool)
    requires g.Valid()
    modifies g.cellEnabled
    ensures g.cellEnabled[..] == ForgedFinish(old(g.cellEnabled[..]), g.n, g.airPadding, enforceSymmetry)
  {
    var n, ap := g.n, g.airPadding;
    var bottomMargin := n / 20 + 1;
    if enforceSymmetry {
      SymmetricCopyLayer(g, n - ap - 1);
    }
    ExtrudeDesignInY(g, bottomMargin);
  }

  /** A rejection loop of `evolveDesignForged` followed by the flip of the
      cell it settles on, if the draws reach one. */
  method FlipForgedCell(g: Grid, enforceSymmetry: bool, draws: seq<(nat, nat)>, start: nat, avoid: Option<Byte>)
    returns (k: nat, wasEnabled: Byte)
    requires g.Valid() && start <= |draws|
    modifies g.cellEnabled
    ensures k == FirstHit(ForgedTest(old(g.cellEnabled[..]), g.n, g.airPadding, enforceSymmetry, avoid), draws, start)
    ensures k == |draws| ==> g.cellEnabled[..] == old(g.cellEnabled[..])
    ensures k < |draws| ==>
      var i := ForgedCell(g.n, g.airPadding, enforceSymmetry, draws[k]);
      wasEnabled == old(g.cellEnabled[i]) && g.cellEnabled[..] == Flip(old(g.cellEnabled[..]), i)
  {
    k := FindForgedCell(g, enforceSymmetry, draws, start, avoid);
    wasEnabled := 0;
    if k < |draws| {
      var index := ForgedCell(g.n, g.airPadding, enforceSymmetry, draws[k]);
      wasEnabled := g.cellEnabled[index];
      g.cellEnabled[index] := g.cellEnabled[index] ^ 1;
    }
  }

  /** The two rejection loops of `evolveDesignForged`, each flipping the cell
      it settles on. */
  method FlipForgedPair(g: Grid, enforceSymmetry: bool, draws: seq<(nat, nat)>) returns (o: Search)
    requires g.Valid()
    modifies g.cellEnabled
    ensures o == ForgedSearch(old(g.cellEnabled[..]), g.n, g.airPadding, enforceSymmetry, draws)
    ensures g.cellEnabled[..] == Flipped(old(g.cellEnabled[..]), o)
  {
    var n, ap := g.n, g.airPadding;
    ghost var s0 := g.cellEnabled[..];
    var k, wasFirstCellEnabled := FlipForgedCell(g, enforceSymmetry, draws, 0, None);
    if k == |draws| {
      return NoCell;
    }
    var index1 := ForgedCell(n, ap, enforceSymmetry, draws[k]);
    var k2, _ := FlipForgedCell(g, enforceSymmetry, draws, k + 1, Some(wasFirstCellEnabled));
    if k2 == |draws| {
      return OneCell(index1);
    }
    o := TwoCells(index1, ForgedCell(n, ap, enforceSymmetry, draws[k2]));
  }

  /** `evolveDesignForged(enforceSymmetry)`. `ok` is false when the draws run
      out before both cells are found, where the source would keep drawing. */
  method EvolveDesignForged(g: Grid, enforceSymmetry: bool, draws: seq<(nat, nat)>) returns (ok: bool)
    requires g.Valid()
    modifies g.cellEnabled
    ensures ok == ForgedSearch(old(g.cellEnabled[..]), g.n, g.airPadding, enforceSymmetry, draws).TwoCells?
    ensures g.cellEnabled[..] == ForgedResult(old(g.cellEnabled[..]), g.n, g.airPadding, enforceSymmetry, draws)
  {
    var o := FlipForgedPair(g, enforceSymmetry, draws);
    ok := o.TwoCells?;
    if ok {
      ReflectAndExtrude(g, enforceSymmetry);
    }
  }

  // ---------------------------------------------------------------------------
  // Properties

  /** The two flips trade a metal cell for an air cell (or undo each other):
      the volume of metal is kept. */
  lemma ForgedSwapKeepsVolume(s: seq<Byte>, n: int, airPadding: int, enforceSymmetry: bool, draws: seq<(nat, nat)>)
    requires ValidConfig(n, airPadding) && IsDesign(s, n) && Binary(s)
    requires ForgedSearch(s, n, airPadding, enforceSymmetry, draws).TwoCells?
    ensures var o := ForgedSearch(s, n, airPadding, enforceSymmetry, draws);
      Count(Flip(Flip(s, o.first), o.second)) == Count(s)
  {
    var o := ForgedSearch(s, n, airPadding, enforceSymmetry, draws);
    ForgedSearchPicks(s, n, airPadding, enforceSymmetry, draws);
    FlipPairKeepsCount(s, o.first, o.second);
  }

  /** The reflection and the extrusion keep the air border air and every cell 0 or 1. */
  lemma ForgedFinishInvariants(s: seq<Byte>, n: int, airPadding: int, enforceSymmetry: bool)
    requires ValidConfig(n, airPadding) && IsDesign(s, n)
    ensures IsDesign(ForgedFinish(s, n, airPadding, enforceSymmetry), n)
    ensures PaddingIsAir(s, n, airPadding) ==> PaddingIsAir(ForgedFinish(s, n, airPadding, enforceSymmetry), n, airPadding)
    ensures Binary(s) ==> Binary(ForgedFinish(s, n, airPadding, enforceSymmetry))
  {
    var top := TopLayer(n, airPadding);
    SymmetrizedInvariants(s, n, airPadding, top, top + 1);
    var t := TopReflected(s, n, airPadding, enforceSymmetry);
    ExtrudedInYShape(t, n, airPadding, BottomMargin(n));
    ExtrudedInYInvariants(t, n, airPadding, BottomMargin(n));
  }

  /** The mutation keeps the air border air and every cell 0 or 1. */
  lemma ForgedResultInvariants(s: seq<Byte>, n: int, airPadding: int, enforceSymmetry: bool, draws: seq<(nat, nat)>)
    requires ValidConfig(n, airPadding) && IsDesign(s, n)
    ensures IsDesign(ForgedResult(s, n, airPadding, enforceSymmetry, draws), n)
    ensures PaddingIsAir(s, n, airPadding) ==> PaddingIsAir(ForgedResult(s, n, airPadding, enforceSymmetry, draws), n, airPadding)
    ensures Binary(s) ==> Binary(ForgedResult(s, n, airPadding, enforceSymmetry, draws))
  {
    ForgedSearchPicks(s, n, airPadding, enforceSymmetry, draws);
    match ForgedSearch(s, n, airPadding, enforceSymmetry, draws)
    case NoCell =>
    case OneCell(i) =>
      FlipInvariants(s, n, airPadding, i);
    case TwoCells(i, j) =>
      FlipPairInvariants(s, n, airPadding, i, j);
      ForgedFinishInvariants(Flip(Flip(s, i), j), n, airPadding, enforceSymmetry);
  }

  /** After the reflection and the extrusion every interior column holds,
      from the bottom margin up, the value of its top cell; the layers below
      the margin are unchanged; and with symmetry enforced
      on a design whose border is air, every layer from the margin up is
      8-fold symmetric off the diagonals. */
  lemma ForgedFinishShape(s: seq<Byte>, n: int, airPadding: int, enforceSymmetry: bool)
    requires ValidConfig(n, airPadding) && IsDesign(s, n)
    ensures IsDesign(ForgedFinish(s, n, airPadding, enforceSymmetry), n)
    ensures forall x, y, z :: InLattice(n, x, y, z) && InExtrusionY(n, airPadding, BottomMargin(n), x, y, z) ==>
      At(ForgedFinish(s, n, airPadding, enforceSymmetry), n, x, y, z) ==
      At(ForgedFinish(s, n, airPadding, enforceSymmetry), n, x, TopLayer(n, airPadding), z)
    ensures forall x, y, z :: InLattice(n, x, y, z) && y < BottomMargin(n) ==>
      At(ForgedFinish(s, n, airPadding, enforceSymmetry), n, x, y, z) == At(s, n, x, y, z)
    ensures enforceSymmetry && PaddingIsAir(s, n, airPadding) ==>
      forall y :: BottomMargin(n) <= y <= TopLayer(n, airPadding) ==>
        LayerSymmetric(ForgedFinish(s, n, airPadding, enforceSymmetry), n, y)
  {
    var top, bm := TopLayer(n, airPadding), BottomMargin(n);
    SymmetrizedKeepsSources(s, n, top, top + 1);
    var t := TopReflected(s, n, airPadding, enforceSymmetry);
    ExtrudedInYShape(t, n, airPadding, bm);
    if enforceSymmetry && PaddingIsAir(s, n, airPadding) {
      ForgedFinishSymmetric(s, n, airPadding);
    }
  }

  /** With symmetry enforced on a design whose border is air, every layer
      from the margin up is 8-fold symmetric off the diagonals. */
  lemma ForgedFinishSymmetric(s: seq<Byte>, n: int, airPadding: int)
    requires ValidConfig(n, airPadding) && PaddingIsAir(s, n, airPadding)
    ensures IsDesign(ForgedFinish(s, n, airPadding, true), n)
    ensures forall y :: BottomMargin(n) <= y <= TopLayer(n, airPadding) ==>
      LayerSymmetric(ForgedFinish(s, n, airPadding, true), n, y)
  {
    var top, bm := TopLayer(n, airPadding), BottomMargin(n);
    var t := TopReflected(s, n, airPadding, true);
    var r := ExtrudedInY(t, n, airPadding, bm);
    SymmetrizedIsSymmetric(s, n, top, top + 1);
    SymmetrizedInvariants(s, n, airPadding, top, top + 1);
    forall y | bm <= y <= top ensures LayerSymmetric(r, n, y) {
      ExtrudedLayerSymmetric(t, n, airPadding, y);
    }
  }

  /** A layer from the margin up, after the extrusion of a design whose top
      layer is symmetric and whose border is air, is symmetric. */
  lemma ExtrudedLayerSymmetric(t: seq<Byte>, n: int, airPadding: int, y: int)
    requires ValidConfig(n, airPadding) && IsDesign(t, n) && PaddingIsAir(t, n, airPadding)
    requires LayerSymmetric(t, n, TopLayer(n, airPadding)) && BottomMargin(n) <= y <= TopLayer(n, airPadding)
    ensures LayerSymmetric(ExtrudedInY(t, n, airPadding, BottomMargin(n)), n, y)
  {
    var top, bm := TopLayer(n, airPadding), BottomMargin(n);
    var r := ExtrudedInY(t, n, airPadding, bm);
    ExtrudedInYShape(t, n, airPadding, bm);
    forall a, c | 0 <= a < n && 0 <= c < n && Fold(n, a) != Fold(n, c)
      ensures At(r, n, a, y, c) == At(r, n, n - 1 - a, y, c) && At(r, n, a, y, c) == At(r, n, c, y, a)
    {
      FoldMirror(n, a);
      FoldMirror(n, c);
      // A column is interior exactly when both folds reach the border width,
      // so mirror images and swaps of interior columns are interior.
      assert (airPadding <= a < n - airPadding) <==> airPadding <= Fold(n, a);
      assert (airPadding <= c < n - airPadding) <==> airPadding <= Fold(n, c);
    }
  }
}
