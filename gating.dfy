/** The discrete schedule of `runSimulation`: which faces of a cell take
    part in an iteration of the heat diffusion, and on which iterations the
    score is updated. The heat arithmetic itself is not modelled. */
module Gating {
  import opened Lattice

  /** `airIterationSkips`: air-air faces are computed every 30 iterations. */
  const AirIterationSkips := 30
  /** `boundaryIterationSkips`: metal-air faces every 60 (a multiple of 30). */
  const BoundaryIterationSkips := 60

  function ShouldComputeAir(iterations: nat): bool { iterations % AirIterationSkips == 0 }
  function ShouldComputeBoundary(iterations: nat): bool { iterations % BoundaryIterationSkips == 0 }
  function ShouldUpdateScore(iterations: nat): bool { ShouldComputeAir(iterations) && ShouldComputeBoundary(iterations) }

  /** The kinds of face between a cell and a neighbour in the lattice, as the
      source tells them apart: different states, both 0, or both the same other value. */
  datatype FaceKind = MetalAir | AirAir | MetalMetal

  function KindOf(a: Byte, b: Byte): (k: FaceKind)
    ensures k.MetalAir? <==> a != b
    ensures k.AirAir? <==> a == 0 && b == 0
  {
    if a != b then MetalAir else if a == 0 then AirAir else MetalMetal
  }

  /** The face between a cell holding `a` and a neighbour in the lattice
      holding `b` contributes to the cell's heat change in this iteration. */
  function FaceCounted(a: Byte, b: Byte, iterations: nat): bool {
    match KindOf(a, b)
    case MetalAir => ShouldComputeBoundary(iterations)
    case AirAir => ShouldComputeAir(iterations)
    case MetalMetal => true
  }

  /** A face towards the outside of the lattice loses heat to the ambient
      air on the air iterations, except under the heat source. */
  function OuterFaceCounted(iterations: nat, underHeatSource: bool): bool {
    ShouldComputeAir(iterations) && !underHeatSource
  }

  /** Metal-metal faces always count, air-air faces every 30 iterations,
      metal-air faces every 60. */
  lemma FaceCountedIff(a: Byte, b: Byte, iterations: nat)
    ensures FaceCounted(a, b, iterations) <==>
      (a == b && a != 0) ||
      (a == 0 && b == 0 && iterations % 30 == 0) ||
      (a != b && iterations % 60 == 0)
  {
  }

  /** A face counts for both of its cells or for neither. */
  lemma FaceCountedSymmetric(a: Byte, b: Byte, iterations: nat)
    ensures FaceCounted(a, b, iterations) == FaceCounted(b, a, iterations)
  {
  }

  /** The score is updated exactly on the iterations that are multiples of 60. */
  lemma ShouldUpdateScoreIff(iterations: nat)
    ensures ShouldUpdateScore(iterations) <==> iterations % 60 == 0
  {
    if iterations % 60 == 0 {
      var q := iterations / 60;
      assert iterations == 30 * (2 * q);
    }
  }

  /** On a score update every face of the lattice is computed. */
  lemma ScoreUpdateCountsEveryFace(a: Byte, b: Byte, iterations: nat, underHeatSource: bool)
    requires ShouldUpdateScore(iterations)
    ensures FaceCounted(a, b, iterations)
    ensures OuterFaceCounted(iterations, underHeatSource) <==> !underHeatSource
  {
  }

  /** Two score updates are at least 60 iterations apart. */
  lemma ScoreUpdatesSpaced(i: nat, j: nat)
    requires i < j && ShouldUpdateScore(i) && ShouldUpdateScore(j)
    ensures j - i >= 60
  {
    ShouldUpdateScoreIff(i);
    ShouldUpdateScoreIff(j);
    assert (j - i) % 60 == 0;
  }
}
