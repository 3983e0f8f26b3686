/** The greedy step at the top of the main loop: a design whose simulated
    score is worse than the best so far is reverted, any other design is
    kept as the new best. Lower scores are better. The score is an abstract
    ordered value (a `real`); the simulation that produces it is not modelled. */
module Acceptance {
  import opened Lattice
  import opened VoxelGrid

  /** The best score after comparing `newScore` with `previousScore`. */
  function KeepBetter(previousScore: real, newScore: real): (r: real)
    ensures r <= previousScore && r <= newScore
    ensures r == previousScore || r == newScore
  {
    if newScore > previousScore then previousScore else newScore
  }

  /** `previousScore` after the main loop has compared the scores one by one. */
  function ScoreAfter(previousScore: real, scores: seq<real>): real
    decreases |scores|
  {
    if scores == [] then previousScore else KeepBetter(ScoreAfter(previousScore, scores[..|scores| - 1]), scores[|scores| - 1])
  }

  /** `previousScore` never increases from one iteration to the next. */
  lemma ScoreNeverIncreases(previousScore: real, scores: seq<real>, score: real)
    ensures ScoreAfter(previousScore, scores + [score]) <= ScoreAfter(previousScore, scores)
  {
    assert (scores + [score])[..|scores|] == scores;
  }

  /** `previousScore` is the least of its initial value and every score seen,
      and is one of them. */
  lemma {:induction false} ScoreAfterIsMinimum(previousScore: real, scores: seq<real>)
    ensures ScoreAfter(previousScore, scores) <= previousScore
    ensures forall i :: 0 <= i < |scores| ==> ScoreAfter(previousScore, scores) <= scores[i]
    ensures ScoreAfter(previousScore, scores) == previousScore ||
      exists i :: 0 <= i < |scores| && ScoreAfter(previousScore, scores) == scores[i]
    decreases |scores|
  {
    if scores != [] {
      var init := scores[..|scores| - 1];
      ScoreAfterIsMinimum(previousScore, init);
      var r := ScoreAfter(previousScore, scores);
      assert r == KeepBetter(ScoreAfter(previousScore, init), scores[|scores| - 1]);
      forall i | 0 <= i < |scores| ensures r <= scores[i] {
        if i < |scores| - 1 {
          assert scores[i] == init[i];
        }
      }
      if r != previousScore && r != scores[|scores| - 1] {
        var i :| 0 <= i < |init| && ScoreAfter(previousScore, init) == init[i];
        assert r == scores[i];
      }
    }
  }

  /** `dst[..] := src[..]`, element by element. */
  method CopyDesign(src: array<Byte>, dst: array<Byte>)
    requires src.Length == dst.Length && src != dst
    modifies dst
    ensures dst[..] == src[..]
  {
    var i := 0;
    while i < src.Length
      invariant 0 <= i <= src.Length
      invariant forall j :: 0 <= j < i ==> dst[j] == src[j]
    {
      dst[i] := src[i];
      i := i + 1;
    }
  }

  /** The accept/revert block of the main loop. A worse design is replaced
      by the saved one; otherwise the design is saved and its score becomes
      the best. Either way the design and the saved copy agree afterwards. */
  method AcceptOrRevert(g: Grid, previousCellEnabled: array<Byte>, previousScore: real, newScore: real)
    returns (score: real)
    requires g.Valid() && previousCellEnabled.Length == g.cellEnabled.Length && previousCellEnabled != g.cellEnabled
    modifies g.cellEnabled, previousCellEnabled
    ensures score == KeepBetter(previousScore, newScore)
    ensures g.cellEnabled[..] == previousCellEnabled[..]
    ensures newScore > previousScore ==> g.cellEnabled[..] == old(previousCellEnabled[..])
    ensures !(newScore > previousScore) ==> g.cellEnabled[..] == old(g.cellEnabled[..])
  {
    if newScore > previousScore {
      CopyDesign(previousCellEnabled, g.cellEnabled);
      score := previousScore;
    } else {
      CopyDesign(g.cellEnabled, previousCellEnabled);
      score := newScore;
    }
  }
}
