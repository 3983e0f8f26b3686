# EvolvedHeatsinks design machinery, in Dafny

EvolvedHeatsinks searches for a heat-sink shape inside a cube of `N × N × N`
voxels. The design is the byte array `cellEnabled`: 1 is metal, 0 is air.
Each step of the search mutates the design and simulates heat flow through it.
A design that scores worse is rolled back.

This project models the integer and boolean part of that search, which
reads and writes the design arrays in place, and proves what each step keeps:

- **Lattice** (`lattice.dfy`): `idx(x, y, z) = (x*N + y)*N + z` and its
  inverse. It also defines the border of forced air (`airPadding` cells on
  four sides and at the top), the interior box, and the metal count.
- **VoxelGrid** (`grid.dfy`): the class `Grid`, holding the three arrays
  the search mutates (`cellEnabled`, `isCellOnBoundary` and
  `disconnectedComponentTable`), plus the clearing of the air border.
- **Mutation** (`mutation.dfy`): the pieces the three mutators share:
  - a random integer in a range;
  - the "differs from a neighbour" interface test;
  - the rejection loop over a finite supply of draws;
  - the toggle of a pair of cells.
- **Extrusion** (`extrusion.dfy`): `extrudeDesignInY` and `extrudeDesignInX`.
- **Symmetry** (`symmetry.dfy`): the copy of the wedge `z < x < N/2` of a
  layer onto its seven mirror and diagonal images.
- **Forged** (`forged.dfy`): `evolveDesignForged`. It toggles two top-layer
  interface cells of opposite state, optionally makes the layer symmetric,
  then extrudes the top layer down.
- **Design3D** (`design3d.dfy`): `evolveDesign3D`. It toggles two interior
  interface cells of opposite state outside the bottom skip band, and optionally
  makes every layer symmetric.
- **Connectivity** (`connectivity.dfy`): `hasDisconnectedComponents`. This
  is the flood fill from `(N/2, 0, N/2)` that sweeps until no sweep marks
  a new cell, proved against a path-based definition of reachability.
- **ExtrudedMutation** (`extruded.dfy`): `evolveDesignExtruded`. It toggles
  a z-mirrored pair in the slice `x = airPadding`, extrudes along x, and
  keeps the toggle only if the design stays connected.
- **Boundary** (`boundary.dfy`): the CPU pass of `preprocessDesign` that
  flags metal cells with an open face.
- **Acceptance** (`acceptance.dfy`): the greedy accept-or-revert step of
  the main loop.
- **Gating** (`gating.dfy`): which faces the solver counts on a given
  iteration, and when the score is updated.
- **Codec** (`codec.dfy`): the binary design file. The file is a header of
  two big-endian 32-bit ints, then the design packed 8 cells to a byte,
  least significant bit first, in runs along z.
- **Export** (`export.dfy`): the two passes of `exportCurrentHeatsink`. The
  first pass counts the cells to draw, and the second fills 108 vertex
  coordinates per counted cell.

Other modelling choices:

- **Configuration.** `N` and `airPadding` are parameters restricted by
  `ValidConfig`:
  - `N` is even;
  - `1 <= airPadding`;
  - `2*airPadding < N`;
  - `N <= 1290`, so that `N³` and every index fit a Java `int`.
- **Cells** are Java bytes (`bv8`), and the toggle `^= 1` is an xor.
- **Randomness.** Each `(int)(Math.random()*span + low)` is a draw, a
  natural number supplied by the caller. Each `do … while (true)` rejection
  loop consumes a finite sequence of draws. An operation that runs out of
  draws reports `ok == false`, where the program would keep drawing.
- **Scores** are abstract `real` values.

Behaviour the model takes from the code:

- **The wedge draw.** With symmetry on, the forged and 3D mutators draw `x`
  from `[airPadding, N/2)` and then `z` from `[airPadding, x)`. When
  `x == airPadding` that second range is empty, so `z == airPadding`. The
  toggled cell is then the diagonal cell `(airPadding, airPadding)`, which
  lies outside the strict wedge `z < x`. The copy step writes only the
  images of strict-wedge cells, so it never writes diagonal cells or cells
  with `Fold(x) == Fold(z)`.
  - `Forged.ForgedSearchPicks` and `Design3D.CubeSearchPicks` state the
    resulting disjunction.
  - The symmetry proved (`Symmetry.LayerSymmetric`) is equality of every
    cell with its wedge representative.
- **The metal count.** The two toggles of the forged mutator and of
  `evolveDesign3D` keep the metal count. The forged mutator's extrusion and
  the symmetric copies can change it, so `evolveDesign3D(false)` is the
  3D-mutator call that keeps the count of the whole design. The extruded
  mutator keeps the count of a 0/1 design that is uniform in x and mirrored
  in z, and it preserves both of those properties. Each pair it toggles is
  then a pair of whole columns of the extruded box, and the second pair has
  the other state than the first (`ExtrudedMutation.ExtrudedResultKeepsCount`).
  On a design without the z-mirror, the two cells of a pair can differ, and
  then the count can change.
- **Loading.** The code exits the process when the header does not match;
  the model returns `SizeMismatch` or `PaddingMismatch` and leaves the
  design untouched.
- **The skip band of the 3D mutator.** `evolveDesign3D` never picks a
  bottom cell with `airPadding*1.3 < x, z < N - airPadding*1.3 - 1`
  (`Design3D.InSkipBand`). The footprint that `addHeat` heats runs from
  `(int)(airPadding*1.3)` while below `N - airPadding*1.3`, one cell wider
  on every side. The mutator can therefore flip the rim cells of the heated
  footprint; only the skip band is proved to stay metal.
- **The extruded mutator's rollback.** After a rejected
  toggle, `evolveDesignExtruded` undoes the two toggles, but not the
  extrusion. Only the slice `x = airPadding` is restored. The model states exactly that
  (`ExtrudedMutation.SliceKept`), and the next `extrudeDesignInX` makes the
  stale slices irrelevant (`Extrusion.ExtrudedInXReadsSlice`).
- **The flood fill's read below the bottom row.** At `y == 0`,
  `hasDisconnectedComponents` reads `cellEnabled[idx(x, -1, z)]` before
  testing `y > 0`. That index is `idx(x - 1, N - 1, z)`, a border cell. It
  holds air whenever the border is clear, so the `&&` stops before the
  table is read at `y == -1` (`Connectivity.BelowBottomIsBorder`).

## Model

| member | source | states |
|---|---|---|
| Lattice.IdxDecode | HeatsinkMain.java:992-995 | every lattice cell has an index in [0, N³), and integer division and remainder by N recover its coordinates |
| Lattice.IndexDecode | HeatsinkMain.java:992-995 | every index in [0, N³) is the index of a lattice cell |
| Lattice.IdxInjective | HeatsinkMain.java:992-995 | two lattice cells share an index exactly when they are the same cell |
| Lattice.Flip | HeatsinkMain.java:589-590 | `^= 1` flips the low bit of one cell and leaves every other cell unchanged |
| Lattice.FlipPairKeepsCount | HeatsinkMain.java:589-590 | toggling a second cell whose state after the first toggle differs from the first cell's old state keeps the number of metal cells |
| VoxelGrid.Grid.constructor | HeatsinkMain.java:20-25 | `cellEnabled` and `isCellOnBoundary` have N³ entries, all zero, and the component table is N × N × N |
| VoxelGrid.WithAirBorderSpec | HeatsinkMain.java:226-243 | after clearing, every border cell is air and every other cell is unchanged |
| VoxelGrid.ClearSurroundingAir | HeatsinkMain.java:226-243 | the x, y, z loop leaves exactly the design with its border cleared |
| Mutation.RandomInt | HeatsinkMain.java:269-270 | a draw scaled to a span of width w lands in [low, low + w), or is low when w is 0 |
| Mutation.RandomIntCovers | HeatsinkMain.java:269-270 | every value of the range is the result of some draw |
| Mutation.NeighboursInLattice | HeatsinkMain.java:277-279 | from a cell off the lattice faces, every unit step of the axes table stays inside the lattice, so the unchecked neighbour reads are in bounds |
| Mutation.HasDifferentNeighbour | HeatsinkMain.java:277-279 | the scan of the axes table reports exactly whether some neighbour differs from the given value |
| Mutation.FirstHit | HeatsinkMain.java:266-295 | the rejection loop stops at the first draw that passes the test and at no earlier one, or runs out of draws |
| Mutation.ColumnDraw | HeatsinkMain.java:359-365 | a drawn column is inside the interior; with symmetry on it is in the half x < N/2 and either in the strict wedge or the diagonal cell (airPadding, airPadding) |
| Mutation.FlipInvariants | HeatsinkMain.java:281 | toggling a non-border cell keeps the border clear and every cell 0 or 1 |
| Mutation.FlipPairInvariants | HeatsinkMain.java:281-282 | toggling two non-border cells keeps the border clear and every cell 0 or 1 |
| Mutation.FlipPair | HeatsinkMain.java:589-590 | the two in-place toggles leave the design with both cells toggled |
| Extrusion.ExtrudedInYShape | HeatsinkMain.java:444-457 | every interior cell between the bottom margin and the top layer equals its column's top-layer cell; the top layer, the layers below the margin and the border are unchanged |
| Extrusion.ExtrudedInYIdempotent | HeatsinkMain.java:444-457 | extruding twice in y is the same as extruding once |
| Extrusion.ExtrudedInYInvariants | HeatsinkMain.java:444-457 | extrusion in y keeps the border clear and every cell 0 or 1 |
| Extrusion.ExtrudeDesignInY | HeatsinkMain.java:444-457 | the z, x, y loop leaves exactly the extruded design |
| Extrusion.ExtrudedInXShape | HeatsinkMain.java:460-473 | afterwards every interior cell equals the cell of slice x = airPadding at its (y, z); that slice and every cell outside the extruded box are unchanged |
| Extrusion.ExtrudedInXReadsSlice | HeatsinkMain.java:460-473 | the result depends only on slice x = airPadding and the cells outside the box |
| Extrusion.ExtrudedInXOfUniform | HeatsinkMain.java:460-473 | a design already uniform in x is a fixed point, so extruding twice equals extruding once |
| Extrusion.ExtrudedInXInvariants | HeatsinkMain.java:460-473 | extrusion in x keeps the border clear and every cell 0 or 1 |
| Extrusion.ExtrudeDesignInX | HeatsinkMain.java:460-473 | the z, y, x loop leaves exactly the extruded design |
| Symmetry.Fold | HeatsinkMain.java:418-427 | folding a coordinate across the middle plane lands in [0, N/2) |
| Symmetry.RepX | HeatsinkMain.java:418-427 | the wedge representative of a cell off the fold diagonal lies in the strict wedge z < x < N/2 |
| Symmetry.RepZ | HeatsinkMain.java:418-427 | the z coordinate of the representative is a lattice coordinate |
| Symmetry.FoldMirror | HeatsinkMain.java:421-423 | a coordinate and its mirror N-1-a fold to the same value |
| Symmetry.RepSymmetric | HeatsinkMain.java:421-427 | mirroring x and swapping x with z keep the representative |
| Symmetry.RepImage | HeatsinkMain.java:420-427 | a cell has wedge cell (x, z) as representative exactly when it is one of the eight images the loop writes |
| Symmetry.SymmetrizedIsSymmetric | HeatsinkMain.java:415-437 | after the copy, each treated layer equals its wedge representative at every cell off the fold diagonal |
| Symmetry.SymmetrizedKeepsSources | HeatsinkMain.java:415-437 | wedge cells, fold-diagonal cells and untreated layers are never overwritten |
| Symmetry.AtRepOfSymmetric | HeatsinkMain.java:420-434 | in a symmetric layer every image holds its representative's value |
| Symmetry.SymmetrizedOfSymmetric | HeatsinkMain.java:415-437 | copying an already symmetric design changes nothing |
| Symmetry.SymmetrizedInvariants | HeatsinkMain.java:415-437 | the copy keeps the border clear and every cell 0 or 1 |
| Symmetry.SymmetrizedStep | HeatsinkMain.java:595 | treating layers lo..y and then layer y equals treating lo..y+1 |
| Symmetry.SymmetrizedEmpty | HeatsinkMain.java:595 | treating no layers changes nothing |
| Symmetry.ImageIndices | HeatsinkMain.java:420-427 | the eight indices are lattice indices and the seven written ones differ from the source index |
| Symmetry.CopiedToImagesAt | HeatsinkMain.java:428-434 | one body of the loop writes the wedge cell's value into exactly its seven images and changes no other cell |
| Symmetry.CopyToImages | HeatsinkMain.java:420-434 | the seven assignments leave exactly that design |
| Symmetry.SymmetricCopyLayer | HeatsinkMain.java:417-436 | the x, z loop over one layer leaves that layer symmetrized |
| Symmetry.SymmetricCopyLayers | HeatsinkMain.java:594-617 | the y loop leaves every layer below the border symmetrized |
| Forged.ForgedCell | HeatsinkMain.java:356-367 | a draw names a cell of the top layer at the drawn column |
| Forged.ForgedSearchPicks | HeatsinkMain.java:352-413 | the first cell is a top-layer interface cell; the second is an interface cell of the toggled design whose state differs from the first cell's old state; with symmetry on both are in the wedge or the diagonal cell |
| Forged.FindForgedCell | HeatsinkMain.java:355-379 | the sampling loop stops at the first accepted draw |
| Forged.FlipForgedCell | HeatsinkMain.java:355-379 | the loop toggles exactly the first accepted cell, reports its old state, and toggles nothing when the draws run out |
| Forged.FlipForgedPair | HeatsinkMain.java:352-413 | the two loops leave the design with exactly the searched cells toggled |
| Forged.ReflectAndExtrude | HeatsinkMain.java:415-439 | the optional symmetric copy of the top layer followed by extrusion from the bottom margin |
| Forged.EvolveDesignForged | HeatsinkMain.java:340-441 | succeeds exactly when both cells were found, and leaves the toggled, copied and extruded design |
| Forged.ForgedSwapKeepsVolume | HeatsinkMain.java:382-413 | the two toggles together keep the number of metal cells |
| Forged.ForgedFinishInvariants | HeatsinkMain.java:415-439 | the copy and extrusion keep the border clear and every cell 0 or 1 |
| Forged.ForgedResultInvariants | HeatsinkMain.java:340-441 | the whole mutator keeps the border clear and every cell 0 or 1 |
| Forged.ForgedFinishShape | HeatsinkMain.java:415-439 | every column is uniform from the bottom margin to the top layer, the layers below the margin are unchanged, and with symmetry on every extruded layer is symmetric |
| Forged.ForgedFinishSymmetric | HeatsinkMain.java:415-439 | with symmetry on and the border clear, every layer from the bottom margin to the top layer is symmetric |
| Forged.ExtrudedLayerSymmetric | HeatsinkMain.java:444-457 | extruding a symmetric top layer makes every extruded layer symmetric |
| Design3D.CubeCell | HeatsinkMain.java:493-505 | a draw names the cell at the drawn column and drawn height |
| Design3D.CubeSearch | HeatsinkMain.java:490-587 | the cells found are lattice indices |
| Design3D.CubeSearchPicks | HeatsinkMain.java:490-587 | both cells are interface cells outside the border and the skip band, the second's state differs from the first's, and with symmetry on both are in the wedge or its diagonal cell |
| Design3D.FindCubeCell | HeatsinkMain.java:492-534 | the sampling loop stops at the first accepted draw |
| Design3D.FindCubePair | HeatsinkMain.java:490-587 | the two loops find exactly the searched pair, without changing the design |
| Design3D.EvolveDesign3D | HeatsinkMain.java:477-617 | succeeds exactly when both cells were found, and leaves the swapped and optionally symmetrized design |
| Design3D.CubeSwapKeepsVolume | HeatsinkMain.java:537-590 | swapping two cells of opposite state keeps the number of metal cells, and without symmetry so does the whole mutator |
| Design3D.CubeResultInvariants | HeatsinkMain.java:477-617 | the mutator keeps the border clear and every cell 0 or 1 |
| Design3D.CubeReflectedInvariants | HeatsinkMain.java:593-617 | the symmetric copy keeps the border clear and every cell 0 or 1 |
| Design3D.CubeResultKeepsFixedCells | HeatsinkMain.java:509-520 | without symmetry no border cell and no skip-band cell ever changes |
| Design3D.SkipCoordFold | HeatsinkMain.java:517-518 | the skip band is symmetric about the middle plane |
| Design3D.SymmetrizedKeepsSkipBand | HeatsinkMain.java:593-617 | the symmetric copy keeps an all-metal skip band all metal |
| Design3D.FlipPairKeepsSkipBand | HeatsinkMain.java:516-520 | toggling two cells outside the skip band keeps it all metal |
| Design3D.CubeResultKeepsSkipBand | HeatsinkMain.java:477-617 | the mutator keeps an all-metal skip band all metal, with or without symmetry |
| Design3D.CubeReflectedKeepsSkipBand | HeatsinkMain.java:593-617 | the optional copy keeps an all-metal skip band all metal |
| Design3D.CubeReflectedSymmetric | HeatsinkMain.java:593-617 | after the copy every layer below the border is symmetric |
| Design3D.CubeResultSymmetric | HeatsinkMain.java:477-617 | with symmetry on, a successful mutation leaves every layer below the border symmetric |
| Connectivity.SeedReachable | HeatsinkMain.java:631 | the bottom-centre seed is reachable when it is an open cell |
| Connectivity.ReachStep | HeatsinkMain.java:640-665 | an open neighbour of a reachable cell is reachable |
| Connectivity.ClosedHoldsReachable | HeatsinkMain.java:635-670 | a marking closed under the sweep holds every reachable cell |
| Connectivity.AllReachedIffConnected | HeatsinkMain.java:620-686 | for a sound and closed marking, every open cell is marked exactly when the design is connected, and the marked cells are exactly the seed and the reachable cells |
| Connectivity.MarkKeepsSound | HeatsinkMain.java:640-665 | marking an open neighbour of a marked open cell keeps the marking sound |
| Connectivity.ClearTable | HeatsinkMain.java:622-631 | after the clearing loops only the seed is marked |
| Connectivity.Spread | HeatsinkMain.java:642-653 | one neighbour test marks the neighbour exactly when it is metal and unmarked, and reports whether it did |
| Connectivity.BelowBottomIsBorder | HeatsinkMain.java:658 | at y = 0 the read of idx(x, -1, z) is in bounds and finds border air |
| Connectivity.SpreadDown | HeatsinkMain.java:658-661 | the downward test marks the cell below exactly when it is metal, unmarked and y > 0, and never touches the table at y = -1 |
| Connectivity.MetalNeighbourIsOpen | HeatsinkMain.java:640-665 | a metal neighbour of an interior cell is open, because the border is air |
| Connectivity.SpreadKeepsSound | HeatsinkMain.java:642-665 | marking a metal neighbour of a marked open cell keeps the marking sound |
| Connectivity.SpreadDownKeepsSound | HeatsinkMain.java:658-661 | marking the metal cell below keeps the marking sound |
| Connectivity.SpreadForward | HeatsinkMain.java:642-653 | the x+1, y+1, z+1 tests mark every open forward neighbour and keep the marking sound |
| Connectivity.SpreadBackward | HeatsinkMain.java:654-665 | the x-1, y-1, z-1 tests mark every open backward neighbour and keep the marking sound |
| Connectivity.SaturatedFromNeighbours | HeatsinkMain.java:640-666 | once all six neighbour tests of a cell have run, every open neighbour is marked |
| Connectivity.Visit | HeatsinkMain.java:640-666 | visiting a marked open cell leaves all its open neighbours marked, and reports growth exactly when a cell was marked |
| Connectivity.Sweep | HeatsinkMain.java:636-669 | a sweep that marks nothing leaves a closed marking; one that marks something grows the marking |
| Connectivity.FindUnreached | HeatsinkMain.java:673-685 | the final loops report exactly whether some open cell is unmarked |
| Connectivity.HasDisconnectedComponents | HeatsinkMain.java:620-686 | terminates, reads in bounds given a clear border, returns true exactly when some open cell is not reachable from the seed, and leaves exactly the seed and the reachable cells marked |
| ExtrudedMutation.PairCells | HeatsinkMain.java:268-273 | the draw names two distinct cells of slice x = airPadding at one height in [1, N-airPadding), mirrored in z |
| ExtrudedMutation.PairCellsInterior | HeatsinkMain.java:268-273 | both cells are interior and above the bottom layer |
| ExtrudedMutation.ExtrudedResultConnected | HeatsinkMain.java:253-336 | a successful mutation leaves a connected design, uniform in x, with a clear border and 0/1 cells |
| ExtrudedMutation.ToggledInvariants | HeatsinkMain.java:281-283 | toggling the pair and extruding gives a design uniform in x, with the border clear and 0/1 cells |
| ExtrudedMutation.ToggledKeepsMirror | HeatsinkMain.java:281-283 | toggling the pair and extruding keeps a z-mirrored design z-mirrored |
| ExtrudedMutation.FlipMirroredKeepsMirror | HeatsinkMain.java:281-282 | toggling a cell together with its z-mirror keeps a z-mirrored design z-mirrored |
| ExtrudedMutation.ExtrudedInXKeepsMirror | HeatsinkMain.java:460-473 | extrusion in x keeps a z-mirrored design z-mirrored |
| ExtrudedMutation.ExtrudedResultKeepsMirror | HeatsinkMain.java:253-336 | the whole mutator keeps a z-mirrored design z-mirrored |
| ExtrudedMutation.ExtrudedResultKeepsCount | HeatsinkMain.java:253-336 | on a 0/1 design uniform in x and mirrored in z, a successful mutation keeps the metal count, because the second pair has the other state than the first (306-310) |
| ExtrudedMutation.ToggledCount | HeatsinkMain.java:281-283 | on such a design, toggling a pair and extruding adds 2(N - 2 airPadding) metal cells when the pair was air and removes as many when it was metal |
| ExtrudedMutation.ToggledIsColumns | HeatsinkMain.java:281-283 | on a design uniform in x, toggling the pair and extruding toggles both of the pair's columns in every slice of the box, x from airPadding to N - airPadding - 1, and no other cell |
| ExtrudedMutation.PairColumnsHold | HeatsinkMain.java:268-272 | on such a design, every cell of both of the pair's columns holds the first cell's value |
| ExtrudedMutation.FlipColumnsCount | HeatsinkMain.java:281-282 | toggling 2k distinct cells that all hold the same value raises the metal count by 2k when that value is air and lowers it by 2k when it is metal |
| ExtrudedMutation.FlipPairTwice | HeatsinkMain.java:288-289 | toggling the pair back undoes the toggle |
| ExtrudedMutation.AttemptPair | HeatsinkMain.java:281-294 | toggle, extrude and check: reports whether the toggled design is connected, keeps it when it is, and otherwise restores slice x = airPadding |
| ExtrudedMutation.TryAxes | HeatsinkMain.java:277-294 | the neighbour scan accepts exactly when some neighbour differs and the toggled design is connected |
| ExtrudedMutation.TryNeighbour | HeatsinkMain.java:278-294 | one neighbour test succeeds exactly when that neighbour differs and the toggled design is connected |
| ExtrudedMutation.TryPair | HeatsinkMain.java:266-295 | one draw is accepted exactly when its first cell is an interface cell and the toggled design is connected |
| ExtrudedMutation.FindPair | HeatsinkMain.java:266-295 | the sampling loop stops at the first accepted draw and leaves that toggled design |
| ExtrudedMutation.EvolveDesignExtruded | HeatsinkMain.java:253-336 | succeeds exactly when both loops found a pair, leaves the result of the two accepted toggles, and keeps the border clear |
| Boundary.BoundaryFlagsIff | HeatsinkMain.java:744-765 | a cell is flagged exactly when it is metal and one of its six neighbours is off the lattice or air; every flag is 0 or 1 |
| Boundary.FlagAt | HeatsinkMain.java:742 | the flag of index idx(x, y, z) is the flag of cell (x, y, z) |
| Boundary.FlagCell | HeatsinkMain.java:742-766 | the body for one cell writes that cell's flag and no other entry |
| Boundary.FlagRow | HeatsinkMain.java:741-767 | the z loop writes the flags of one row and no other entry |
| Boundary.FlagPlane | HeatsinkMain.java:739-768 | the y loop writes the flags of one plane and no other entry |
| Boundary.PreprocessDesign | HeatsinkMain.java:738-768 | the x, y, z loops leave every flag recomputed from the design |
| Acceptance.KeepBetter | HeatsinkMain.java:75-87 | the kept score is the smaller of the two, and one of them |
| Acceptance.ScoreNeverIncreases | HeatsinkMain.java:75-87 | another step never raises the kept score |
| Acceptance.ScoreAfterIsMinimum | HeatsinkMain.java:75-87 | after a run of steps the kept score is the minimum of the start and every new score |
| Acceptance.CopyDesign | HeatsinkMain.java:77-79 | the copy loop makes the target equal to the source |
| Acceptance.AcceptOrRevert | HeatsinkMain.java:75-87 | after either branch the design equals the snapshot; a worse score restores the old snapshot, another score keeps the new design |
| Gating.KindOf | HeatsinkMain.java:878-889 | a face is metal–air exactly when its two cells differ, and air–air exactly when both are 0 |
| Gating.FaceCountedIff | HeatsinkMain.java:878-889 | metal–metal faces always count, air–air faces when iterations % 30 == 0, metal–air faces when iterations % 60 == 0 |
| Gating.FaceCountedSymmetric | HeatsinkMain.java:878-889 | whether a face counts does not depend on which side is asked |
| Gating.ShouldUpdateScoreIff | HeatsinkMain.java:934 | the score is updated exactly when iterations % 60 == 0 |
| Gating.ScoreUpdateCountsEveryFace | HeatsinkMain.java:891-893 | on a score iteration every face counts, and every outer face outside the heat source |
| Gating.ScoreUpdatesSpaced | HeatsinkMain.java:934 | two score updates are at least 60 iterations apart |
| Codec.UnpackBit | SaveLoadTools.java:217-224 | `(data >> k) & 1` is 0 or 1 |
| Codec.Unpack | SaveLoadTools.java:217-224 | the 8 cells read from a byte are its bits, lowest first |
| Codec.UnpackPackByte | SaveLoadTools.java:217-264 | reading a packed byte gives back the 8 cells, when each is 0 or 1 |
| Codec.PackByteIgnoresSignExtension | SaveLoadTools.java:257-264 | packing through sign-extended 32-bit ints and casting back to a byte gives the same byte as packing bits |
| Codec.UnpackBitIgnoresSignExtension | SaveLoadTools.java:217-224 | the arithmetic shift of the sign-extended byte gives the same bit as the byte's own bit |
| Codec.UnpackAsInt | SaveLoadTools.java:217-224 | the eight int reads of a byte give its unpacked cells |
| Codec.IntBytes | SaveLoadTools.java:251-252 | a written int is 4 bytes |
| Codec.HeaderRoundTrip | SaveLoadTools.java:202-207 | reading back a written int gives the same 32 bits |
| Codec.EncodeBody | SaveLoadTools.java:254-269 | the body has one byte per 8 cells |
| Codec.DecodeBody | SaveLoadTools.java:213-227 | reading a body gives 8 cells per byte |
| Codec.DecodeEncodeBody | SaveLoadTools.java:213-269 | reading back the packed body of a 0/1 design gives the design |
| Codec.EncodeBodyLayout | SaveLoadTools.java:256-264 | bit k of the byte for the run at (x, y, z) is cell (x, y, z + k) |
| Codec.SavedFileSize | SaveLoadTools.java:240-269 | a file is written exactly when N % 8 == 0, and it has 8 header bytes and N³/8 body bytes |
| Codec.PackRun | SaveLoadTools.java:257-264 | one pack of 8 cells gives the byte of that run |
| Codec.WriteRun | SaveLoadTools.java:256-266 | writing the next run extends the packed prefix by one byte |
| Codec.WriteRow | SaveLoadTools.java:256-267 | the z loop writes the packed bytes of one row |
| Codec.WriteBody | SaveLoadTools.java:254-269 | the x, y, z loops write the packed body of the whole design |
| Codec.SaveCurrentHeatsinkAsBinary | SaveLoadTools.java:237-276 | writes nothing when N % 8 != 0, and otherwise the header N, airPadding followed by the packed body |
| Codec.ReadDesign | SaveLoadTools.java:213-227 | a read keeps the design's size |
| Codec.LoadedDesign | SaveLoadTools.java:195-235 | loading keeps the design's size |
| Codec.LoadSavedFile | SaveLoadTools.java:195-276 | loading a saved 0/1 design, into any design of the same size, succeeds and gives back the saved design |
| Codec.LoadRejectsForeignHeader | SaveLoadTools.java:202-211 | a header whose N or airPadding differs is rejected, and the design is unchanged |
| Codec.UnpackInto | SaveLoadTools.java:217-224 | the eight writes put the unpacked byte into the run and change no other cell |
| Codec.WriteCell | SaveLoadTools.java:217 | one write changes that cell only |
| Codec.ReadRow | SaveLoadTools.java:215-225 | the z loop reads the bytes of one row, or stops where the input ends |
| Codec.ReadPlane | SaveLoadTools.java:214-226 | the y loop reads the bytes of one plane, or stops where the input ends |
| Codec.ReadBody | SaveLoadTools.java:213-227 | the loops read the whole body when enough bytes are there, and report whether they were |
| Codec.LoadHeatsink | SaveLoadTools.java:195-235 | checks N, then airPadding, then reads the body, leaving the outcome and design the load defines |
| Export.DrawnCountMonotone | SaveLoadTools.java:23-35 | the count grows by at most one per cell scanned |
| Export.CellVertices | SaveLoadTools.java:46-166 | each drawn cell contributes 6 faces × 2 triangles × 3 corners × 3 coordinates = 108 values |
| Export.MeshLength | SaveLoadTools.java:37-170 | the fill pass writes 108 values per counted cell |
| Export.MeshCellPlacement | SaveLoadTools.java:39-170 | the triangles of a drawn cell start at 108 times the number of drawn cells before it |
| Export.MeshStepAt | SaveLoadTools.java:42-167 | scanning one more cell adds its 108 values exactly when it is enabled and on the boundary |
| Export.CountRow | SaveLoadTools.java:26-33 | the z loop adds the drawn cells of one row |
| Export.CountDrawnCells | SaveLoadTools.java:23-35 | the counting pass counts the cells that are enabled and on the boundary |
| Export.WriteVertices | SaveLoadTools.java:46-166 | the `vertices[i++]` writes put one cell's values at i and change nothing else |
| Export.FillRow | SaveLoadTools.java:42-168 | the z loop appends the triangles of one row's drawn cells |
| Export.FillVertices | SaveLoadTools.java:39-170 | the fill pass writes exactly the whole buffer, the counting pass having sized it |
| Export.NumberVertices | SaveLoadTools.java:173-176 | `indices[j] == j` for every j |
| Export.ExportCurrentHeatsink | SaveLoadTools.java:19-176 | exports exactly when 108 × count fits an int; the buffer then holds every drawn cell's triangles and indices[j] == j for j < vertices.length/3 |

## Left out

- The heat simulation is not part of this model:
  - the float work of `runSimulation`, `addHeat` and `scoreHeatsink`;
  - the convergence test;
  - the heat arrays.

  It is floating-point numerics. Only the face-gating rule and the score schedule are modelled, with "under the heat source" as a boolean input.
- The thread pool and its busy-wait join, the 60-FPS sleep and the telemetry printing are concurrency and I/O.
- The GPU path (`CUDAProgram.java` and the `useGPU` branches) is foreign code.
- `Renderer.java`, `VoxelRayTracer.java`, `Vector3.java`, `Rotate3D.java` and `RayResult.java` are not part of this model: they are UI and double-precision geometry.
- `setInitialDesign`'s seed shapes and `setDesignIteration` are not modelled. Only the clearing of the air border is.
- The infinite `while (true)` of `main` is not modelled, and neither is how many mutations it applies per step. Only one accept-or-revert step and the score over a finite run of steps are modelled.
- `Math.random` is not modelled. Draws are caller-supplied natural numbers, and a rejection loop sees a finite supply of them. When the draws run out, the operation returns `ok == false` with the outcome stated, where the program would go on drawing.
- Streams, files and the OBJ library are not modelled:
  - the save and load model the byte sequence written and read;
  - the exporter models the vertex and index arrays handed to the OBJ writer;
  - a failed file open or an exception inside the streams is not modelled, except for a body that ends early, which leaves the remaining cells unchanged.
- The load's `System.exit(1)` on a header mismatch is modelled as a returned outcome with the design unchanged.
- Codec.LoadHeatsink: requires `N % 8 == 0`. For other even `N` the source would read past a row's end into the next one, and no writer produces such a file.
- ExtrudedMutation.ExtrudedResultKeepsCount: requires a design uniform in x and mirrored in z. The comment at `HeatsinkMain.java:306-307` promises constant volume without these conditions, but that promise fails when the two cells of the first pair differ. Then the first toggle does not change the count, while the second pair changes it by 2(N - 2 airPadding).
- ExtrudedMutation.EvolveDesignExtruded: when the draws run out, it promises only a clear border, not the design left by the last rejected attempt.
- The float expressions are modelled as exact integer comparisons. For `bottomMargin = (int)(N*0.05 + 1)` the model uses `N/20 + 1`. For the skip band `airPadding*1.3` the model uses `13*airPadding` against `10*x`. The model assumes that the float products round as exact arithmetic would.
- Export.ExportCurrentHeatsink: vertex coordinates are exact integers; the source stores them in a `float`, which is exact for these values. The 108 writes per cell are modelled as a loop over the table of corners in the source's order, not as 108 separate statements.
- Export.ExportCurrentHeatsink: the Java `int` product `cellCount * 108` can wrap. The model reports failure, with empty arrays, when the product would exceed `Integer.MAX_VALUE`: the source would then fail to allocate the buffer, or allocate one too small and throw in the fill.
- NaN scores are not modelled: a score is a `real`.
