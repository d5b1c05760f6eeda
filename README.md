# Rhie–Chow momentum and pressure predictor kernels

This project models two finite-volume kernels of a segregated incompressible
Navier–Stokes solver (a SIMPLE-family predictor–corrector on collocated grids),
and proves properties of them in Dafny:

- **The momentum predictor kernel** (`FVNavStokesPredictor_p`). It covers:
  - the construction-time configuration checks;
  - the boundary category sets built at initial setup (flow,
    fully-developed flow, no-slip wall, slip wall, symmetry, and all);
  - the boundary skip rule;
  - the per-element Rhie–Chow coefficient calculation, folded over the
    element's faces with the category dispatch;
  - the process-wide coefficient memo table (one bucket per application and
    thread), with lookup-or-compute and clear;
  - the corrected face velocity: boundary value, plain average, or the
    average minus `D_f(i)·(∇p(i) − ∇p_unc(i))` with `D = volume·coord / a`;
  - the face residual: convection `n·v·φ_f` minus diffusion `μ_f·∂u/∂n`.
- **The pressure predictor kernel** (`FVNavStokesPressurePredictor_p`): the
  face residual `(Ainv_f ⊙ ∇p)·n + Hu_f·n`. Ainv and Hu are averaged to the
  face, and absent y/z variables read as zero.

Arithmetic is exact `real`; derivatives of the dual numbers are dropped.

Supplied as inputs rather than computed:
- Euclidean norms, which need a square root.
- The viscosity and density functors.
- The advected-quantity interpolation and its elem-side weight.
- Face-normal gradients and pressure gradients.
- Coordinate-transform factors.
- The list of faces the framework's face loop visits for each element.
- The boundary-condition registry, as a map from boundary ID to its INSFV
  conditions.

The framework's `Average` face interpolation is modelled as linear weighting
by the face's geometric weight `gc`. The far-side value of a face without a
neighbor is each variable's own extrapolation of the fallback it is given.

Modules:
- `Results`: Option and Result.
- `Geometry`: three-component vectors.
- `Mesh`: face records.
- `Fields`: variables and their component vectors.
- `Boundaries`: the category sets and the per-face dispatch.
- `MomentumCoefficients`: `coeffCalculator`.
- `CoeffCache`: the coefficient table.
- `Interpolation`: the corrected face velocity.
- `Configuration`: the constructor's checks.
- `MomentumPredictor`: the kernel class with its in-place methods.
- `PressurePredictor`: the pressure kernel.

Where the code departs from the scheme as it is usually described, the model follows the code:
- The categories are not made disjoint. One boundary may sit in several sets,
  and the face dispatch then applies precedence.
- The fully-developed flag is decided by the first flow condition alone.

The model departs from the code in two places:
- The kernel's constructor uses the corrected three-dimensional `w` check
  listed under "## Findings".
- A zero coefficient, which the code checks only with a debug assertion, is
  modelled as an explicit error. The code would divide by zero in a release
  build.

A face's boundary IDs are a sequence taken in the order the caller gives.
The code walks them as a `std::set`, in ascending order; "the first ID" below
means the first in that order. Every lemma holds for any order.

## Model

| member | source | states |
|---|---|---|
| `Mesh.Weight` | src/kernels/FVNavStokesPredictor_p.C:589-594 | the weight of the first value in `Average`: gc when it is the face's element, 1 − gc otherwise; it lies in [0, 1] when gc does |
| `Mesh.Average` | src/kernels/FVNavStokesPredictor_p.C:589-594 | computes the `Average` face interpolation w·a + (1 − w)·b; its properties are stated by `Mesh.AverageSwap` and `Mesh.AverageBetween` |
| `Mesh.AverageSwap` | src/kernels/FVNavStokesPredictor_p.C:589-594 | the face value is the same whichever side is passed first, as long as the flag names the FaceInfo's element |
| `Mesh.AverageBetween` | src/kernels/FVNavStokesPredictor_p.C:589-594 | with gc in [0, 1] the face value lies between the two cell values |
| `Fields.ElemVector` | src/kernels/FVNavStokesPredictor_p.C:297-302 | the element vector starts from (x, 0, 0); an absent y or z variable leaves that component zero |
| `Fields.NeighborVector` | src/kernels/FVNavStokesPredictor_p.C:419-423 | each neighbor component falls back on the element's value; absent components stay zero |
| `Fields.BoundaryVector` | src/kernels/FVNavStokesPredictor_p.C:366-370 | the boundary-face vector; absent components stay zero |
| `CoeffCache.Resized` | src/kernels/FVNavStokesPredictor_p.C:124 | resizing keeps the existing buckets below n and appends empty buckets up to n |
| `CoeffCache.RcCoeffTable.constructor` | src/kernels/FVNavStokesPredictor_p.C:37-39 | the static table starts with no applications and no computations |
| `CoeffCache.RcCoeffTable.Register` | src/kernels/FVNavStokesPredictor_p.C:121-125 | the application gets one bucket per thread, existing buckets are kept, other applications are unchanged, and every tid below n_threads is then ready |
| `CoeffCache.GrownRefl` | src/kernels/FVNavStokesPredictor_p.C:254-257 | a lookup hit, which changes nothing, is a growth of the bucket by no element |
| `CoeffCache.GrownTrans` | src/kernels/FVNavStokesPredictor_p.C:509-529 | two lookups in a row (element, then neighbor) grow this kernel's bucket by both elements and leave every other bucket unchanged |
| `CoeffCache.GrownWiden` | src/kernels/FVNavStokesPredictor_p.C:509-529 | a growth by some elements is a growth by any larger set, as when the element's lookup fails before the neighbor's |
| `CoeffCache.GrownLeavesOthers` | src/kernels/FVNavStokesPredictor_p.C:252 | each kernel writes only `_rc_a_coeffs[&_app][_tid]`: a growth leaves every other thread's and application's bucket as it was |
| `Boundaries.OfKindSelects` | src/kernels/FVNavStokesPredictor_p.C:163-170 | a warehouse query by attribute returns only conditions of that attribute, is empty exactly when none is attached, and starts with an attached condition |
| `Boundaries.Classify` | src/kernels/FVNavStokesPredictor_p.C:150-157 | the classification keeps fully-developed ⊆ flow and `all` = flow ∪ no-slip ∪ slip ∪ symmetry, and every set lies within the connected boundaries |
| `Boundaries.ClassifiedExactly` | src/kernels/FVNavStokesPredictor_p.C:172-217 | a boundary is in `all` iff it is connected and carries some INSFV condition |
| `Boundaries.ClassifyInsert` | src/kernels/FVNavStokesPredictor_p.C:150-157 | classifying one more boundary adds exactly that boundary's insertions |
| `Boundaries.ConnectedInsert` | src/kernels/FVNavStokesPredictor_p.C:143-148 | scanning one more subdomain adds exactly its boundaries to the connected set |
| `Boundaries.SetupIdempotent` | src/kernels/FVNavStokesPredictor_p.C:138-218 | running setup a second time changes no set, because setup only inserts |
| `Boundaries.FirstFlowConditionDecides` | src/kernels/FVNavStokesPredictor_p.C:172-176 | only the first flow condition decides the fully-developed flag: [FD, plain] is fully developed, [plain, FD] is not |
| `Boundaries.OverlapResolvedByPrecedence` | src/kernels/FVNavStokesPredictor_p.C:345-364 | categories are not disjoint (a boundary with a flow and a no-slip condition is in both sets), and the no-slip wall wins the dispatch |
| `Boundaries.CategoryOf` | src/kernels/FVNavStokesPredictor_p.C:347-404 | one ID is tested in the order no-slip, slip, flow, symmetry: it is a no-slip wall iff in the no-slip set; a slip wall iff in the slip set and not the no-slip set; flow iff in the flow set and in neither wall set, with the fully-developed flag equal to membership of the fully-developed set; symmetry iff in the symmetry set and none of the others; on well-formed sets it has no category iff it is not in `all` |
| `Boundaries.FaceCategoryFirst` | src/kernels/FVNavStokesPredictor_p.C:345-411 | a face has no category iff none of its IDs has one; otherwise its category is that of the first ID that has one |
| `Boundaries.AnyIn` | src/kernels/FVNavStokesPredictor_p.C:233-235 | the loop over boundary IDs finds a flow boundary iff some ID is in the flow set |
| `Boundaries.Coverage` | src/kernels/FVNavStokesPredictor_p.C:341-411 | a face of connected boundaries has no category (the fatal "not completely bounded by INSFVBCs") iff none of its IDs carries any INSFV condition |
| `Boundaries.JoinWellFormed` | src/kernels/FVNavStokesPredictor_p.C:150-157 | adding a well-formed classification to well-formed sets keeps them well formed |
| `MomentumCoefficients.WallFactor` | src/kernels/FVNavStokesPredictor_p.C:351-352 | computes μ\|S\|/\|(x_f − x_C)·n\|, the wall diffusion factor; `MomentumCoefficients.WallFactorNonNegative` proves it is ≥ 0 for non-negative viscosity and lengths |
| `MomentumCoefficients.NoSlipShare` | src/kernels/FVNavStokesPredictor_p.C:350-353 | computes the no-slip wall share g·(1 − n_i²) below `dim`; `MomentumCoefficients.NoSlipAlongWallNormal` and `MomentumCoefficients.NoSlipShareNonNegative` state its values and sign |
| `MomentumCoefficients.SymmetryShare` | src/kernels/FVNavStokesPredictor_p.C:398-401 | computes the symmetry share 2g·n_i² below `dim`; `MomentumCoefficients.SymmetryAlongNormal` and `MomentumCoefficients.SymmetryShareNonNegative` state its values and sign |
| `MomentumCoefficients.FlowShare` | src/kernels/FVNavStokesPredictor_p.C:366-390 | computes ρ_f(v_b·S)·w plus, unless fully developed, μ\|S\|/\|x_f − x_C\|; `MomentumCoefficients.FlowFaceTerms` and `MomentumCoefficients.FlowFaceDiffusionOnly` state the two cases |
| `MomentumCoefficients.InternalShare` | src/kernels/FVNavStokesPredictor_p.C:419-441 | computes ρ_f(v_f·S)·w with the averaged velocity, plus μ\|S\|/\|x_N − x_C\|; `MomentumCoefficients.InternalShareDiffusionOnly` states its value at rest |
| `MomentumCoefficients.FaceSum` | src/kernels/FVNavStokesPredictor_p.C:295-450 | computes the face loop as a left fold over the visited faces, the first failing face aborting it; `MomentumCoefficients.FaceSumFails`, `FaceSumErrExtends`, `FaceSumPastDim`, `FaceSumUniform` and `FaceSumAtRest` state its properties |
| `MomentumCoefficients.Coefficients` | src/kernels/FVNavStokesPredictor_p.C:269-451 | computes `coeffCalculator(elem)` as `FaceSum` over the element's faces; `MomentumPredictor.Predictor.CoeffCalculator` is proved equal to it and `MomentumCoefficients.TwoCellCoefficient` gives a closed form |
| `MomentumCoefficients.FaceCoeff` | src/kernels/FVNavStokesPredictor_p.C:341-445 | one face's share fails iff it is a boundary face with no category; it is zero past `dim`, zero on a slip wall, and equal in every component on interior and flow faces |
| `MomentumCoefficients.FaceSumFails` | src/kernels/FVNavStokesPredictor_p.C:407-411 | the face loop fails iff some boundary face of the element has no recognised category |
| `MomentumCoefficients.FaceSumErrExtends` | src/kernels/FVNavStokesPredictor_p.C:407-411 | once a face has failed, the later faces cannot change the loop's error |
| `MomentumCoefficients.FaceSumPastDim` | src/kernels/FVNavStokesPredictor_p.C:350-445 | coefficient components at or past `dim` are never written and stay zero |
| `MomentumCoefficients.FaceSumUniform` | src/kernels/FVNavStokesPredictor_p.C:388-445 | an element bounded only by interior and flow faces has the same coefficient in every active direction |
| `MomentumCoefficients.NoSlipAlongWallNormal` | src/kernels/FVNavStokesPredictor_p.C:347-356 | a no-slip wall with an axis-aligned normal adds zero along the normal and μ\|S\|/d in every other active direction |
| `MomentumCoefficients.SymmetryAlongNormal` | src/kernels/FVNavStokesPredictor_p.C:395-403 | a symmetry plane with an axis-aligned normal adds 2μ\|S\|/d along the normal and nothing elsewhere |
| `MomentumCoefficients.FlowFaceTerms` | src/kernels/FVNavStokesPredictor_p.C:364-392 | a flow face adds ρ_f(v_b·S)·w to every active component, plus μ\|S\|/\|x_f − x_C\| exactly when the boundary is not fully developed |
| `MomentumCoefficients.FlowFaceDiffusionOnly` | src/kernels/FVNavStokesPredictor_p.C:372-390 | at rest a fully developed flow face adds nothing, and any other flow face adds exactly μ\|S\|/\|x_f − x_C\| in every active direction |
| `MomentumCoefficients.SlipWallIdAddsNothing` | src/kernels/FVNavStokesPredictor_p.C:345-362 | a boundary face whose first ID is in the slip-wall set and not the no-slip set adds nothing to the coefficient |
| `MomentumCoefficients.FlowIdViscousUnlessFullyDeveloped` | src/kernels/FVNavStokesPredictor_p.C:364-392 | a boundary face whose first ID is a flow boundary and neither kind of wall adds the advective term, plus μ\|S\|/\|x_f − x_C\| exactly when that ID is not in the fully-developed set |
| `MomentumCoefficients.FaceCoeffAtRest` | src/kernels/FVNavStokesPredictor_p.C:272-283 | with the fluid at rest, non-negative viscosity and unit normals, every face share is non-negative |
| `MomentumCoefficients.FaceSumAtRest` | src/kernels/FVNavStokesPredictor_p.C:272-283 | diffusive coefficients are never negative: at rest, every component of an element's coefficient is ≥ 0 |
| `MomentumCoefficients.InternalShareDiffusionOnly` | src/kernels/FVNavStokesPredictor_p.C:433-441 | at rest an interior face carries only μ\|S\|/\|x_N − x_C\| |
| `MomentumCoefficients.TwoCellCoefficient` | src/kernels/FVNavStokesPredictor_p.C:435-445 | a cell of a two-cell row at rest with a slip outer face has coefficient μA/h in every active direction |
| `Interpolation.DVec` | src/kernels/FVNavStokesPredictor_p.C:520-525 | D is zero in every component past `dim` |
| `Interpolation.InverseCoefficients` | src/kernels/FVNavStokesPredictor_p.C:520-525 | the D loop fails with ZeroCoefficient iff an active coefficient is zero, and otherwise gives volume / a(i) |
| `Interpolation.ApplyCorrection` | src/kernels/FVNavStokesPredictor_p.C:543-545 | the correction loop's result equals `Corrected` |
| `Interpolation.Corrected` | src/kernels/FVNavStokesPredictor_p.C:543-545 | active components lose D_f(i)·(∇p(i) − ∇p_unc(i)); the others keep the average; equal gradients leave the average unchanged |
| `Interpolation.SideD` | src/kernels/FVNavStokesPredictor_p.C:509-539 | one side's D fails on that side's calculation error or on a zero active coefficient |
| `Interpolation.SideDInverts` | src/kernels/FVNavStokesPredictor_p.C:520-538 | D(i)·a(i) equals the scaled volume in every active component |
| `Interpolation.CorrectedBy` | src/kernels/FVNavStokesPredictor_p.C:540-545 | the correction fails iff either side's D failed, the element's error first; success keeps the average past `dim` |
| `Interpolation.FaceVelocity` | src/kernels/FVNavStokesPredictor_p.C:454-546 | computes `interpolate(m, v)` on values: the boundary velocity, the average, or the average corrected by the face D; `Interpolation.FaceVelocityCases` states its cases; `MomentumPredictor.Predictor.Interpolate` is proved equal to it on boundary faces and under `average`, and under Rhie–Chow when the table is memoized (`Memoized`) |
| `Interpolation.FaceVelocityCases` | src/kernels/FVNavStokesPredictor_p.C:454-546 | boundary faces give the boundary velocity; `average` gives the average; Rhie–Chow fails exactly on a calculation error or a zero coefficient on either side, and equals the average when the gradients agree |
| `Configuration.VelocityCast` | src/kernels/FVNavStokesPredictor_p.C:79-84 | an optional velocity is kept iff it is supplied and is a velocity variable |
| `Configuration.CheckVariablesAsWritten` | src/kernels/FVNavStokesPredictor_p.C:96-119 | as written, construction succeeds iff pressure is a pressure variable, u is a velocity variable, dim ≥ 2 has a velocity v, dim ≥ 3 has some `w` parameter, and the method is `average` or `rc` |
| `Configuration.CheckVariables` | src/kernels/FVNavStokesPredictor_p.C:96-119 | the same checks with the three-dimensional check on the cast w; the first failing check is the error; success keeps exactly the cast variables and maps `average`/`rc` to the method |
| `Configuration.CheckForcing` | src/kernels/FVNavStokesPredictor_p.C:127-135 | construction is refused iff `force_boundary_execution` is set or `boundaries_to_force` is non-empty, the former reported first |
| `Configuration.AcceptedHasComponents` | src/kernels/FVNavStokesPredictor_p.C:102-110 | an accepted kernel has v when dim ≥ 2 and w when dim ≥ 3 |
| `Configuration.WCheckAsWrittenAdmitsMissingW` | src/kernels/FVNavStokesPredictor_p.C:107-110 | a 3-D kernel given a non-velocity `w` passes the check as written and runs without a z velocity |
| `Configuration.ChecksAgreeOffTheFlaw` | src/kernels/FVNavStokesPredictor_p.C:102-110 | both versions of the check agree below three dimensions and whenever w is absent or a velocity variable |
| `Configuration.CorrectionOnlyRefuses` | src/kernels/FVNavStokesPredictor_p.C:102-110 | wherever the corrected check differs from the code's, it refuses with the missing-w error, while the code passes the w check and goes on to accept or reject the method name |
| `MomentumPredictor.ResidualAt` | src/kernels/FVNavStokesPredictor_p.C:580-613 | computes n·v·φ_f − μ_f·∂u/∂n at a known face velocity; `MomentumPredictor.NoNormalFlowIsPureDiffusion` and `MomentumPredictor.UniformViscosity` state its terms |
| `MomentumPredictor.FaceResidual` | src/kernels/FVNavStokesPredictor_p.C:562-614 | the face residual fails iff the face velocity does |
| `MomentumPredictor.FaceResidualByVelocity` | src/kernels/FVNavStokesPredictor_p.C:571-613 | the residual is convection minus diffusion at the interpolated velocity |
| `MomentumPredictor.NoNormalFlowIsPureDiffusion` | src/kernels/FVNavStokesPredictor_p.C:580-613 | with no velocity normal to the face, the residual is −μ_f·∂u/∂n: there is no pressure or time term |
| `MomentumPredictor.UniformViscosity` | src/kernels/FVNavStokesPredictor_p.C:583-603 | equal viscosities on both sides enter the diffusion term unchanged |
| `MomentumPredictor.AgreeingGradientsGiveAverageResidual` | src/kernels/FVNavStokesPredictor_p.C:543-545 | where the corrected and uncorrected gradients agree, the Rhie–Chow residual is the average residual |
| `MomentumPredictor.AverageResidualIgnoresPressure` | src/kernels/FVNavStokesPredictor_p.C:486-490 | under `average` the residual does not depend on the pressure gradients |
| `MomentumPredictor.BoundaryResidual` | src/kernels/FVNavStokesPredictor_p.C:459-481 | on a boundary face the residual is taken at the boundary velocity, whatever the method |
| `MomentumPredictor.ConnectedBoundaries` | src/kernels/FVNavStokesPredictor_p.C:141-148 | the first setup loop yields the union of the boundaries of the given blocks |
| `MomentumPredictor.Predictor.constructor` | src/kernels/FVNavStokesPredictor_p.C:74-88 | a new kernel keeps its setting, method, table, app and thread, with empty category sets |
| `MomentumPredictor.Predictor.InitialSetup` | src/kernels/FVNavStokesPredictor_p.C:138-158 | the sets grow by the classification of the boundaries connected to the kernel's blocks (all subdomains when not block-restricted), and the setup invariant is kept |
| `MomentumPredictor.Predictor.ClassifyAll` | src/kernels/FVNavStokesPredictor_p.C:150-157 | the classification loop adds exactly `Classify` of the connected set |
| `MomentumPredictor.Predictor.ClassifyNext` | src/kernels/FVNavStokesPredictor_p.C:150-157 | one loop iteration extends the classification of the boundaries already done by one boundary |
| `MomentumPredictor.Predictor.SetupAll` | src/kernels/FVNavStokesPredictor_p.C:152-156 | one loop body inserts the flow, no-slip, slip and symmetry parts of one boundary |
| `MomentumPredictor.Predictor.SetupFlowBoundaries` | src/kernels/FVNavStokesPredictor_p.C:160-196 | a boundary with a flow condition joins flow and all, and joins fully-developed when its first flow condition is fully developed |
| `MomentumPredictor.Predictor.SetupBoundaries` | src/kernels/FVNavStokesPredictor_p.C:198-218 | a boundary with a condition of the given kind joins that set and all; nothing else changes |
| `MomentumPredictor.Predictor.SkipForBoundary` | src/kernels/FVNavStokesPredictor_p.C:220-240 | false on interior faces; true with a flux BC; otherwise false when some ID is a flow boundary, else true iff there is no Dirichlet BC |
| `MomentumPredictor.Predictor.CoeffCalculator` | src/kernels/FVNavStokesPredictor_p.C:269-451 | the accumulating face loop returns the fold `Coefficients` over the element's faces |
| `MomentumPredictor.Predictor.RcCoeff` | src/kernels/FVNavStokesPredictor_p.C:242-266 | a hit returns the stored vector with the table unchanged; a miss computes once and adds exactly that new entry, so the bucket grows by one; memoized entries stay correct; the table only grows by this element in this kernel's bucket (`Grown`) |
| `MomentumPredictor.Predictor.ClearRCCoeffs` | src/kernels/FVNavStokesPredictor_p.C:616-627 | only this app's and thread's bucket is emptied; other buckets and apps are unchanged; nothing is computed |
| `MomentumPredictor.Predictor.SideCoefficients` | src/kernels/FVNavStokesPredictor_p.C:509-525 | one side's D is `SideD` of the coefficient when the table is memoized, with at most one computation; the table changes only by this kernel's bucket gaining that element's entry, every other bucket unchanged (`Grown`) |
| `MomentumPredictor.Predictor.Interpolate` | src/kernels/FVNavStokesPredictor_p.C:453-546 | on boundary faces and under `average` the result equals `FaceVelocity` and the table is untouched, with no ready table needed; under Rhie–Chow on an internal face the result equals `FaceVelocity` when the table is memoized (`Memoized`), which it stays, and the table only grows, by the face's two elements in this kernel's bucket (`Grown`); at most two coefficients are computed |
| `MomentumPredictor.Predictor.RhieChowInterpolate` | src/kernels/FVNavStokesPredictor_p.C:492-545 | the Rhie–Chow branch looks up the element's D before the neighbor's, the element's error first, then corrects (`CorrectedBy`) when the table is memoized; the table only grows by the two elements in this kernel's bucket (`Grown`), with at most two computations |
| `MomentumPredictor.Predictor.CorrectWithNeighbor` | src/kernels/FVNavStokesPredictor_p.C:529-545 | the neighbor's D is averaged with the element's and the correction loop applied (`CorrectedBy`) when the table is memoized; the table only grows by the neighbor in this kernel's bucket (`Grown`), with at most one computation |
| `MomentumPredictor.Predictor.ComputeQpResidual` | src/kernels/FVNavStokesPredictor_p.C:562-614 | on boundary faces and under `average` the residual equals `FaceResidual` and the table is untouched, with no ready table needed; under Rhie–Chow it equals `FaceResidual` when the table is memoized (`Memoized`), and the table only grows by the face's two elements in this kernel's bucket (`Grown`); at most two coefficients are computed |
| `MomentumPredictor.Create` | src/kernels/FVNavStokesPredictor_p.C:74-136 | construction fails with the first failing check; the thread-0 kernel registers its application before the forcing checks; success gives a fresh kernel with the cast velocities and empty sets |
| `MomentumPredictor.RepeatedLookup` | src/kernels/FVNavStokesPredictor_p.C:254-265 | two lookups of one element give the same answer, and a successful first lookup leaves the second nothing to compute |
| `MomentumPredictor.LookupAfterClear` | src/kernels/FVNavStokesPredictor_p.C:616-627 | after a clear, a lookup recomputes (exactly one computation) and gives the current coefficient |
| `MomentumPredictor.ResidualKeepsOtherBuckets` | src/kernels/FVNavStokesPredictor_p.C:252-264 | evaluating a residual leaves every other thread's and application's bucket unchanged and keeps every entry this kernel's bucket had |
| `PressurePredictor.Create` | src/kernels/FVNavStokesPressurePredictor_p.C:67-73 | the y variables exist only from two dimensions on and the z variables only in three |
| `PressurePredictor.FaceValue` | src/kernels/FVNavStokesPressurePredictor_p.C:104-158 | computes a face vector (face Ainv or face Hu) as the `Average` of the element and neighbor vectors; `PressurePredictor.FaceValueBetween`, `AbsentComponentsZero` and `NoNeighborFallsBackOnElement` state its properties |
| `PressurePredictor.AinvGradP` | src/kernels/FVNavStokesPressurePredictor_p.C:130-134 | computes Ainv_gradp: each present component of face Ainv times that gradient component, absent ones zero; `PressurePredictor.NoCrossTerms` and `AbsentDirectionIgnored` state its properties |
| `PressurePredictor.Residual` | src/kernels/FVNavStokesPressurePredictor_p.C:94-195 | computes the face residual Ainv_gradp·n + Hu_f·n; `PressurePredictor.ResidualIsHadamard`, `LinearInGradient`, `LinearInSource` and `ZeroGradientLeavesSource` state its properties |
| `PressurePredictor.AbsentComponentsZero` | src/kernels/FVNavStokesPressurePredictor_p.C:104-158 | an absent Ainv or Hu component is zero on both sides and so on the face |
| `PressurePredictor.ZeroFillBelowDimension` | src/kernels/FVNavStokesPressurePredictor_p.C:104-150 | below two (three) dimensions the y (z) parts of face Ainv, Ainv_gradp and face Hu are zero |
| `PressurePredictor.ResidualIsHadamard` | src/kernels/FVNavStokesPressurePredictor_p.C:130-172 | the residual equals (Ainv_f ⊙ ∇p)·n + Hu_f·n |
| `PressurePredictor.NoCrossTerms` | src/kernels/FVNavStokesPressurePredictor_p.C:130-134 | component i of Ainv_gradp does not depend on any other gradient component |
| `PressurePredictor.AbsentDirectionIgnored` | src/kernels/FVNavStokesPressurePredictor_p.C:130-134 | with no Ainv variable in a direction, the pressure gradient in that direction does not affect the residual |
| `PressurePredictor.ZeroGradientLeavesSource` | src/kernels/FVNavStokesPressurePredictor_p.C:136-172 | with a zero pressure gradient the residual is Hu_f·n |
| `PressurePredictor.LinearInGradient` | src/kernels/FVNavStokesPressurePredictor_p.C:130-136 | the residual is affine in the pressure gradient: the shares of two gradients add |
| `PressurePredictor.LinearInSource` | src/kernels/FVNavStokesPressurePredictor_p.C:172 | changing the Hu variables changes the residual by exactly the change of Hu_f·n |
| `PressurePredictor.FaceValueBetween` | src/kernels/FVNavStokesPressurePredictor_p.C:122-158 | both face values are `Average` interpolations: with gc in [0, 1], each component lies between the element and neighbor values |
| `PressurePredictor.NoNeighborFallsBackOnElement` | src/kernels/FVNavStokesPressurePredictor_p.C:113-150 | the neighbor value falls back on the element's value, so under one-term extrapolation a face without a neighbor takes the element's value |

## Findings

| source | as written | input that shows it | evidently intended | confidence | as-written member | corrected member |
|---|---|---|---|---|---|---|
| src/kernels/FVNavStokesPredictor_p.C:107-110 | the three-dimensional check tests whether a `w` parameter was given, not whether the cast `_w_var` succeeded | a 3-D mesh with `w` set to a variable that is not an INSFVVelocityVariable: construction succeeds and the z velocity is silently dropped | test the cast, as the v check does and as the error message says ("must be an INSFVVelocityVariable") | medium, not executed | `Configuration.WCheckAsWrittenAdmitsMissingW` | `Configuration.CheckVariables` |

## Left out

- Parameter registration (`validParams`) and object registration: framework plumbing.
- Warehouse queries for boundary conditions, flux BCs and Dirichlet BCs: these are inputs. The registry is a map from boundary to its INSFV conditions; the flux/Dirichlet answers are booleans.
- The framework primitives: face interpolation weights, `interpCoeffs`, `getNeighborValue`'s extrapolation, `getBoundaryFaceValue`, `adGradSln`, `uncorrectedAdGradSln`, `coordTransformFactor`, `gradUDotNormal`, the face loop, and the μ/ρ functors. They are supplied functions or values.
- Automatic-differentiation derivatives and floating point: values are exact reals.
- Threading: per-thread buckets are a sequence indexed by thread ID, with no concurrency.
- The local-AD-indexing stubs that only raise an error.
- Console output in the pressure kernel.
- The commented-out pressure, transient and right-hand-side terms of both residuals.
- The velocity corrector and the two-level orchestration: they are not in these two kernels.
- MomentumCoefficients.FaceCoeff: requires non-zero wall and centroid distances. The code would divide by zero and produce an infinity there.
- Boundaries.Classify: the debug-only check that a flow boundary's conditions are all fully developed or all not is not modelled. Only the first flow condition decides, as in a release build.
- MomentumPredictor.Predictor.Interpolate: the debug-only assertion that a boundary face is a flow boundary is not modelled. Any boundary face returns the boundary velocity.
- MomentumPredictor.Predictor.RcCoeff: a fatal error in the coefficient calculation aborts the run in the code. Here it returns the error without inserting an entry.
- Interpolation.InverseCoefficients: a zero coefficient is a debug assertion in the code. Here it is an explicit error.
- MomentumPredictor.Create: builds with the corrected check `Configuration.CheckVariables`, so a 3-D kernel whose `w` is supplied but is not a velocity variable is refused, where the code constructs it without a z velocity; `Configuration.CheckVariablesAsWritten` models the code, see "## Findings".
- PressurePredictor.Create: a supplied variable that is not a finite-volume real variable, which the cast would turn into a null pointer, is not distinguished from an absent one.
