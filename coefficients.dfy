/** The Rhie-Chow momentum coefficient of an element (coeffCalculator): the
    sum over the element's faces of each face's advective and viscous share,
    chosen by the face's boundary category. */
module MomentumCoefficients {
  import opened Results
  import opened Geometry
  import opened Mesh
  import opened Fields
  import opened Boundaries

  /** The fatal errors of the momentum kernel's face computations. */
  datatype KernelError =
    | UnclassifiedBoundaryFace   // a boundary face none of whose IDs has an INSFV condition
    | ZeroCoefficient            // a momentum coefficient used as a divisor is zero

  /** What the calculator reads besides the category sets: the mesh dimension,
      the coupled velocity variables, the face viscosity and density, the
      advected interpolation's elem-side weight, the Euclidean length of a
      vector, the faces the face loop visits for each element, and the
      advected quantity's face interpolation given the two side values and
      the advecting velocity. */
  datatype Setting = Setting(
    dim: Dim,
    vel: Velocity,
    mu: FaceInfo -> real,
    rho: FaceInfo -> real,
    advWeight: (FaceInfo, bool, Vec3) -> real,
    norm: Vec3 -> real,
    facesOf: ElemId -> seq<ElemFace>,
    advected: (FaceInfo, real, real, Vec3) -> real)

  /** The components of v below the dimension; the others stay zero. */
  function Masked(dim: Dim, v: Vec3): Vec3
  {
    [v[0], if dim >= 2 then v[1] else 0.0, if dim >= 3 then v[2] else 0.0]
  }

  function Uniform(dim: Dim, t: real): Vec3
  {
    Masked(dim, [t, t, t])
  }

  /** The distances the face's terms divide by are nonzero. */
  predicate NonDegenerate(s: Setting, ef: ElemFace)
  {
    if ef.fi.onBoundary then
      && Dot(Sub(ef.fi.faceCentroid, RcCentroid(ef)), OutwardNormal(ef)) != 0.0
      && s.norm(Sub(ef.fi.faceCentroid, RcCentroid(ef))) != 0.0
    else
      s.norm(Sub(ef.fi.neighborCentroid, ef.fi.elemCentroid)) != 0.0
  }

  predicate NonDegenerateFaces(s: Setting, faces: seq<ElemFace>)
  {
    forall j :: 0 <= j < |faces| ==> NonDegenerate(s, faces[j])
  }

  predicate ValidElem(s: Setting, e: ElemId)
  {
    NonDegenerateFaces(s, s.facesOf(e))
  }

  /** mu |S| / |(x_f - x_c) . n|, the wall term's diffusion factor. */
  function WallFactor(s: Setting, ef: ElemFace): real
    requires ef.fi.onBoundary && NonDegenerate(s, ef)
  {
    s.mu(ef.fi) * s.norm(ef.surfaceVector) / Abs(Dot(Sub(ef.fi.faceCentroid, RcCentroid(ef)), OutwardNormal(ef)))
  }

  /** The no-slip wall share mu |S| / d (1 - n_i^2), with g the wall factor. */
  function NoSlipShare(dim: Dim, g: real, n: Vec3): Vec3
  {
    Masked(dim, [g * (1.0 - n[0] * n[0]), g * (1.0 - n[1] * n[1]), g * (1.0 - n[2] * n[2])])
  }

  /** The symmetry share 2 mu |S| / d n_i^2, with g the wall factor. */
  function SymmetryShare(dim: Dim, g: real, n: Vec3): Vec3
  {
    Masked(dim, [2.0 * g * n[0] * n[0], 2.0 * g * n[1] * n[1], 2.0 * g * n[2] * n[2]])
  }

  /** The advective term rho_f (v . S) w shared by flow and internal faces. */
  function Advective(s: Setting, ef: ElemFace, v: Vec3): real
  {
    s.rho(ef.fi) * Dot(v, ef.surfaceVector) * s.advWeight(ef.fi, ef.elemHasInfo, v)
  }

  /** A flow face adds the same amount to every component: the advective term
      of the boundary velocity, plus a viscous term unless the flow is fully developed. */
  function FlowShare(s: Setting, ef: ElemFace, fullyDeveloped: bool): real
    requires ef.fi.onBoundary && NonDegenerate(s, ef)
  {
    Advective(s, ef, BoundaryVector(s.vel, ef.fi))
      + (if fullyDeveloped then 0.0
         else s.mu(ef.fi) * s.norm(ef.surfaceVector) / s.norm(Sub(ef.fi.faceCentroid, RcCentroid(ef))))
  }

  /** An internal face adds the same amount to every component: the advective
      term of the averaged velocity plus the orthogonal viscous term. */
  function InternalShare(s: Setting, elem: ElemId, ef: ElemFace): real
    requires !ef.fi.onBoundary && NonDegenerate(s, ef)
  {
    var ev := ElemVector(s.vel, elem);
    var nv := NeighborVector(s.vel, Across(ef), ef.fi, ev);
    var iv := AverageVec(ef.fi, ef.elemHasInfo, ev, nv);
    Advective(s, ef, iv)
      + s.mu(ef.fi) * s.norm(ef.surfaceVector) / s.norm(Sub(ef.fi.neighborCentroid, ef.fi.elemCentroid))
  }

  /** What one face adds to the coefficient of `elem`. It fails exactly on a
      boundary face with no category, adds nothing past the dimension, nothing
      at all on a slip wall, and the same to every component on internal and
      flow faces. */
  function FaceCoeff(s: Setting, c: Classification, elem: ElemId, ef: ElemFace): (r: Result<Vec3, KernelError>)
    requires NonDegenerate(s, ef)
    ensures r.Err? <==> ef.fi.onBoundary && FaceCategory(c, ef.fi.boundaryIds).None?
    ensures r.Ok? ==> forall i :: s.dim <= i < 3 ==> r.value[i] == 0.0
    ensures ef.fi.onBoundary && FaceCategory(c, ef.fi.boundaryIds) == Some(SlipWall) ==> r == Ok(Zero)
    ensures UniformFace(c, ef) ==> r.Ok? && forall i :: 0 <= i < s.dim ==> r.value[i] == r.value[0]
  {
    if ef.fi.onBoundary then
      match FaceCategory(c, ef.fi.boundaryIds)
      case None => Err(UnclassifiedBoundaryFace)
      case Some(NoSlipWall) => Ok(NoSlipShare(s.dim, WallFactor(s, ef), OutwardNormal(ef)))
      case Some(SlipWall) => Ok(Zero)
      case Some(Flow(fullyDeveloped)) => Ok(Uniform(s.dim, FlowShare(s, ef, fullyDeveloped)))
      case Some(Symmetry) => Ok(SymmetryShare(s.dim, WallFactor(s, ef), OutwardNormal(ef)))
    else
      Ok(Uniform(s.dim, InternalShare(s, elem, ef)))
  }

  /** Internal faces and flow faces: the faces whose share is the same for
      every velocity component. */
  predicate UniformFace(c: Classification, ef: ElemFace)
  {
    !ef.fi.onBoundary || (FaceCategory(c, ef.fi.boundaryIds).Some? && FaceCategory(c, ef.fi.boundaryIds).value.Flow?)
  }

  /** The accumulation over the faces in visiting order; the first failing face
      aborts it. */
  function FaceSum(s: Setting, c: Classification, elem: ElemId, faces: seq<ElemFace>): Result<Vec3, KernelError>
    requires NonDegenerateFaces(s, faces)
  {
    if faces == [] then Ok(Zero)
    else
      match FaceSum(s, c, elem, faces[..|faces| - 1])
      case Err(e) => Err(e)
      case Ok(acc) =>
        match FaceCoeff(s, c, elem, faces[|faces| - 1])
        case Err(e) => Err(e)
        case Ok(d) => Ok(Add(acc, d))
  }

  /** coeffCalculator(elem). */
  function Coefficients(s: Setting, c: Classification, elem: ElemId): Result<Vec3, KernelError>
    requires ValidElem(s, elem)
  {
    FaceSum(s, c, elem, s.facesOf(elem))
  }

  /** The calculation fails exactly when one of the element's boundary faces has
      no recognised category. */
  lemma {:induction false} FaceSumFails(s: Setting, c: Classification, elem: ElemId, faces: seq<ElemFace>)
    requires NonDegenerateFaces(s, faces)
    ensures FaceSum(s, c, elem, faces).Err? <==>
      exists j :: 0 <= j < |faces| && faces[j].fi.onBoundary && FaceCategory(c, faces[j].fi.boundaryIds).None?
  {
    if faces != [] {
      var init := faces[..|faces| - 1];
      FaceSumFails(s, c, elem, init);
      assert forall j :: 0 <= j < |init| ==> init[j] == faces[j];
    }
  }

  /** Components at or past the dimension are never written. */
  lemma {:induction false} FaceSumPastDim(s: Setting, c: Classification, elem: ElemId, faces: seq<ElemFace>)
    requires NonDegenerateFaces(s, faces)
    ensures FaceSum(s, c, elem, faces).Ok? ==>
      forall i :: s.dim <= i < 3 ==> FaceSum(s, c, elem, faces).value[i] == 0.0
  {
    if faces != [] {
      FaceSumPastDim(s, c, elem, faces[..|faces| - 1]);
    }
  }

  /** An element bounded only by internal and flow faces has the same
      coefficient in every direction below the dimension. */
  lemma {:induction false} FaceSumUniform(s: Setting, c: Classification, elem: ElemId, faces: seq<ElemFace>)
    requires NonDegenerateFaces(s, faces)
    requires forall j :: 0 <= j < |faces| ==> UniformFace(c, faces[j])
    ensures FaceSum(s, c, elem, faces).Ok?
    ensures forall i :: 0 <= i < s.dim ==> FaceSum(s, c, elem, faces).value[i] == FaceSum(s, c, elem, faces).value[0]
  {
    if faces != [] {
      FaceSumUniform(s, c, elem, faces[..|faces| - 1]);
      assert UniformFace(c, faces[|faces| - 1]);
    }
  }

  /** A no-slip wall whose normal lies along axis k adds nothing in that
      direction and the full wall factor in every other active direction. */
  lemma NoSlipAlongWallNormal(s: Setting, c: Classification, elem: ElemId, ef: ElemFace, k: nat)
    requires NonDegenerate(s, ef) && ef.fi.onBoundary
    requires FaceCategory(c, ef.fi.boundaryIds) == Some(NoSlipWall)
    requires k < s.dim
    requires OutwardNormal(ef) == Axis(k) || OutwardNormal(ef) == Neg(Axis(k))
    ensures FaceCoeff(s, c, elem, ef).Ok?
    ensures FaceCoeff(s, c, elem, ef).value[k] == 0.0
    ensures forall i :: 0 <= i < s.dim && i != k ==> FaceCoeff(s, c, elem, ef).value[i] == WallFactor(s, ef)
  {
  }

  /** A symmetry plane whose normal lies along axis k adds twice the wall
      factor in that direction and nothing in any other. */
  lemma SymmetryAlongNormal(s: Setting, c: Classification, elem: ElemId, ef: ElemFace, k: nat)
    requires NonDegenerate(s, ef) && ef.fi.onBoundary
    requires FaceCategory(c, ef.fi.boundaryIds) == Some(Symmetry)
    requires k < s.dim
    requires OutwardNormal(ef) == Axis(k) || OutwardNormal(ef) == Neg(Axis(k))
    ensures FaceCoeff(s, c, elem, ef).Ok?
    ensures FaceCoeff(s, c, elem, ef).value[k] == 2.0 * WallFactor(s, ef)
    ensures forall i :: 0 <= i < 3 && i != k ==> FaceCoeff(s, c, elem, ef).value[i] == 0.0
  {
  }

  /** A field that is zero everywhere, on boundary faces, and across faces
      without a neighbor. */
  ghost predicate ZeroField(f: Field)
  {
    && (forall e :: f.elemValue(e) == 0.0)
    && (forall fi :: f.boundaryFaceValue(fi) == 0.0)
    && (forall fi :: f.extrapolate(fi, 0.0) == 0.0)
  }

  ghost predicate AtRest(vel: Velocity)
  {
    && ZeroField(vel.x)
    && (vel.y.Some? ==> ZeroField(vel.y.value))
    && (vel.z.Some? ==> ZeroField(vel.z.value))
  }

  /** Non-negative viscosity and lengths. */
  ghost predicate Dissipative(s: Setting)
  {
    && (forall fi :: s.mu(fi) >= 0.0)
    && (forall v :: s.norm(v) >= 0.0)
  }

  predicate UnitNormal(ef: ElemFace)
  {
    Dot(ef.fi.normal, ef.fi.normal) == 1.0
  }

  lemma ProductNonNegative(a: real, b: real)
    requires a >= 0.0 && b >= 0.0
    ensures a * b >= 0.0
  {
  }

  lemma WallFactorNonNegative(s: Setting, ef: ElemFace)
    requires ef.fi.onBoundary && NonDegenerate(s, ef) && Dissipative(s)
    ensures WallFactor(s, ef) >= 0.0
  {
    var d := Abs(Dot(Sub(ef.fi.faceCentroid, RcCentroid(ef)), OutwardNormal(ef)));
    ProductNonNegative(s.mu(ef.fi), s.norm(ef.surfaceVector));
    ProductNonNegative(s.mu(ef.fi) * s.norm(ef.surfaceVector), 1.0 / d);
  }

  /** Each squared component of a unit vector lies in [0, 1]. */
  lemma UnitComponents(n: Vec3)
    requires Dot(n, n) == 1.0
    ensures 0.0 <= n[0] * n[0] <= 1.0 && 0.0 <= n[1] * n[1] <= 1.0 && 0.0 <= n[2] * n[2] <= 1.0
  {
    ProductNonNegative(Abs(n[0]), Abs(n[0]));
    ProductNonNegative(Abs(n[1]), Abs(n[1]));
    ProductNonNegative(Abs(n[2]), Abs(n[2]));
  }

  lemma ComplementNonNegative(g: real, x: real)
    requires g >= 0.0 && 0.0 <= x * x <= 1.0
    ensures g * (1.0 - x * x) >= 0.0
  {
    ProductNonNegative(g, 1.0 - x * x);
  }

  lemma NoSlipShareNonNegative(dim: Dim, g: real, n: Vec3)
    requires g >= 0.0 && Dot(n, n) == 1.0
    ensures forall i :: 0 <= i < 3 ==> NoSlipShare(dim, g, n)[i] >= 0.0
  {
    UnitComponents(n);
    ComplementNonNegative(g, n[0]);
    ComplementNonNegative(g, n[1]);
    ComplementNonNegative(g, n[2]);
  }

  lemma SymmetryShareNonNegative(dim: Dim, g: real, n: Vec3)
    requires g >= 0.0
    ensures forall i :: 0 <= i < 3 ==> SymmetryShare(dim, g, n)[i] >= 0.0
  {
    ProductNonNegative(Abs(n[0]), Abs(n[0]));
    ProductNonNegative(Abs(n[1]), Abs(n[1]));
    ProductNonNegative(Abs(n[2]), Abs(n[2]));
    ProductNonNegative(2.0 * g, n[0] * n[0]);
    ProductNonNegative(2.0 * g, n[1] * n[1]);
    ProductNonNegative(2.0 * g, n[2] * n[2]);
  }

  lemma FlowShareAtRest(s: Setting, ef: ElemFace, fullyDeveloped: bool)
    requires ef.fi.onBoundary && NonDegenerate(s, ef) && Dissipative(s) && AtRest(s.vel)
    ensures FlowShare(s, ef, fullyDeveloped) >= 0.0
  {
    assert BoundaryVector(s.vel, ef.fi) == Zero;
    ProductNonNegative(s.mu(ef.fi), s.norm(ef.surfaceVector));
    ProductNonNegative(s.mu(ef.fi) * s.norm(ef.surfaceVector), 1.0 / s.norm(Sub(ef.fi.faceCentroid, RcCentroid(ef))));
  }

  lemma InternalShareAtRest(s: Setting, elem: ElemId, ef: ElemFace)
    requires !ef.fi.onBoundary && NonDegenerate(s, ef) && Dissipative(s) && AtRest(s.vel)
    ensures InternalShare(s, elem, ef) >= 0.0
  {
    var ev := ElemVector(s.vel, elem);
    assert ev == Zero;
    assert NeighborVector(s.vel, Across(ef), ef.fi, ev) == Zero;
    ProductNonNegative(s.mu(ef.fi), s.norm(ef.surfaceVector));
    ProductNonNegative(s.mu(ef.fi) * s.norm(ef.surfaceVector), 1.0 / s.norm(Sub(ef.fi.neighborCentroid, ef.fi.elemCentroid)));
  }

  lemma NoSlipFaceAtRest(s: Setting, c: Classification, elem: ElemId, ef: ElemFace)
    requires NonDegenerate(s, ef) && Dissipative(s) && UnitNormal(ef)
    requires ef.fi.onBoundary && FaceCategory(c, ef.fi.boundaryIds) == Some(NoSlipWall)
    ensures FaceCoeff(s, c, elem, ef).Ok? && forall i :: 0 <= i < 3 ==> FaceCoeff(s, c, elem, ef).value[i] >= 0.0
  {
    var n := OutwardNormal(ef);
    WallFactorNonNegative(s, ef);
    assert Dot(n, n) == Dot(ef.fi.normal, ef.fi.normal);
    NoSlipShareNonNegative(s.dim, WallFactor(s, ef), n);
  }

  lemma SymmetryFaceAtRest(s: Setting, c: Classification, elem: ElemId, ef: ElemFace)
    requires NonDegenerate(s, ef) && Dissipative(s)
    requires ef.fi.onBoundary && FaceCategory(c, ef.fi.boundaryIds) == Some(Symmetry)
    ensures FaceCoeff(s, c, elem, ef).Ok? && forall i :: 0 <= i < 3 ==> FaceCoeff(s, c, elem, ef).value[i] >= 0.0
  {
    WallFactorNonNegative(s, ef);
    SymmetryShareNonNegative(s.dim, WallFactor(s, ef), OutwardNormal(ef));
  }

  lemma FlowFaceAtRest(s: Setting, c: Classification, elem: ElemId, ef: ElemFace, fd: bool)
    requires NonDegenerate(s, ef) && Dissipative(s) && AtRest(s.vel)
    requires ef.fi.onBoundary && FaceCategory(c, ef.fi.boundaryIds) == Some(Flow(fd))
    ensures FaceCoeff(s, c, elem, ef).Ok? && forall i :: 0 <= i < 3 ==> FaceCoeff(s, c, elem, ef).value[i] >= 0.0
  {
    FlowShareAtRest(s, ef, fd);
  }

  lemma InternalFaceAtRest(s: Setting, c: Classification, elem: ElemId, ef: ElemFace)
    requires NonDegenerate(s, ef) && Dissipative(s) && AtRest(s.vel)
    requires !ef.fi.onBoundary
    ensures FaceCoeff(s, c, elem, ef).Ok? && forall i :: 0 <= i < 3 ==> FaceCoeff(s, c, elem, ef).value[i] >= 0.0
  {
    InternalShareAtRest(s, elem, ef);
  }

  /** With the fluid at rest only the diffusive shares remain, and every one
      of them is non-negative. */
  lemma FaceCoeffAtRest(s: Setting, c: Classification, elem: ElemId, ef: ElemFace)
    requires NonDegenerate(s, ef) && AtRest(s.vel) && Dissipative(s) && UnitNormal(ef)
    requires FaceCoeff(s, c, elem, ef).Ok?
    ensures forall i :: 0 <= i < 3 ==> FaceCoeff(s, c, elem, ef).value[i] >= 0.0
  {
    if !ef.fi.onBoundary {
      InternalFaceAtRest(s, c, elem, ef);
    } else {
      match FaceCategory(c, ef.fi.boundaryIds)
      case Some(NoSlipWall) => NoSlipFaceAtRest(s, c, elem, ef);
      case Some(Symmetry) => SymmetryFaceAtRest(s, c, elem, ef);
      case Some(Flow(fd)) => FlowFaceAtRest(s, c, elem, ef, fd);
      case Some(SlipWall) =>
    }
  }

  /** Diffusive contributions are never negative: with the fluid at rest,
      unit normals and non-negative viscosity every coefficient is >= 0. */
  lemma {:induction false} FaceSumAtRest(s: Setting, c: Classification, elem: ElemId, faces: seq<ElemFace>)
    requires NonDegenerateFaces(s, faces) && AtRest(s.vel) && Dissipative(s)
    requires forall j :: 0 <= j < |faces| ==> UnitNormal(faces[j])
    ensures FaceSum(s, c, elem, faces).Ok? ==>
      forall i :: 0 <= i < 3 ==> FaceSum(s, c, elem, faces).value[i] >= 0.0
  {
    if faces != [] {
      var init := faces[..|faces| - 1];
      FaceSumAtRest(s, c, elem, init);
      var last := faces[|faces| - 1];
      if FaceCoeff(s, c, elem, last).Ok? {
        FaceCoeffAtRest(s, c, elem, last);
      }
    }
  }

  /** Once a prefix of the face loop has failed, the whole loop fails with the
      same error: the face visited later cannot repair it. */
  lemma {:induction false} FaceSumErrExtends(s: Setting, c: Classification, elem: ElemId, faces: seq<ElemFace>, k: nat)
    requires NonDegenerateFaces(s, faces)
    requires k <= |faces|
    requires FaceSum(s, c, elem, faces[..k]).Err?
    ensures FaceSum(s, c, elem, faces) == FaceSum(s, c, elem, faces[..k])
  {
    if k < |faces| {
      var init := faces[..|faces| - 1];
      assert init[..k] == faces[..k];
      FaceSumErrExtends(s, c, elem, init, k);
    } else {
      assert faces[..k] == faces;
    }
  }

  /** A flow face adds the advective term of the boundary velocity to every
      active component, and the viscous term mu |S| / |x_f - x_C| only when
      the flow is not fully developed. */
  lemma FlowFaceTerms(s: Setting, c: Classification, elem: ElemId, ef: ElemFace, fd: bool)
    requires NonDegenerate(s, ef) && ef.fi.onBoundary
    requires FaceCategory(c, ef.fi.boundaryIds) == Some(Flow(fd))
    ensures var adv := Advective(s, ef, BoundaryVector(s.vel, ef.fi));
      var viscous := s.mu(ef.fi) * s.norm(ef.surfaceVector) / s.norm(Sub(ef.fi.faceCentroid, RcCentroid(ef)));
      && (fd ==> FaceCoeff(s, c, elem, ef) == Ok(Uniform(s.dim, adv)))
      && (!fd ==> FaceCoeff(s, c, elem, ef) == Ok(Uniform(s.dim, adv + viscous)))
  {
    var adv := Advective(s, ef, BoundaryVector(s.vel, ef.fi));
    var viscous := s.mu(ef.fi) * s.norm(ef.surfaceVector) / s.norm(Sub(ef.fi.faceCentroid, RcCentroid(ef)));
    assert FaceCoeff(s, c, elem, ef) == Ok(Uniform(s.dim, FlowShare(s, ef, fd)));
    if !fd {
      assert FlowShare(s, ef, fd) == adv + viscous;
    }
  }

  /** With the fluid at rest a fully developed flow face adds nothing, and any
      other flow face adds exactly its viscous term mu |S| / |x_f - x_C|. */
  lemma FlowFaceDiffusionOnly(s: Setting, c: Classification, elem: ElemId, ef: ElemFace, fd: bool)
    requires NonDegenerate(s, ef) && ef.fi.onBoundary && AtRest(s.vel)
    requires FaceCategory(c, ef.fi.boundaryIds) == Some(Flow(fd))
    ensures fd ==> FaceCoeff(s, c, elem, ef) == Ok(Zero)
    ensures !fd ==> FaceCoeff(s, c, elem, ef) == Ok(Uniform(s.dim,
      s.mu(ef.fi) * s.norm(ef.surfaceVector) / s.norm(Sub(ef.fi.faceCentroid, RcCentroid(ef)))))
  {
    assert BoundaryVector(s.vel, ef.fi) == Zero;
    assert Advective(s, ef, BoundaryVector(s.vel, ef.fi)) == 0.0;
    FlowFaceTerms(s, c, elem, ef, fd);
    var u := Uniform(s.dim, 0.0);
    assert u[0] == 0.0 && u[1] == 0.0 && u[2] == 0.0;
    assert u == Zero;
  }

  /** A boundary face whose first ID is a slip wall (and not also a no-slip
      wall, which would take precedence) adds nothing to the coefficient. */
  lemma SlipWallIdAddsNothing(s: Setting, c: Classification, elem: ElemId, ef: ElemFace)
    requires NonDegenerate(s, ef) && ef.fi.onBoundary && |ef.fi.boundaryIds| > 0
    requires ef.fi.boundaryIds[0] in c.slipWall && ef.fi.boundaryIds[0] !in c.noSlipWall
    ensures FaceCoeff(s, c, elem, ef) == Ok(Zero)
  {
    assert FaceCategory(c, ef.fi.boundaryIds) == Some(SlipWall);
  }

  /** A boundary face whose first ID is a flow boundary (and neither kind of
      wall) adds the viscous term exactly when that ID is not in the
      fully-developed set. */
  lemma FlowIdViscousUnlessFullyDeveloped(s: Setting, c: Classification, elem: ElemId, ef: ElemFace)
    requires NonDegenerate(s, ef) && ef.fi.onBoundary && |ef.fi.boundaryIds| > 0
    requires var b := ef.fi.boundaryIds[0]; b in c.flow && b !in c.noSlipWall && b !in c.slipWall
    ensures var b := ef.fi.boundaryIds[0];
      var adv := Advective(s, ef, BoundaryVector(s.vel, ef.fi));
      var viscous := s.mu(ef.fi) * s.norm(ef.surfaceVector) / s.norm(Sub(ef.fi.faceCentroid, RcCentroid(ef)));
      && (b in c.fullyDevelopedFlow ==> FaceCoeff(s, c, elem, ef) == Ok(Uniform(s.dim, adv)))
      && (b !in c.fullyDevelopedFlow ==> FaceCoeff(s, c, elem, ef) == Ok(Uniform(s.dim, adv + viscous)))
  {
    var b := ef.fi.boundaryIds[0];
    var fd := b in c.fullyDevelopedFlow;
    assert CategoryOf(c, b) == Some(Flow(fd));
    assert FaceCategory(c, ef.fi.boundaryIds) == Some(Flow(fd));
    FlowFaceTerms(s, c, elem, ef, fd);
  }

  /** With the fluid at rest an internal face carries only its diffusive part,
      mu |S| / |x_N - x_C|: the two-cell diffusion case. */
  lemma InternalShareDiffusionOnly(s: Setting, elem: ElemId, ef: ElemFace)
    requires !ef.fi.onBoundary && NonDegenerate(s, ef) && AtRest(s.vel)
    ensures InternalShare(s, elem, ef)
         == s.mu(ef.fi) * s.norm(ef.surfaceVector) / s.norm(Sub(ef.fi.neighborCentroid, ef.fi.elemCentroid))
  {
    var ev := ElemVector(s.vel, elem);
    assert ev == Zero;
    assert NeighborVector(s.vel, Across(ef), ef.fi, ev) == Zero;
  }

  /** One cell of a two-cell row at rest, its outer face a slip wall: with
      uniform viscosity mu, face area A and centroid distance h its
      coefficient is mu A / h in every direction below the dimension. */
  lemma TwoCellCoefficient(s: Setting, c: Classification, elem: ElemId, inner: ElemFace, outer: ElemFace,
                           mu: real, area: real, h: real)
    requires s.facesOf(elem) == [inner, outer] && ValidElem(s, elem) && AtRest(s.vel)
    requires !inner.fi.onBoundary
    requires outer.fi.onBoundary && FaceCategory(c, outer.fi.boundaryIds) == Some(SlipWall)
    requires s.mu(inner.fi) == mu && s.norm(inner.surfaceVector) == area
    requires s.norm(Sub(inner.fi.neighborCentroid, inner.fi.elemCentroid)) == h && h != 0.0
    ensures Coefficients(s, c, elem) == Ok(Uniform(s.dim, mu * area / h))
  {
    var faces := s.facesOf(elem);
    assert NonDegenerate(s, faces[0]) && NonDegenerate(s, faces[1]);
    InternalShareDiffusionOnly(s, elem, inner);
    var u := Uniform(s.dim, mu * area / h);
    assert InternalShare(s, elem, inner) == mu * area / h;
    assert FaceCoeff(s, c, elem, inner) == Ok(u);
    assert FaceCoeff(s, c, elem, outer) == Ok(Zero);
    assert faces[..1] == [inner];
    assert [inner][..0] == [];
    assert Add(Zero, u) == u;
    assert FaceSum(s, c, elem, [inner]) == Ok(u);
    assert Add(u, Zero) == u;
  }
}
