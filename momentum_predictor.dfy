/** The Rhie-Chow momentum predictor kernel: its construction, the boundary
    category sets it builds at initial setup, the boundary skip rule, the
    coefficient calculation and its per-thread memo table, the corrected face
    velocity and the face residual. */
module MomentumPredictor {
  import opened Results
  import opened Geometry
  import opened Mesh
  import opened Fields
  import opened Boundaries
  import opened MomentumCoefficients
  import opened Interpolation
  import opened CoeffCache
  import opened Configuration

  /** The face values the residual reads besides the velocity: the advected
      quantity and the viscosity on both sides, and the face-normal gradient
      of the transported quantity. */
  datatype ResidualInputs = ResidualInputs(
    advElem: real,
    advNeighbor: real,
    muElem: real,
    muNeighbor: real,
    dudn: real)

  /** Convection n . v phi_f minus diffusion mu_f du/dn at face velocity v; no
      pressure and no time term. */
  function ResidualAt(s: Setting, fi: FaceInfo, v: Vec3, x: ResidualInputs): real
  {
    Convection(s, fi, v, x) - DiffusiveFlux(fi, x)
  }

  /** The normal velocity n . v times the advected quantity's face value. */
  function Convection(s: Setting, fi: FaceInfo, v: Vec3, x: ResidualInputs): real
  {
    Dot(fi.normal, v) * s.advected(fi, x.advElem, x.advNeighbor, v)
  }

  /** The averaged face viscosity times the face-normal gradient. */
  function DiffusiveFlux(fi: FaceInfo, x: ResidualInputs): real
  {
    Mesh.Average(fi, true, x.muElem, x.muNeighbor) * x.dudn
  }

  /** The face residual: it fails exactly when the face velocity does. */
  function FaceResidual(s: Setting, c: Classification, m: InterpMethod, q: FaceQuery, x: ResidualInputs)
    : (r: Result<real, KernelError>)
    requires Interpolable(s, m, q.fi)
    ensures r.Err? <==> FaceVelocity(s, c, m, q).Err?
  {
    match FaceVelocity(s, c, m, q)
    case Err(e) => Err(e)
    case Ok(v) => Ok(ResidualAt(s, q.fi, v, x))
  }

  class Predictor {
    const setting: Setting
    const interpMethod: InterpMethod
    /** The process-wide coefficient table, shared by every kernel object. */
    const table: RcCoeffTable
    const app: AppId
    const tid: nat

    var flowBoundaries: set<BoundaryId>
    var fullyDevelopedFlowBoundaries: set<BoundaryId>
    var noSlipWallBoundaries: set<BoundaryId>
    var slipWallBoundaries: set<BoundaryId>
    var symmetryBoundaries: set<BoundaryId>
    var allBoundaries: set<BoundaryId>

    constructor (setting: Setting, interpMethod: InterpMethod, table: RcCoeffTable, app: AppId, tid: nat)
      ensures this.setting == setting && this.interpMethod == interpMethod
      ensures this.table == table && this.app == app && this.tid == tid
      ensures Classes() == Unclassified
    {
      this.setting := setting;
      this.interpMethod := interpMethod;
      this.table := table;
      this.app := app;
      this.tid := tid;
      flowBoundaries, fullyDevelopedFlowBoundaries := {}, {};
      noSlipWallBoundaries, slipWallBoundaries, symmetryBoundaries := {}, {}, {};
      allBoundaries := {};
    }

    /** The category sets as one value. */
    function Classes(): Classification
      reads this
    {
      Classification(flowBoundaries, fullyDevelopedFlowBoundaries, noSlipWallBoundaries,
                     slipWallBoundaries, symmetryBoundaries, allBoundaries)
    }

    /** initialSetup: collects the boundaries connected to the kernel's blocks
        (all mesh subdomains when it is not block restricted), then classifies
        each of them. It only inserts, so it keeps the setup invariant and
        running it again changes nothing (Boundaries.SetupIdempotent). */
    method InitialSetup(blockRestricted: bool, blockIds: set<SubdomainId>, meshSubdomains: set<SubdomainId>,
                        boundariesOf: SubdomainId -> set<BoundaryId>, reg: Registry)
      modifies this
      ensures Classes() == Join(old(Classes()),
        Classify(Connected(if blockRestricted then blockIds else meshSubdomains, boundariesOf), reg))
      ensures WellFormed(old(Classes())) ==> WellFormed(Classes())
    {
      var connected := ConnectedBoundaries(if blockRestricted then blockIds else meshSubdomains, boundariesOf);
      ClassifyAll(connected, reg);
      if WellFormed(old(Classes())) {
        JoinWellFormed(old(Classes()), Classify(connected, reg));
      }
    }

    /** initialSetup's second loop: every connected boundary is classified in
        turn, in whatever order the set yields them. */
    method ClassifyAll(connected: set<BoundaryId>, reg: Registry)
      modifies this
      ensures Classes() == Join(old(Classes()), Classify(connected, reg))
    {
      var rest, done := connected, {};
      JoinNothing(Classes(), reg);
      while rest != {}
        invariant rest + done == connected
        invariant Classes() == Join(old(Classes()), Classify(done, reg))
        decreases |rest|
      {
        var b :| b in rest;
        ClassifyNext(b, reg, old(Classes()), done);
        rest, done := rest - {b}, done + {b};
      }
      assert done == connected;
    }

    /** One iteration of that loop: classifying b extends the classification
        of the boundaries already done by b. */
    method ClassifyNext(b: BoundaryId, reg: Registry, ghost start: Classification, ghost done: set<BoundaryId>)
      requires Classes() == Join(start, Classify(done, reg))
      modifies this
      ensures Classes() == Join(start, Classify(done + {b}, reg))
    {
      SetupAll(b, reg);
      ClassifyStep(start, done, b, reg);
    }

    /** The body of initialSetup's second loop for boundary b. */
    method SetupAll(b: BoundaryId, reg: Registry)
      modifies this
      ensures Classes() == Join(old(Classes()), ClassifyOne(reg, b))
    {
      ghost var before := Classes();
      SetupFlowBoundaries(b, reg);
      SetupBoundaries(b, NoSlipWallSet, reg);
      SetupBoundaries(b, SlipWallSet, reg);
      SetupBoundaries(b, SymmetrySet, reg);
      JoinParts(before, reg, b);
    }

    /** setupFlowBoundaries(b): a boundary with a flow condition becomes a
        flow boundary, and a fully developed one when its first flow condition
        is. */
    method SetupFlowBoundaries(b: BoundaryId, reg: Registry)
      modifies this
      ensures Classes() == Join(old(Classes()), FlowPart(reg, b))
    {
      var flowBcs := Query(reg, b, FlowKind);
      OfKindSelects(BcsOn(reg, b), FlowKind);
      if flowBcs != [] {
        if flowBcs[0].fullyDeveloped {
          fullyDevelopedFlowBoundaries := fullyDevelopedFlowBoundaries + {b};
        }
        flowBoundaries := flowBoundaries + {b};
        allBoundaries := allBoundaries + {b};
      }
    }

    /** setupBoundaries(b, kind, set): a boundary with a condition of the set's
        kind joins that set and the set of all classified boundaries. */
    method SetupBoundaries(b: BoundaryId, w: WallSet, reg: Registry)
      modifies this
      ensures Classes() == Join(old(Classes()), WallPart(reg, b, w))
    {
      var bcs := Query(reg, b, w.Kind());
      if bcs != [] {
        match w {
          case NoSlipWallSet => noSlipWallBoundaries := noSlipWallBoundaries + {b};
          case SlipWallSet => slipWallBoundaries := slipWallBoundaries + {b};
          case SymmetrySet => symmetryBoundaries := symmetryBoundaries + {b};
        }
        allBoundaries := allBoundaries + {b};
      }
    }

    /** skipForBoundary: internal faces are never skipped; a boundary face is
        skipped when a flux condition replaces the kernel there, kept on a
        flow boundary, and otherwise skipped exactly when it has no Dirichlet
        condition. */
    function SkipForBoundary(fi: FaceInfo, hasFluxBc: bool, hasDirichletBc: bool): (r: bool)
      reads this
      ensures r <==> fi.onBoundary
                     && (hasFluxBc
                         || ((forall i :: 0 <= i < |fi.boundaryIds| ==> fi.boundaryIds[i] !in flowBoundaries)
                             && !hasDirichletBc))
      ensures fi.onBoundary && !hasFluxBc && (exists i :: 0 <= i < |fi.boundaryIds| && fi.boundaryIds[i] in flowBoundaries)
              ==> !r
    {
      if !fi.onBoundary then false
      else if hasFluxBc then true
      else if AnyIn(fi.boundaryIds, flowBoundaries) then false
      else !hasDirichletBc
    }

    /** coeffCalculator(elem): the face loop accumulating each face's share. */
    method CoeffCalculator(elem: ElemId) returns (r: Result<Vec3, KernelError>)
      requires ValidElem(setting, elem)
      ensures r == Coefficients(setting, Classes(), elem)
    {
      var faces := setting.facesOf(elem);
      var coeff := Zero;
      var k := 0;
      while k < |faces|
        invariant 0 <= k <= |faces|
        invariant FaceSum(setting, Classes(), elem, faces[..k]) == Ok(coeff)
      {
        assert faces[..k + 1][..k] == faces[..k];
        var d := FaceCoeff(setting, Classes(), elem, faces[k]);
        if d.Err? {
          FaceSumErrExtends(setting, Classes(), elem, faces, k + 1);
          return Err(d.error);
        }
        coeff := Add(coeff, d.value);
        k := k + 1;
      }
      assert faces[..k] == faces;
      r := Ok(coeff);
    }

    /** Every entry of this kernel's bucket is the coefficient the calculator
        gives for the current category sets. */
    ghost predicate Memoized()
      reads this, table
    {
      && table.Ready(app, tid)
      && forall e :: e in table.BucketOf(app, tid) ==>
           ValidElem(setting, e) && Coefficients(setting, Classes(), e) == Ok(table.BucketOf(app, tid)[e])
    }

    /** rcCoeff(elem): a hit returns the stored vector and changes nothing; a
        miss computes the coefficient once and, when it succeeds, adds exactly
        that entry to this kernel's bucket. */
    method RcCoeff(elem: ElemId) returns (r: Result<Vec3, KernelError>)
      requires table.Ready(app, tid) && ValidElem(setting, elem)
      modifies table
      ensures table.Ready(app, tid)
      ensures old(elem in table.BucketOf(app, tid)) ==>
        && r == Ok(old(table.BucketOf(app, tid)[elem]))
        && table.buckets == old(table.buckets)
        && table.computations == old(table.computations)
      ensures old(elem !in table.BucketOf(app, tid)) ==>
        && r == Coefficients(setting, Classes(), elem)
        && table.computations == old(table.computations) + 1
        && table.buckets == old(table.buckets)[app := old(table.buckets[app])[tid :=
             if r.Ok? then old(table.BucketOf(app, tid))[elem := r.value] else old(table.BucketOf(app, tid))]]
        && (r.Ok? ==> |table.BucketOf(app, tid)| == old(|table.BucketOf(app, tid)|) + 1)
      ensures old(Memoized()) ==> Memoized() && r == Coefficients(setting, Classes(), elem)
      ensures Grown(old(table.buckets), table.buckets, app, tid, {elem})
    {
      var bucket: Bucket := table.buckets[app][tid];
      if elem in bucket {
        GrownRefl(table.buckets, app, tid);
        return Ok(bucket[elem]);
      }
      r := CoeffCalculator(elem);
      table.computations := table.computations + 1;
      if r.Ok? {
        table.buckets := table.buckets[app := table.buckets[app][tid := bucket[elem := r.value]]];
      } else {
        assert table.buckets[app][tid := bucket] == table.buckets[app];
        assert table.buckets[app := table.buckets[app]] == table.buckets;
      }
    }

    /** clearRCCoeffs: empties this kernel's bucket and no other. */
    method ClearRCCoeffs()
      requires table.Ready(app, tid)
      modifies table
      ensures table.buckets == old(table.buckets)[app := old(table.buckets[app])[tid := map[]]]
      ensures table.computations == old(table.computations)
      ensures forall a, t :: old(table.Ready(a, t)) && (a != app || t != tid) ==>
        table.Ready(a, t) && table.BucketOf(a, t) == old(table.BucketOf(a, t))
      ensures Memoized()
    {
      table.buckets := table.buckets[app := table.buckets[app][tid := map[]]];
    }

    /** One side of interpolate's D computation: the memoized coefficient,
        then volume / a(i) for every active component. */
    method SideCoefficients(e: ElemId, volume: real, ghost c: Classification) returns (r: Result<Vec3, KernelError>)
      requires table.Ready(app, tid) && ValidElem(setting, e) && c == Classes()
      modifies table
      ensures table.Ready(app, tid) && c == Classes()
      ensures table.computations <= old(table.computations) + 1
      ensures old(Memoized()) ==> Memoized() && r == SideD(setting.dim, Coefficients(setting, c, e), volume)
      ensures Grown(old(table.buckets), table.buckets, app, tid, {e})
    {
      var a := RcCoeff(e);
      if a.Err? {
        return Err(a.error);
      }
      r := InverseCoefficients(setting.dim, volume, a.value);
    }

    /** interpolate(m, v): the boundary velocity on boundary faces, the average
        under `Average`, and the Rhie-Chow corrected average otherwise, the
        coefficients coming from the memo table. Only the Rhie-Chow path
        touches the table, and it computes at most two coefficients. */
    method Interpolate(m: InterpMethod, q: FaceQuery) returns (r: Result<Vec3, KernelError>)
      requires Interpolable(setting, m, q.fi)
      requires !q.fi.onBoundary && m == RhieChow ==> table.Ready(app, tid)
      modifies table
      ensures old(table.Ready(app, tid)) ==> table.Ready(app, tid)
      ensures q.fi.onBoundary || m == Average ==> unchanged(table) && r == FaceVelocity(setting, Classes(), m, q)
      ensures table.computations <= old(table.computations) + 2
      ensures old(Memoized()) ==> Memoized() && r == FaceVelocity(setting, Classes(), m, q)
      ensures !q.fi.onBoundary && m == RhieChow ==>
        Grown(old(table.buckets), table.buckets, app, tid, {q.fi.elem, q.fi.neighbor.value})
    {
      if q.fi.onBoundary {
        return Ok(BoundaryVector(setting.vel, q.fi));
      }
      var avg := AverageVec(q.fi, true, q.velElem, q.velNeighbor);
      if m == Average {
        return Ok(avg);
      }
      r := RhieChowInterpolate(q, avg, Classes());
    }

    /** interpolate's Rhie-Chow branch: the element's D, then the neighbor's,
        their face average, and the correction loop. */
    method RhieChowInterpolate(q: FaceQuery, avg: Vec3, ghost c: Classification) returns (r: Result<Vec3, KernelError>)
      requires Interpolable(setting, RhieChow, q.fi) && !q.fi.onBoundary && table.Ready(app, tid) && c == Classes()
      modifies table
      ensures table.Ready(app, tid)
      ensures table.computations <= old(table.computations) + 2
      ensures old(Memoized()) ==> Memoized() && r == CorrectedBy(setting.dim, q, avg,
        SideD(setting.dim, Coefficients(setting, c, q.fi.elem), ScaledVolume(q.fi.elemVolume, q.coordElem)),
        SideD(setting.dim, Coefficients(setting, c, q.fi.neighbor.value), ScaledVolume(q.fi.neighborVolume, q.coordNeighbor)))
      ensures Grown(old(table.buckets), table.buckets, app, tid, {q.fi.elem, q.fi.neighbor.value})
    {
      var dElem := SideCoefficients(q.fi.elem, ScaledVolume(q.fi.elemVolume, q.coordElem), c);
      if dElem.Err? {
        r := Err(dElem.error);
        GrownWiden(old(table.buckets), table.buckets, app, tid, {q.fi.elem}, {q.fi.elem, q.fi.neighbor.value});
      } else {
        ghost var mid := table.buckets;
        r := CorrectWithNeighbor(q, avg, c, dElem.value);
        GrownTrans(old(table.buckets), mid, table.buckets, app, tid, {q.fi.elem}, {q.fi.neighbor.value});
        assert {q.fi.elem} + {q.fi.neighbor.value} == {q.fi.elem, q.fi.neighbor.value};
      }
    }

    /** The rest of the Rhie-Chow branch once the element's D is known: the
        neighbor's D, their face average, and the correction loop. */
    method CorrectWithNeighbor(q: FaceQuery, avg: Vec3, ghost c: Classification, dElem: Vec3)
      returns (r: Result<Vec3, KernelError>)
      requires Interpolable(setting, RhieChow, q.fi) && !q.fi.onBoundary && table.Ready(app, tid) && c == Classes()
      modifies table
      ensures table.Ready(app, tid)
      ensures table.computations <= old(table.computations) + 1
      ensures old(Memoized()) ==> Memoized() && r == CorrectedBy(setting.dim, q, avg, Ok(dElem),
        SideD(setting.dim, Coefficients(setting, c, q.fi.neighbor.value), ScaledVolume(q.fi.neighborVolume, q.coordNeighbor)))
      ensures Grown(old(table.buckets), table.buckets, app, tid, {q.fi.neighbor.value})
    {
      var dNeighbor := SideCoefficients(q.fi.neighbor.value, ScaledVolume(q.fi.neighborVolume, q.coordNeighbor), c);
      if dNeighbor.Err? {
        return Err(dNeighbor.error);
      }
      var dFace := AverageVec(q.fi, true, dElem, dNeighbor.value);
      var v := ApplyCorrection(setting.dim, avg, dFace, q.gradP, q.uncGradP);
      r := Ok(v);
    }

    /** computeQpResidual: the face residual at the interpolated velocity. */
    method ComputeQpResidual(q: FaceQuery, x: ResidualInputs) returns (r: Result<real, KernelError>)
      requires Interpolable(setting, interpMethod, q.fi)
      requires !q.fi.onBoundary && interpMethod == RhieChow ==> table.Ready(app, tid)
      modifies table
      ensures old(table.Ready(app, tid)) ==> table.Ready(app, tid)
      ensures q.fi.onBoundary || interpMethod == Average ==>
        unchanged(table) && r == FaceResidual(setting, Classes(), interpMethod, q, x)
      ensures table.computations <= old(table.computations) + 2
      ensures !q.fi.onBoundary && interpMethod == RhieChow ==>
        Grown(old(table.buckets), table.buckets, app, tid, {q.fi.elem, q.fi.neighbor.value})
      ensures old(Memoized()) ==> Memoized() && r == FaceResidual(setting, Classes(), interpMethod, q, x)
    {
      FaceResidualByVelocity(setting, Classes(), interpMethod, q, x);
      var v := Interpolate(interpMethod, q);
      if v.Err? {
        r := Err(v.error);
      } else {
        var convection := Convection(setting, q.fi, v.value, x);
        var diffusion := DiffusiveFlux(q.fi, x);
        r := Ok(convection - diffusion);
      }
    }
  }

  /** initialSetup's first loop: the union of the boundaries of the given
      subdomains. */
  method ConnectedBoundaries(blocks: set<SubdomainId>, boundariesOf: SubdomainId -> set<BoundaryId>)
    returns (connected: set<BoundaryId>)
    ensures connected == Connected(blocks, boundariesOf)
  {
    connected := {};
    var todo, seen := blocks, {};
    ConnectedEmpty(boundariesOf);
    while todo != {}
      invariant todo + seen == blocks
      invariant connected == Connected(seen, boundariesOf)
      decreases |todo|
    {
      var blk :| blk in todo;
      ConnectedInsert(seen, blk, boundariesOf);
      connected := connected + boundariesOf(blk);
      todo, seen := todo - {blk}, seen + {blk};
    }
  }

  /** The four insertions of one classification step, regrouped. */
  lemma JoinParts(before: Classification, reg: Registry, b: BoundaryId)
    ensures Join(Join(Join(Join(before, FlowPart(reg, b)), WallPart(reg, b, NoSlipWallSet)),
                      WallPart(reg, b, SlipWallSet)), WallPart(reg, b, SymmetrySet))
         == Join(before, ClassifyOne(reg, b))
  {
    var f, n, sl, sy := FlowPart(reg, b), WallPart(reg, b, NoSlipWallSet), WallPart(reg, b, SlipWallSet),
                        WallPart(reg, b, SymmetrySet);
    JoinAssociative(before, f, n);
    JoinAssociative(before, Join(f, n), sl);
    JoinAssociative(before, Join(Join(f, n), sl), sy);
  }

  /** The residual sees the face velocity only through its value. */
  lemma FaceResidualByVelocity(s: Setting, c: Classification, m: InterpMethod, q: FaceQuery, x: ResidualInputs)
    requires Interpolable(s, m, q.fi)
    ensures FaceVelocity(s, c, m, q).Err? ==> FaceResidual(s, c, m, q, x) == Err(FaceVelocity(s, c, m, q).error)
    ensures FaceVelocity(s, c, m, q).Ok? ==>
      FaceResidual(s, c, m, q, x) == Ok(ResidualAt(s, q.fi, FaceVelocity(s, c, m, q).value, x))
  {
  }

  /** The kernel's constructor: the variable and method checks, then the
      thread-0 object registers this application's buckets, then the forcing
      parameters are refused. A refusal at that last step comes after the
      registration, which stays. */
  method Create(p: Params, base: Setting, table: RcCoeffTable, app: AppId, tid: nat, nThreads: nat)
    returns (r: Result<Predictor, ConfigError>)
    modifies table
    ensures CheckVariables(p, base.dim).Err? ==>
      r == Err(CheckVariables(p, base.dim).error) && unchanged(table)
    ensures CheckVariables(p, base.dim).Ok? ==>
      && table.buckets == (if tid == 0 then old(table.buckets)[app := Resized(old(table.Entry(app)), nThreads)]
                           else old(table.buckets))
      && table.computations == old(table.computations)
    ensures CheckVariables(p, base.dim).Ok? && CheckForcing(p).Some? ==> r == Err(CheckForcing(p).value)
    ensures r.Ok? <==> CheckVariables(p, base.dim).Ok? && CheckForcing(p).None?
    ensures r.Ok? ==>
      && fresh(r.value)
      && r.value.setting == base.(vel := CheckVariables(p, base.dim).value.vel)
      && r.value.interpMethod == CheckVariables(p, base.dim).value.interpMethod
      && r.value.table == table && r.value.app == app && r.value.tid == tid
      && r.value.Classes() == Unclassified
  {
    var checked := CheckVariables(p, base.dim);
    if checked.Err? {
      return Err(checked.error);
    }
    if tid == 0 {
      table.Register(app, nThreads);
    }
    var refused := CheckForcing(p);
    if refused.Some? {
      return Err(refused.value);
    }
    var k := new Predictor(base.(vel := checked.value.vel), checked.value.interpMethod, table, app, tid);
    r := Ok(k);
  }

  /** Memoization: looking the same element up twice gives the same answer,
      and a successful first lookup leaves nothing to compute for the second. */
  method RepeatedLookup(k: Predictor, elem: ElemId) returns (first: Result<Vec3, KernelError>, second: Result<Vec3, KernelError>)
    requires k.table.Ready(k.app, k.tid) && ValidElem(k.setting, elem)
    modifies k.table
    ensures first == second
    ensures first.Ok? ==> k.table.computations <= old(k.table.computations) + 1
  {
    first := k.RcCoeff(elem);
    second := k.RcCoeff(elem);
  }

  /** Invalidation: after a clear the lookup computes afresh, whatever the
      bucket held before. */
  method LookupAfterClear(k: Predictor, elem: ElemId) returns (r: Result<Vec3, KernelError>)
    requires k.table.Ready(k.app, k.tid) && ValidElem(k.setting, elem)
    modifies k.table
    ensures r == Coefficients(k.setting, k.Classes(), elem)
    ensures k.table.computations == old(k.table.computations) + 1
    ensures k.Memoized()
  {
    k.ClearRCCoeffs();
    r := k.RcCoeff(elem);
  }

  /** Thread isolation: evaluating a residual never touches another thread's
      or another application's bucket, and keeps every entry this kernel had. */
  method ResidualKeepsOtherBuckets(k: Predictor, q: FaceQuery, x: ResidualInputs, a: AppId, t: nat, e: ElemId)
      returns (r: Result<real, KernelError>)
    requires Interpolable(k.setting, k.interpMethod, q.fi) && k.table.Ready(k.app, k.tid)
    requires k.table.Ready(a, t) && (a != k.app || t != k.tid)
    modifies k.table
    ensures k.table.Ready(a, t) && k.table.BucketOf(a, t) == old(k.table.BucketOf(a, t))
    ensures k.table.Ready(k.app, k.tid)
    ensures e in old(k.table.BucketOf(k.app, k.tid)) ==>
      e in k.table.BucketOf(k.app, k.tid) && k.table.BucketOf(k.app, k.tid)[e] == old(k.table.BucketOf(k.app, k.tid)[e])
  {
    ghost var before := k.table.buckets;
    r := k.ComputeQpResidual(q, x);
    if q.fi.onBoundary || k.interpMethod == Average {
      GrownRefl(before, k.app, k.tid);
    } else {
      GrownLeavesOthers(before, k.table.buckets, k.app, k.tid, {q.fi.elem, q.fi.neighbor.value}, a, t);
    }
  }

  /** A face the velocity does not cross carries only the diffusive part. */
  lemma NoNormalFlowIsPureDiffusion(s: Setting, c: Classification, m: InterpMethod, q: FaceQuery, x: ResidualInputs)
    requires Interpolable(s, m, q.fi)
    requires FaceVelocity(s, c, m, q).Ok? && Dot(q.fi.normal, FaceVelocity(s, c, m, q).value) == 0.0
    ensures FaceResidual(s, c, m, q, x) == Ok(-DiffusiveFlux(q.fi, x))
  {
    FaceResidualByVelocity(s, c, m, q, x);
    assert Convection(s, q.fi, FaceVelocity(s, c, m, q).value, x) == 0.0;
  }

  /** With the same viscosity on both sides, the diffusive part uses it
      unchanged. */
  lemma UniformViscosity(s: Setting, c: Classification, m: InterpMethod, q: FaceQuery, x: ResidualInputs)
    requires Interpolable(s, m, q.fi) && x.muElem == x.muNeighbor
    requires FaceVelocity(s, c, m, q).Ok?
    ensures FaceResidual(s, c, m, q, x).Ok?
    ensures var v := FaceVelocity(s, c, m, q).value;
      FaceResidual(s, c, m, q, x).value == Dot(q.fi.normal, v) * s.advected(q.fi, x.advElem, x.advNeighbor, v) - x.muElem * x.dudn
  {
    var v := FaceVelocity(s, c, m, q).value;
    FaceResidualByVelocity(s, c, m, q, x);
    assert Mesh.Average(q.fi, true, x.muElem, x.muNeighbor) == x.muElem;
    assert FaceResidual(s, c, m, q, x).value == Convection(s, q.fi, v, x) - DiffusiveFlux(q.fi, x);
  }

  /** Where the corrected and uncorrected pressure gradients agree, the
      Rhie-Chow residual is the averaged-velocity residual. */
  lemma AgreeingGradientsGiveAverageResidual(s: Setting, c: Classification, q: FaceQuery, x: ResidualInputs)
    requires Interpolable(s, RhieChow, q.fi) && q.gradP == q.uncGradP
    requires FaceResidual(s, c, RhieChow, q, x).Ok?
    ensures FaceResidual(s, c, RhieChow, q, x) == FaceResidual(s, c, Average, q, x)
  {
    FaceVelocityCases(s, c, RhieChow, q);
  }

  /** Under the average method the residual has no pressure dependence. */
  lemma AverageResidualIgnoresPressure(s: Setting, c: Classification, q: FaceQuery, x: ResidualInputs, gradP: Vec3, uncGradP: Vec3)
    requires Interpolable(s, Average, q.fi)
    ensures FaceResidual(s, c, Average, q, x) == FaceResidual(s, c, Average, q.(gradP := gradP, uncGradP := uncGradP), x)
  {
  }

  /** On a boundary face the residual is taken at the boundary velocity,
      whatever the method and the cell velocities. */
  lemma BoundaryResidual(s: Setting, c: Classification, m: InterpMethod, q: FaceQuery, x: ResidualInputs)
    requires Interpolable(s, m, q.fi) && q.fi.onBoundary
    ensures FaceResidual(s, c, m, q, x) == Ok(ResidualAt(s, q.fi, BoundaryVector(s.vel, q.fi), x))
  {
  }
}
