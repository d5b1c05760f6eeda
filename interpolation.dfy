/** The corrected face velocity of the momentum kernel (interpolate): the
    boundary velocity on boundary faces, the averaged velocity, and the
    Rhie-Chow correction that subtracts D_f (grad p - uncorrected grad p) with
    D = volume * coord / a taken from the cached momentum coefficients. */
module Interpolation {
  import opened Results
  import opened Geometry
  import opened Mesh
  import opened Fields
  import opened Boundaries
  import opened MomentumCoefficients

  datatype InterpMethod = Average | RhieChow

  /** What interpolate reads at the current face: the advecting velocity on
      either side, the corrected and uncorrected pressure gradients, and the
      coordinate factors of the two elements. */
  datatype FaceQuery = FaceQuery(
    fi: FaceInfo,
    velElem: Vec3,
    velNeighbor: Vec3,
    gradP: Vec3,
    uncGradP: Vec3,
    coordElem: real,
    coordNeighbor: real)

  /** Some active component of the coefficient vector is zero. */
  predicate ZeroWithin(dim: Dim, a: Vec3)
  {
    exists i :: 0 <= i < dim && a[i] == 0.0
  }

  /** D = volume / a in the active components, zero in the others. */
  function DVec(dim: Dim, volume: real, a: Vec3): (d: Vec3)
    requires !ZeroWithin(dim, a)
    ensures forall i :: dim <= i < 3 ==> d[i] == 0.0
  {
    assert a[0] != 0.0;
    [ volume / a[0],
      if dim >= 2 then volume / a[1] else 0.0,
      if dim >= 3 then volume / a[2] else 0.0 ]
  }

  /** The Rhie-Chow corrected velocity: the active components lose
      D_f(i) (grad p(i) - uncorrected grad p(i)); the others keep the average.
      Where the two gradients agree nothing changes. */
  function Corrected(dim: Dim, avg: Vec3, dFace: Vec3, gradP: Vec3, uncGradP: Vec3): (v: Vec3)
    ensures forall i :: 0 <= i < dim ==> avg[i] - v[i] == dFace[i] * (gradP[i] - uncGradP[i])
    ensures forall i :: dim <= i < 3 ==> v[i] == avg[i]
    ensures gradP == uncGradP ==> v == avg
  {
    [ avg[0] - dFace[0] * (gradP[0] - uncGradP[0]),
      if dim >= 2 then avg[1] - dFace[1] * (gradP[1] - uncGradP[1]) else avg[1],
      if dim >= 3 then avg[2] - dFace[2] * (gradP[2] - uncGradP[2]) else avg[2] ]
  }

  /** The loop computing elem_D / neighbor_D; a zero coefficient is fatal. */
  method InverseCoefficients(dim: Dim, volume: real, a: Vec3) returns (r: Result<Vec3, KernelError>)
    ensures r.Err? <==> ZeroWithin(dim, a)
    ensures r.Err? ==> r.error == ZeroCoefficient
    ensures r.Ok? ==> r.value == DVec(dim, volume, a)
  {
    var d := Zero;
    for i := 0 to dim
      invariant forall j :: 0 <= j < i ==> a[j] != 0.0 && d[j] == volume / a[j]
      invariant forall j :: i <= j < 3 ==> d[j] == 0.0
    {
      if a[i] == 0.0 {
        return Err(ZeroCoefficient);
      }
      d := d[i := volume / a[i]];
    }
    r := Ok(d);
  }

  /** The correction loop over the active components of v. */
  method ApplyCorrection(dim: Dim, avg: Vec3, dFace: Vec3, gradP: Vec3, uncGradP: Vec3) returns (v: Vec3)
    ensures v == Corrected(dim, avg, dFace, gradP, uncGradP)
  {
    v := avg;
    for i := 0 to dim
      invariant forall j :: 0 <= j < i ==> v[j] == avg[j] - dFace[j] * (gradP[j] - uncGradP[j])
      invariant forall j :: i <= j < 3 ==> v[j] == avg[j]
    {
      v := v[i := v[i] - dFace[i] * (gradP[i] - uncGradP[i])];
    }
  }

  /** The faces `interpolate(m, ...)` can be asked about: an internal face has
      a neighbor, and where the Rhie-Chow branch looks both elements'
      coefficients up, both sides are non-degenerate. */
  predicate Interpolable(s: Setting, m: InterpMethod, fi: FaceInfo)
  {
    && WellFormedFace(fi)
    && (!fi.onBoundary && m == RhieChow ==> ValidElem(s, fi.elem) && ValidElem(s, fi.neighbor.value))
  }

  /** A side's volume times the coordinate-system factor of its element. */
  function ScaledVolume(volume: real, coord: real): real
  {
    volume * coord
  }

  /** One side's D vector from that side's coefficient calculation: the
      calculation's error, a zero active coefficient, or volume / a. */
  function SideD(dim: Dim, a: Result<Vec3, KernelError>, volume: real): (r: Result<Vec3, KernelError>)
    ensures r.Err? <==> a.Err? || ZeroWithin(dim, a.value)
    ensures a.Err? ==> r == Err(a.error)
    ensures a.Ok? && ZeroWithin(dim, a.value) ==> r == Err(ZeroCoefficient)
  {
    match a
    case Err(e) => Err(e)
    case Ok(v) => if ZeroWithin(dim, v) then Err(ZeroCoefficient) else Ok(DVec(dim, volume, v))
  }

  /** A side's D inverts its coefficient in every active component, times the
      volume, and is zero past the dimension. */
  lemma SideDInverts(dim: Dim, a: Result<Vec3, KernelError>, volume: real)
    requires SideD(dim, a, volume).Ok?
    ensures forall i :: 0 <= i < dim ==> SideD(dim, a, volume).value[i] * a.value[i] == volume
    ensures forall i :: dim <= i < 3 ==> SideD(dim, a, volume).value[i] == 0.0
  {
    var d := SideD(dim, a, volume).value;
    forall i | 0 <= i < dim
      ensures d[i] * a.value[i] == volume
    {
      assert a.value[i] != 0.0;
      assert d[i] == volume / a.value[i];
    }
  }

  /** interpolate(m, v) with the coefficients looked up fresh; the element's
      side is examined before the neighbor's. */
  function FaceVelocity(s: Setting, c: Classification, m: InterpMethod, q: FaceQuery): Result<Vec3, KernelError>
    requires Interpolable(s, m, q.fi)
  {
    if q.fi.onBoundary then Ok(BoundaryVector(s.vel, q.fi))
    else
      var avg := AverageVec(q.fi, true, q.velElem, q.velNeighbor);
      if m == Average then Ok(avg)
      else
        CorrectedBy(s.dim, q, avg, SideD(s.dim, Coefficients(s, c, q.fi.elem), ScaledVolume(q.fi.elemVolume, q.coordElem)),
                    SideD(s.dim, Coefficients(s, c, q.fi.neighbor.value), ScaledVolume(q.fi.neighborVolume, q.coordNeighbor)))
  }

  /** The correction once both sides' D vectors are known: the element's
      failure first, then the neighbor's, else the average corrected by the
      face value of D. */
  function CorrectedBy(dim: Dim, q: FaceQuery, avg: Vec3, dElem: Result<Vec3, KernelError>,
                       dNeighbor: Result<Vec3, KernelError>): (r: Result<Vec3, KernelError>)
    ensures r.Err? <==> dElem.Err? || dNeighbor.Err?
    ensures dElem.Err? ==> r == Err(dElem.error)
    ensures r.Ok? ==> forall i :: dim <= i < 3 ==> r.value[i] == avg[i]
  {
    if dElem.Err? then Err(dElem.error)
    else if dNeighbor.Err? then Err(dNeighbor.error)
    else Ok(Corrected(dim, avg, AverageVec(q.fi, true, dElem.value, dNeighbor.value), q.gradP, q.uncGradP))
  }

  /** The face velocity is the boundary velocity on boundary faces, the plain
      average under `Average`, and under Rhie-Chow it fails exactly on an
      unclassified boundary face of either element or a zero active
      coefficient; it keeps the average where the two gradients agree and in
      the components past the dimension. */
  lemma FaceVelocityCases(s: Setting, c: Classification, m: InterpMethod, q: FaceQuery)
    requires Interpolable(s, m, q.fi)
    ensures q.fi.onBoundary ==> FaceVelocity(s, c, m, q) == Ok(BoundaryVector(s.vel, q.fi))
    ensures !q.fi.onBoundary && m == Average ==>
      FaceVelocity(s, c, m, q) == Ok(AverageVec(q.fi, true, q.velElem, q.velNeighbor))
    ensures !q.fi.onBoundary && m == RhieChow ==>
      (FaceVelocity(s, c, m, q).Err? <==>
         || Coefficients(s, c, q.fi.elem).Err?
         || Coefficients(s, c, q.fi.neighbor.value).Err?
         || ZeroWithin(s.dim, Coefficients(s, c, q.fi.elem).value)
         || ZeroWithin(s.dim, Coefficients(s, c, q.fi.neighbor.value).value))
    ensures !q.fi.onBoundary && FaceVelocity(s, c, m, q).Ok? ==>
      var avg := AverageVec(q.fi, true, q.velElem, q.velNeighbor);
      && (q.gradP == q.uncGradP ==> FaceVelocity(s, c, m, q).value == avg)
      && forall i :: s.dim <= i < 3 ==> FaceVelocity(s, c, m, q).value[i] == avg[i]
  {
  }
}
