/** Finite-volume field variables as the kernels read them: one value per
    element, a value on boundary faces, and the variable's own rule for the
    value on the far side of a face that has no neighbor. */
module Fields {
  import opened Results
  import opened Geometry
  import opened Mesh

  datatype Field = Field(
    elemValue: ElemId -> real,
    boundaryFaceValue: FaceInfo -> real,
    extrapolate: (FaceInfo, real) -> real)

  /** getNeighborValue(neighbor, fi, fallback): the neighbor's own value when
      there is a neighbor, else the variable's extrapolation from `fallback`. */
  function NeighborValue(f: Field, nb: Option<ElemId>, fi: FaceInfo, fallback: real): real
  {
    match nb
    case Some(n) => f.elemValue(n)
    case None => f.extrapolate(fi, fallback)
  }

  /** The one-term extrapolation: the far side repeats the value it is given. */
  ghost predicate OneTermExtrapolation(f: Field)
  {
    forall fi, x :: f.extrapolate(fi, x) == x
  }

  /** Three scalar variables read as the components of one vector: the
      velocity (u, v, w) of the momentum kernel, or the Ainv and Hu fields of
      the pressure kernel. The y and z variables are present only when
      coupled; an absent component reads as zero. */
  datatype Components = Components(x: Field, y: Option<Field>, z: Option<Field>)

  type Velocity = Components

  /** The vector built from the element values, starting from (x, 0, 0). */
  function ElemVector(c: Components, e: ElemId): (r: Vec3)
    ensures c.y.None? ==> r[1] == 0.0
    ensures c.z.None? ==> r[2] == 0.0
  {
    [ c.x.elemValue(e),
      if c.y.Some? then c.y.value.elemValue(e) else 0.0,
      if c.z.Some? then c.z.value.elemValue(e) else 0.0 ]
  }

  /** The neighbor vector, each component falling back on the element's own. */
  function NeighborVector(c: Components, nb: Option<ElemId>, fi: FaceInfo, ev: Vec3): (r: Vec3)
    ensures c.y.None? ==> r[1] == 0.0
    ensures c.z.None? ==> r[2] == 0.0
  {
    [ NeighborValue(c.x, nb, fi, ev[0]),
      if c.y.Some? then NeighborValue(c.y.value, nb, fi, ev[1]) else 0.0,
      if c.z.Some? then NeighborValue(c.z.value, nb, fi, ev[2]) else 0.0 ]
  }

  /** The vector of boundary-face values. */
  function BoundaryVector(c: Components, fi: FaceInfo): (r: Vec3)
    ensures c.y.None? ==> r[1] == 0.0
    ensures c.z.None? ==> r[2] == 0.0
  {
    [ c.x.boundaryFaceValue(fi),
      if c.y.Some? then c.y.value.boundaryFaceValue(fi) else 0.0,
      if c.z.Some? then c.z.value.boundaryFaceValue(fi) else 0.0 ]
  }
}
