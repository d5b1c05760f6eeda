/** The mesh records the kernels read: element and boundary identities, the
    FaceInfo record of a face, and the per-face view that the framework's face
    loop hands to the coefficient calculator. */
module Mesh {
  import opened Results
  import opened Geometry

  type ElemId = nat
  type BoundaryId = nat
  type SubdomainId = nat

  /** The mesh dimension, which the kernels use as the number of active
      velocity components. */
  type Dim = d: nat | 1 <= d <= 3 witness 1

  /** A face as the FaceInfo record describes it. `neighbor` is None on the
      outer boundary; `onBoundary` is the kernel's own verdict that the face is
      a boundary of its blocks (no neighbor, or a neighbor outside the blocks);
      `gc` is the geometric weight of the elem side used by linear interpolation. */
  datatype FaceInfo = FaceInfo(
    elem: ElemId,
    neighbor: Option<ElemId>,
    onBoundary: bool,
    boundaryIds: seq<BoundaryId>,
    normal: Vec3,
    faceCentroid: Vec3,
    elemCentroid: Vec3,
    neighborCentroid: Vec3,
    elemVolume: real,
    neighborVolume: real,
    gc: real)

  /** An internal face always has an element on each side. */
  predicate WellFormedFace(fi: FaceInfo)
  {
    !fi.onBoundary ==> fi.neighbor.Some?
  }

  /** The weight of the first value in the framework's `Average` interpolation:
      gc when the first value belongs to the FaceInfo's elem, 1 - gc otherwise. */
  function Weight(fi: FaceInfo, oneIsElem: bool): (w: real)
    ensures 0.0 <= fi.gc <= 1.0 ==> 0.0 <= w <= 1.0
  {
    if oneIsElem then fi.gc else 1.0 - fi.gc
  }

  function Average(fi: FaceInfo, oneIsElem: bool, a: real, b: real): real
  {
    Interp(Weight(fi, oneIsElem), a, b)
  }

  /** The face value does not depend on which side is passed first, as long
      as the flag says which one is the FaceInfo's elem. */
  lemma AverageSwap(fi: FaceInfo, oneIsElem: bool, a: real, b: real)
    ensures Average(fi, oneIsElem, a, b) == Average(fi, !oneIsElem, b, a)
  {
    var w := Weight(fi, oneIsElem);
    assert Weight(fi, !oneIsElem) == 1.0 - w;
    assert a + (1.0 - w) * (b - a) == b + w * (a - b);
  }

  /** With gc in [0, 1] the face value lies between the two cell values. */
  lemma AverageBetween(fi: FaceInfo, oneIsElem: bool, a: real, b: real)
    requires 0.0 <= fi.gc <= 1.0
    ensures a <= b ==> a <= Average(fi, oneIsElem, a, b) <= b
    ensures b <= a ==> b <= Average(fi, oneIsElem, a, b) <= a
  {
    InterpBetween(Weight(fi, oneIsElem), a, b);
  }

  function AverageVec(fi: FaceInfo, oneIsElem: bool, a: Vec3, b: Vec3): Vec3
  {
    InterpVec(Weight(fi, oneIsElem), a, b)
  }

  /** One call of the face loop's action: the face, the surface vector
      (normal times area times coordinate factor) and whether the element whose
      coefficients are being summed is the FaceInfo's elem. */
  datatype ElemFace = ElemFace(fi: FaceInfo, surfaceVector: Vec3, elemHasInfo: bool)

  /** The normal pointing out of the element being summed. */
  function OutwardNormal(ef: ElemFace): Vec3
  {
    if ef.elemHasInfo then ef.fi.normal else Neg(ef.fi.normal)
  }

  /** The centroid of the element being summed. */
  function RcCentroid(ef: ElemFace): Vec3
  {
    if ef.elemHasInfo then ef.fi.elemCentroid else ef.fi.neighborCentroid
  }

  /** The element across the face from the one being summed. */
  function Across(ef: ElemFace): Option<ElemId>
  {
    if ef.elemHasInfo then ef.fi.neighbor else Some(ef.fi.elem)
  }
}
