/** The pressure predictor's face residual: the inverse momentum coefficients
    Ainv and the momentum sources Hu, each averaged to the face, give
    (Ainv_f * grad p) . n + Hu_f . n, the product taken component by component. */
module PressurePredictor {
  import opened Results
  import opened Geometry
  import opened Mesh
  import opened Fields

  /** The kernel's coupled variables. The y and z variables are read only
      when the mesh dimension reaches them; otherwise they stay absent. */
  datatype Kernel = Kernel(ainv: Components, hu: Components)

  /** Construction: the y variables exist from two dimensions on and the z
      variables in three; below that they are absent whatever was supplied. */
  function Create(dim: Dim, ainvX: Field, ainvY: Option<Field>, ainvZ: Option<Field>,
                  huX: Field, huY: Option<Field>, huZ: Option<Field>): (k: Kernel)
    ensures k.ainv.x == ainvX && k.hu.x == huX
    ensures dim < 2 ==> k.ainv.y.None? && k.hu.y.None?
    ensures dim < 3 ==> k.ainv.z.None? && k.hu.z.None?
    ensures dim >= 2 ==> k.ainv.y == ainvY && k.hu.y == huY
    ensures dim >= 3 ==> k.ainv.z == ainvZ && k.hu.z == huZ
  {
    var y := (f: Option<Field>) => if dim >= 2 then f else None;
    var z := (f: Option<Field>) => if dim >= 3 then f else None;
    Kernel(Components(ainvX, y(ainvY), z(ainvZ)), Components(huX, y(huY), z(huZ)))
  }

  /** A component vector averaged to the face: the element's values, the
      neighbor's values (each falling back on the element's own), and the
      `Average` interpolation with the element as the first side. */
  function FaceValue(c: Components, fi: FaceInfo): Vec3
  {
    var ev := ElemVector(c, fi.elem);
    AverageVec(fi, true, ev, NeighborVector(c, fi.neighbor, fi, ev))
  }

  /** Whether component i of the vector is backed by a variable. */
  predicate Present(c: Components, i: nat)
  {
    i == 0 || (i == 1 && c.y.Some?) || (i == 2 && c.z.Some?)
  }

  /** Ainv_gradp: each present component of the face Ainv times the same
      component of the pressure gradient; absent components stay zero. */
  function AinvGradP(ainv: Components, fi: FaceInfo, gradP: Vec3): Vec3
  {
    var a := FaceValue(ainv, fi);
    [ a[0] * gradP[0],
      if ainv.y.Some? then a[1] * gradP[1] else 0.0,
      if ainv.z.Some? then a[2] * gradP[2] else 0.0 ]
  }

  /** computeQpResidual at one face, gradP being the face pressure gradient. */
  function Residual(k: Kernel, fi: FaceInfo, gradP: Vec3): real
  {
    Dot(AinvGradP(k.ainv, fi, gradP), fi.normal) + Dot(FaceValue(k.hu, fi), fi.normal)
  }

  /** The componentwise (Hadamard) product. */
  function Hadamard(a: Vec3, b: Vec3): Vec3
  {
    [a[0] * b[0], a[1] * b[1], a[2] * b[2]]
  }

  /** An absent component is zero on both sides and so on the face. */
  lemma AbsentComponentsZero(c: Components, fi: FaceInfo)
    ensures c.y.None? ==> FaceValue(c, fi)[1] == 0.0
    ensures c.z.None? ==> FaceValue(c, fi)[2] == 0.0
  {
    var ev := ElemVector(c, fi.elem);
    var nv := NeighborVector(c, fi.neighbor, fi, ev);
    assert c.y.None? ==> ev[1] == 0.0 && nv[1] == 0.0;
    assert c.z.None? ==> ev[2] == 0.0 && nv[2] == 0.0;
  }

  /** Below two (three) dimensions the y (z) parts of the face Ainv, of
      Ainv_gradp and of the face Hu are all zero. */
  lemma ZeroFillBelowDimension(dim: Dim, ainvX: Field, ainvY: Option<Field>, ainvZ: Option<Field>,
                               huX: Field, huY: Option<Field>, huZ: Option<Field>, fi: FaceInfo, gradP: Vec3)
    ensures var k := Create(dim, ainvX, ainvY, ainvZ, huX, huY, huZ);
      && (dim < 2 ==> FaceValue(k.ainv, fi)[1] == 0.0 && AinvGradP(k.ainv, fi, gradP)[1] == 0.0
                      && FaceValue(k.hu, fi)[1] == 0.0)
      && (dim < 3 ==> FaceValue(k.ainv, fi)[2] == 0.0 && AinvGradP(k.ainv, fi, gradP)[2] == 0.0
                      && FaceValue(k.hu, fi)[2] == 0.0)
  {
    var k := Create(dim, ainvX, ainvY, ainvZ, huX, huY, huZ);
    AbsentComponentsZero(k.ainv, fi);
    AbsentComponentsZero(k.hu, fi);
  }

  /** The residual is (Ainv_f (.) grad p) . n + Hu_f . n: masking the absent
      components changes nothing, since their face Ainv is already zero. */
  lemma ResidualIsHadamard(k: Kernel, fi: FaceInfo, gradP: Vec3)
    ensures Residual(k, fi, gradP)
         == Dot(Hadamard(FaceValue(k.ainv, fi), gradP), fi.normal) + Dot(FaceValue(k.hu, fi), fi.normal)
  {
    var a := FaceValue(k.ainv, fi);
    AbsentComponentsZero(k.ainv, fi);
    assert k.ainv.y.None? ==> a[1] * gradP[1] == 0.0;
    assert k.ainv.z.None? ==> a[2] * gradP[2] == 0.0;
    var p := AinvGradP(k.ainv, fi, gradP);
    assert p[0] == a[0] * gradP[0] && p[1] == a[1] * gradP[1] && p[2] == a[2] * gradP[2];
    var h := Hadamard(a, gradP);
    assert h[0] == a[0] * gradP[0] && h[1] == a[1] * gradP[1] && h[2] == a[2] * gradP[2];
    assert p == h;
  }

  /** No cross terms: component i of Ainv_gradp reads only component i of the
      gradient, so changing any other gradient component leaves it alone. */
  lemma NoCrossTerms(k: Kernel, fi: FaceInfo, gradP: Vec3, i: nat, j: nat, g: real)
    requires i < 3 && j < 3 && i != j
    ensures AinvGradP(k.ainv, fi, gradP[j := g])[i] == AinvGradP(k.ainv, fi, gradP)[i]
  {
  }

  /** A direction without an Ainv variable drops out of the pressure term:
      the pressure gradient in that direction does not change the residual,
      whether or not an Hu variable exists there. */
  lemma AbsentDirectionIgnored(k: Kernel, fi: FaceInfo, gradP: Vec3, j: nat, g: real)
    requires 1 <= j < 3 && !Present(k.ainv, j)
    ensures Residual(k, fi, gradP[j := g]) == Residual(k, fi, gradP)
  {
    var g' := gradP[j := g];
    var p, p' := AinvGradP(k.ainv, fi, gradP), AinvGradP(k.ainv, fi, g');
    assert p'[0] == p[0];
    assert p'[1] == p[1] && p'[2] == p[2];
    assert p' == p;
  }

  /** With no pressure gradient only the source term Hu_f . n remains. */
  lemma ZeroGradientLeavesSource(k: Kernel, fi: FaceInfo)
    ensures Residual(k, fi, Zero) == Dot(FaceValue(k.hu, fi), fi.normal)
  {
  }

  /** The residual is linear in the pressure gradient: the source term
      enters once, and the gradients' shares add. */
  lemma LinearInGradient(k: Kernel, fi: FaceInfo, g1: Vec3, g2: Vec3)
    ensures Residual(k, fi, Add(g1, g2)) == Residual(k, fi, g1) + Residual(k, fi, g2) - Residual(k, fi, Zero)
  {
    var a := FaceValue(k.ainv, fi);
    var n := fi.normal;
    assert a[0] * (g1[0] + g2[0]) * n[0] == a[0] * g1[0] * n[0] + a[0] * g2[0] * n[0];
    assert a[1] * (g1[1] + g2[1]) * n[1] == a[1] * g1[1] * n[1] + a[1] * g2[1] * n[1];
    assert a[2] * (g1[2] + g2[2]) * n[2] == a[2] * g1[2] * n[2] + a[2] * g2[2] * n[2];
  }

  /** The residual is linear in the face Hu: replacing the Hu variables
      changes the residual by exactly the change of Hu_f . n. */
  lemma LinearInSource(k: Kernel, fi: FaceInfo, gradP: Vec3, hu: Components)
    ensures Residual(k.(hu := hu), fi, gradP) - Residual(k, fi, gradP)
         == Dot(Sub(FaceValue(hu, fi), FaceValue(k.hu, fi)), fi.normal)
  {
    var k' := k.(hu := hu);
    var p := AinvGradP(k.ainv, fi, gradP);
    assert AinvGradP(k'.ainv, fi, gradP) == p;
    var h', h, n := FaceValue(hu, fi), FaceValue(k.hu, fi), fi.normal;
    assert Residual(k', fi, gradP) == Dot(p, n) + Dot(h', n);
    assert Residual(k, fi, gradP) == Dot(p, n) + Dot(h, n);
    DotSubLeft(h', h, n);
  }

  lemma DotSubLeft(a: Vec3, b: Vec3, n: Vec3)
    ensures Dot(Sub(a, b), n) == Dot(a, n) - Dot(b, n)
  {
  }

  /** Each face component lies between the element's and the neighbor's
      values when the geometric weight is in [0, 1]: both face values are
      plain `Average` interpolations. */
  lemma FaceValueBetween(c: Components, fi: FaceInfo, i: nat)
    requires i < 3 && 0.0 <= fi.gc <= 1.0
    ensures var ev := ElemVector(c, fi.elem);
      var nv := NeighborVector(c, fi.neighbor, fi, ev);
      && (ev[i] <= nv[i] ==> ev[i] <= FaceValue(c, fi)[i] <= nv[i])
      && (nv[i] <= ev[i] ==> nv[i] <= FaceValue(c, fi)[i] <= ev[i])
  {
    var ev := ElemVector(c, fi.elem);
    var nv := NeighborVector(c, fi.neighbor, fi, ev);
    InterpBetween(fi.gc, ev[i], nv[i]);
  }

  /** Across a face without a neighbor, a variable that extrapolates its
      fallback unchanged makes the face value the element's own value. */
  lemma NoNeighborFallsBackOnElement(c: Components, fi: FaceInfo)
    requires fi.neighbor.None?
    requires OneTermExtrapolation(c.x)
    requires c.y.Some? ==> OneTermExtrapolation(c.y.value)
    requires c.z.Some? ==> OneTermExtrapolation(c.z.value)
    ensures FaceValue(c, fi) == ElemVector(c, fi.elem)
  {
    var ev := ElemVector(c, fi.elem);
    assert NeighborVector(c, fi.neighbor, fi, ev) == ev;
  }
}
