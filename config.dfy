/** The momentum kernel's construction-time checks: the kinds of the coupled
    variables, the components the mesh dimension needs, the velocity
    interpolation method and the rejected forcing parameters. */
module Configuration {
  import opened Results
  import opened Mesh
  import opened Fields
  import opened Interpolation

  /** What a coupled variable turns out to be when the kernel casts it. */
  datatype VarKind = PressureVariable | VelocityVariable | OtherVariable

  /** A coupled variable: its kind and the field it carries. */
  datatype Coupled = Coupled(kind: VarKind, field: Field)

  /** The parameters the constructor reads; an absent optional coupled
      variable is None. */
  datatype Params = Params(
    pressure: VarKind,
    u: Coupled,
    v: Option<Coupled>,
    w: Option<Coupled>,
    velocityInterpMethod: string,
    forceBoundaryExecution: bool,
    boundariesToForce: seq<string>)

  datatype ConfigError =
    | PressureNotPressureVariable
    | UNotVelocityVariable
    | VMissing
    | WMissing
    | UnrecognizedInterpMethod(name: string)
    | ForcedBoundaryExecution
    | ForcedBoundaries

  /** What construction keeps: the velocity variables that survived the casts
      and the interpolation method. */
  datatype Config = Config(vel: Velocity, interpMethod: InterpMethod)

  /** The cast of an optional coupled variable to a velocity variable: present
      exactly when the variable is supplied and is one. */
  function VelocityCast(c: Option<Coupled>): (r: Option<Field>)
    ensures r.Some? <==> c.Some? && c.value.kind == VelocityVariable
    ensures r.Some? ==> r.value == c.value.field
  {
    if c.Some? && c.value.kind == VelocityVariable then Some(c.value.field) else None
  }

  predicate KnownMethod(name: string)
  {
    name == "average" || name == "rc"
  }

  /** Every variable check passes with the w check on the cast `w`. */
  predicate VariablesPass(p: Params, dim: Dim)
  {
    && p.pressure == PressureVariable && p.u.kind == VelocityVariable
    && (dim >= 2 ==> VelocityCast(p.v).Some?)
    && (dim >= 3 ==> VelocityCast(p.w).Some?)
  }

  /** The variable and method checks as they are written: the
      three-dimensional check asks only whether a `w` parameter was given, not
      whether it survived the cast. */
  function CheckVariablesAsWritten(p: Params, dim: Dim): (r: Result<Config, ConfigError>)
    ensures r.Ok? <==> && p.pressure == PressureVariable && p.u.kind == VelocityVariable
                       && (dim >= 2 ==> VelocityCast(p.v).Some?)
                       && (dim >= 3 ==> p.w.Some?)
                       && KnownMethod(p.velocityInterpMethod)
    ensures (p.pressure == PressureVariable && p.u.kind == VelocityVariable
             && dim >= 2 && VelocityCast(p.v).None?) ==> r == Err(VMissing)
    ensures (p.pressure == PressureVariable && p.u.kind == VelocityVariable
             && (dim >= 2 ==> VelocityCast(p.v).Some?)
             && dim >= 3 && p.w.None?) ==> r == Err(WMissing)
  {
    if p.pressure != PressureVariable then Err(PressureNotPressureVariable)
    else if p.u.kind != VelocityVariable then Err(UNotVelocityVariable)
    else if dim >= 2 && VelocityCast(p.v).None? then Err(VMissing)
    else if dim >= 3 && p.w.None? then Err(WMissing)
    else if p.velocityInterpMethod == "average" then
      Ok(Config(Components(p.u.field, VelocityCast(p.v), VelocityCast(p.w)), Average))
    else if p.velocityInterpMethod == "rc" then
      Ok(Config(Components(p.u.field, VelocityCast(p.v), VelocityCast(p.w)), RhieChow))
    else Err(UnrecognizedInterpMethod(p.velocityInterpMethod))
  }

  /** The variable and method checks with the three-dimensional check on the
      cast `w`, as its error message demands. The first failing check decides
      the error; success keeps exactly the velocity variables that cast. */
  function CheckVariables(p: Params, dim: Dim): (r: Result<Config, ConfigError>)
    ensures r.Ok? <==> VariablesPass(p, dim) && KnownMethod(p.velocityInterpMethod)
    ensures p.pressure != PressureVariable ==> r == Err(PressureNotPressureVariable)
    ensures p.pressure == PressureVariable && p.u.kind != VelocityVariable ==> r == Err(UNotVelocityVariable)
    ensures r.Ok? ==> (r.value.vel.x == p.u.field && r.value.vel.y == VelocityCast(p.v)
                       && r.value.vel.z == VelocityCast(p.w))
    ensures r.Ok? ==> (r.value.interpMethod == Average <==> p.velocityInterpMethod == "average")
    ensures (p.pressure == PressureVariable && p.u.kind == VelocityVariable
             && dim >= 2 && VelocityCast(p.v).None?) ==> r == Err(VMissing)
    ensures (p.pressure == PressureVariable && p.u.kind == VelocityVariable
             && (dim >= 2 ==> VelocityCast(p.v).Some?)
             && dim >= 3 && VelocityCast(p.w).None?) ==> r == Err(WMissing)
    ensures VariablesPass(p, dim) && !KnownMethod(p.velocityInterpMethod)
            ==> r == Err(UnrecognizedInterpMethod(p.velocityInterpMethod))
  {
    if p.pressure != PressureVariable then Err(PressureNotPressureVariable)
    else if p.u.kind != VelocityVariable then Err(UNotVelocityVariable)
    else if dim >= 2 && VelocityCast(p.v).None? then Err(VMissing)
    else if dim >= 3 && VelocityCast(p.w).None? then Err(WMissing)
    else if p.velocityInterpMethod == "average" then
      Ok(Config(Components(p.u.field, VelocityCast(p.v), VelocityCast(p.w)), Average))
    else if p.velocityInterpMethod == "rc" then
      Ok(Config(Components(p.u.field, VelocityCast(p.v), VelocityCast(p.w)), RhieChow))
    else Err(UnrecognizedInterpMethod(p.velocityInterpMethod))
  }

  /** The forcing parameters are refused; they are checked after the
      coefficient table has been registered. */
  function CheckForcing(p: Params): (r: Option<ConfigError>)
    ensures r.None? <==> !p.forceBoundaryExecution && p.boundariesToForce == []
    ensures p.forceBoundaryExecution ==> r == Some(ForcedBoundaryExecution)
  {
    if p.forceBoundaryExecution then Some(ForcedBoundaryExecution)
    else if p.boundariesToForce != [] then Some(ForcedBoundaries)
    else None
  }

  /** An accepted configuration carries every velocity component the mesh
      dimension needs. */
  lemma AcceptedHasComponents(p: Params, dim: Dim)
    requires CheckVariables(p, dim).Ok?
    ensures dim >= 2 ==> CheckVariables(p, dim).value.vel.y.Some?
    ensures dim >= 3 ==> CheckVariables(p, dim).value.vel.z.Some?
  {
  }

  /** As written, a three-dimensional kernel whose `w` is supplied but is not
      a velocity variable is accepted and runs without a z velocity. */
  lemma WCheckAsWrittenAdmitsMissingW(u: Field, v: Field, w: Field)
    ensures var p := Params(PressureVariable, Coupled(VelocityVariable, u), Some(Coupled(VelocityVariable, v)),
                            Some(Coupled(OtherVariable, w)), "rc", false, []);
      && CheckVariablesAsWritten(p, 3).Ok?
      && CheckVariablesAsWritten(p, 3).value.vel.z.None?
      && CheckVariables(p, 3) == Err(WMissing)
  {
  }

  /** Both versions agree below three dimensions and whenever `w` is absent
      or a velocity variable. */
  lemma ChecksAgreeOffTheFlaw(p: Params, dim: Dim)
    requires dim < 3 || p.w.None? || p.w.value.kind == VelocityVariable
    ensures CheckVariablesAsWritten(p, dim) == CheckVariables(p, dim)
  {
  }

  /** The correction only ever refuses earlier: wherever the two checks
      differ, the corrected check reports the missing w, while the code goes
      on to the method check and either accepts or rejects the method name. */
  lemma CorrectionOnlyRefuses(p: Params, dim: Dim)
    ensures CheckVariables(p, dim) != CheckVariablesAsWritten(p, dim) ==>
      && CheckVariables(p, dim) == Err(WMissing)
      && (|| CheckVariablesAsWritten(p, dim).Ok?
          || CheckVariablesAsWritten(p, dim) == Err(UnrecognizedInterpMethod(p.velocityInterpMethod)))
  {
    if dim < 3 || p.w.None? || p.w.value.kind == VelocityVariable {
      ChecksAgreeOffTheFlaw(p, dim);
    }
  }
}
