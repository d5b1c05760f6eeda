/** The momentum kernel's boundary bookkeeping: the INSFV boundary conditions
    the warehouse holds, the five category sets built at initial setup, and the
    per-face dispatch that walks a face's boundary IDs against those sets. */
module Boundaries {
  import opened Results
  import opened Mesh

  /** The INSFVBCs attribute under which a condition is registered. */
  datatype BcKind = FlowKind | NoSlipWallKind | SlipWallKind | SymmetryKind

  /** An INSFV boundary condition object; a fully-developed-flow condition is
      a flow condition too. */
  datatype InsfvBc = FlowBC(fullyDeveloped: bool) | NoSlipWallBC | SlipWallBC | SymmetryBC
  {
    function Kind(): BcKind
    {
      match this
      case FlowBC(_) => FlowKind
      case NoSlipWallBC => NoSlipWallKind
      case SlipWallBC => SlipWallKind
      case SymmetryBC => SymmetryKind
    }
  }

  /** The warehouse as the kernel sees it: the INSFV conditions attached to
      each boundary, in the order a query returns them. */
  type Registry = map<BoundaryId, seq<InsfvBc>>

  function BcsOn(reg: Registry, b: BoundaryId): seq<InsfvBc>
  {
    if b in reg then reg[b] else []
  }

  /** The conditions of `bcs` registered under k, in their original order. */
  function OfKind(bcs: seq<InsfvBc>, k: BcKind): seq<InsfvBc>
  {
    if bcs == [] then []
    else if bcs[0].Kind() == k then [bcs[0]] + OfKind(bcs[1..], k)
    else OfKind(bcs[1..], k)
  }

  /** The selection keeps only conditions of kind k, is empty exactly when no
      condition has that kind, and starts with a condition of `bcs`. */
  lemma {:induction false} OfKindSelects(bcs: seq<InsfvBc>, k: BcKind)
    ensures forall i :: 0 <= i < |OfKind(bcs, k)| ==> OfKind(bcs, k)[i].Kind() == k
    ensures OfKind(bcs, k) == [] <==> forall i :: 0 <= i < |bcs| ==> bcs[i].Kind() != k
    ensures OfKind(bcs, k) != [] ==> exists i :: 0 <= i < |bcs| && bcs[i] == OfKind(bcs, k)[0]
  {
    if bcs != [] {
      var rest := bcs[1..];
      OfKindSelects(rest, k);
      assert forall i :: 1 <= i < |bcs| ==> bcs[i] == rest[i - 1];
      if bcs[0].Kind() != k && OfKind(rest, k) != [] {
        var i :| 0 <= i < |rest| && rest[i] == OfKind(rest, k)[0];
        assert bcs[i + 1] == OfKind(bcs, k)[0];
      }
    }
  }

  /** The warehouse query by boundary and attribute. */
  function Query(reg: Registry, b: BoundaryId, k: BcKind): seq<InsfvBc>
  {
    OfKind(BcsOn(reg, b), k)
  }

  predicate HasBcs(reg: Registry, b: BoundaryId, k: BcKind)
  {
    Query(reg, b, k) != []
  }

  /** setupFlowBoundaries decides on the first flow condition alone. */
  predicate FirstFlowIsFullyDeveloped(reg: Registry, b: BoundaryId)
  {
    var f := Query(reg, b, FlowKind);
    f != [] && f[0] == FlowBC(true)
  }

  /** The kernel's category sets. */
  datatype Classification = Classification(
    flow: set<BoundaryId>,
    fullyDevelopedFlow: set<BoundaryId>,
    noSlipWall: set<BoundaryId>,
    slipWall: set<BoundaryId>,
    symmetry: set<BoundaryId>,
    all: set<BoundaryId>)

  const Unclassified := Classification({}, {}, {}, {}, {}, {})

  /** What setup keeps true: fully developed flow boundaries are flow
      boundaries, and `all` is exactly the union of the four categories.
      The categories need not be disjoint. */
  predicate WellFormed(c: Classification)
  {
    && c.fullyDevelopedFlow <= c.flow
    && c.all == c.flow + c.noSlipWall + c.slipWall + c.symmetry
  }

  function Join(c: Classification, d: Classification): Classification
  {
    Classification(
      c.flow + d.flow,
      c.fullyDevelopedFlow + d.fullyDevelopedFlow,
      c.noSlipWall + d.noSlipWall,
      c.slipWall + d.slipWall,
      c.symmetry + d.symmetry,
      c.all + d.all)
  }

  /** The boundaries of `connected` that carry a condition of kind k. */
  function Members(connected: set<BoundaryId>, reg: Registry, k: BcKind): set<BoundaryId>
  {
    set b | b in connected && HasBcs(reg, b, k)
  }

  /** The boundaries of `connected` whose first flow condition is fully developed. */
  function FullyDevelopedMembers(connected: set<BoundaryId>, reg: Registry): set<BoundaryId>
  {
    set b | b in connected && FirstFlowIsFullyDeveloped(reg, b)
  }

  /** What initialSetup adds for the boundaries in `connected`. Every set is
      drawn from `connected`, and a boundary is classified exactly when some
      INSFV condition is attached to it. */
  function Classify(connected: set<BoundaryId>, reg: Registry): (c: Classification)
    ensures WellFormed(c)
    ensures c.all <= connected
  {
    var flow := Members(connected, reg, FlowKind);
    var noSlip := Members(connected, reg, NoSlipWallKind);
    var slip := Members(connected, reg, SlipWallKind);
    var symmetry := Members(connected, reg, SymmetryKind);
    var c := Classification(
      flow, FullyDevelopedMembers(connected, reg), noSlip, slip, symmetry,
      flow + noSlip + slip + symmetry);
    c
  }

  /** A connected boundary is classified exactly when some INSFV condition is
      attached to it. */
  lemma ClassifiedExactly(connected: set<BoundaryId>, reg: Registry, b: BoundaryId)
    ensures b in Classify(connected, reg).all <==> b in connected && exists k :: HasBcs(reg, b, k)
  {
    var flow, noSlip := Members(connected, reg, FlowKind), Members(connected, reg, NoSlipWallKind);
    var slip, symmetry := Members(connected, reg, SlipWallKind), Members(connected, reg, SymmetryKind);
    assert Classify(connected, reg).all == flow + noSlip + slip + symmetry;
    if b in connected && exists k :: HasBcs(reg, b, k) {
      var k :| HasBcs(reg, b, k);
      assert b in Members(connected, reg, k);
    }
    if b in flow {
      assert HasBcs(reg, b, FlowKind);
    } else if b in noSlip {
      assert HasBcs(reg, b, NoSlipWallKind);
    } else if b in slip {
      assert HasBcs(reg, b, SlipWallKind);
    } else if b in symmetry {
      assert HasBcs(reg, b, SymmetryKind);
    }
  }

  /** The set of boundaries connected to the given subdomains. */
  function Connected(blocks: set<SubdomainId>, boundariesOf: SubdomainId -> set<BoundaryId>): set<BoundaryId>
  {
    set blk, b | blk in blocks && b in boundariesOf(blk) :: b
  }

  /** The category one boundary ID selects in coeffCalculator, tested in the
      order no-slip wall, slip wall, flow, symmetry. On well-formed sets it is
      absent exactly for unclassified IDs. */
  datatype Category = NoSlipWall | SlipWall | Flow(fullyDeveloped: bool) | Symmetry

  function CategoryOf(c: Classification, b: BoundaryId): (r: Option<Category>)
    ensures WellFormed(c) ==> (r.None? <==> b !in c.all)
    ensures r == Some(NoSlipWall) <==> b in c.noSlipWall
    ensures r == Some(SlipWall) <==> b in c.slipWall && b !in c.noSlipWall
    ensures (r.Some? && r.value.Flow?) <==> b in c.flow && b !in c.noSlipWall && b !in c.slipWall
    ensures r.Some? && r.value.Flow? ==> r == Some(Flow(b in c.fullyDevelopedFlow))
    ensures r == Some(Symmetry) <==> b in c.symmetry && b !in c.noSlipWall && b !in c.slipWall && b !in c.flow
  {
    if b in c.noSlipWall then Some(NoSlipWall)
    else if b in c.slipWall then Some(SlipWall)
    else if b in c.flow then Some(Flow(b in c.fullyDevelopedFlow))
    else if b in c.symmetry then Some(Symmetry)
    else None
  }

  /** The category of a boundary face: the first of its IDs that has one wins. */
  function FaceCategory(c: Classification, ids: seq<BoundaryId>): Option<Category>
  {
    if ids == [] then None
    else if CategoryOf(c, ids[0]).Some? then CategoryOf(c, ids[0])
    else FaceCategory(c, ids[1..])
  }

  /** A face has no category exactly when none of its IDs has one; otherwise
      its category is that of the first ID that has one. */
  lemma {:induction false} FaceCategoryFirst(c: Classification, ids: seq<BoundaryId>)
    ensures FaceCategory(c, ids).None? <==> forall i :: 0 <= i < |ids| ==> CategoryOf(c, ids[i]).None?
    ensures FaceCategory(c, ids).Some? ==>
      exists i :: 0 <= i < |ids| && CategoryOf(c, ids[i]) == FaceCategory(c, ids)
                 && forall j :: 0 <= j < i ==> CategoryOf(c, ids[j]).None?
  {
    if ids != [] && CategoryOf(c, ids[0]).None? {
      var rest := ids[1..];
      FaceCategoryFirst(c, rest);
      assert forall i :: 1 <= i < |ids| ==> ids[i] == rest[i - 1];
      if FaceCategory(c, rest).Some? {
        var i :| 0 <= i < |rest| && CategoryOf(c, rest[i]) == FaceCategory(c, rest)
                 && forall j :: 0 <= j < i ==> CategoryOf(c, rest[j]).None?;
        assert CategoryOf(c, ids[i + 1]) == FaceCategory(c, ids);
      }
    }
  }

  /** Whether some ID of the face belongs to the set. */
  function AnyIn(ids: seq<BoundaryId>, s: set<BoundaryId>): (r: bool)
    ensures r <==> exists i :: 0 <= i < |ids| && ids[i] in s
  {
    if ids == [] then false
    else if ids[0] in s then true
    else
      var r := AnyIn(ids[1..], s);
      assert forall i :: 1 <= i < |ids| ==> ids[i] == ids[1..][i - 1];
      r
  }

  /** What setupFlowBoundaries(b) inserts: b is a flow boundary when a flow
      condition is attached to it, and also fully developed when the first
      such condition is. */
  function FlowPart(reg: Registry, b: BoundaryId): Classification
  {
    var flow: set<BoundaryId> := if HasBcs(reg, b, FlowKind) then {b} else {};
    var fullyDeveloped: set<BoundaryId> := if FirstFlowIsFullyDeveloped(reg, b) then {b} else {};
    Classification(flow, fullyDeveloped, {}, {}, {}, flow)
  }

  /** The member set that setupBoundaries is handed, with its attribute. */
  datatype WallSet = NoSlipWallSet | SlipWallSet | SymmetrySet
  {
    function Kind(): BcKind
    {
      match this
      case NoSlipWallSet => NoSlipWallKind
      case SlipWallSet => SlipWallKind
      case SymmetrySet => SymmetryKind
    }
  }

  /** What setupBoundaries(b, kind, set) inserts. */
  function WallPart(reg: Registry, b: BoundaryId, w: WallSet): Classification
  {
    var hit: set<BoundaryId> := if HasBcs(reg, b, w.Kind()) then {b} else {};
    match w
    case NoSlipWallSet => Classification({}, {}, hit, {}, {}, hit)
    case SlipWallSet => Classification({}, {}, {}, hit, {}, hit)
    case SymmetrySet => Classification({}, {}, {}, {}, hit, hit)
  }

  /** One pass of initialSetup's loop body for boundary b. */
  function ClassifyOne(reg: Registry, b: BoundaryId): Classification
  {
    Join(Join(Join(FlowPart(reg, b), WallPart(reg, b, NoSlipWallSet)), WallPart(reg, b, SlipWallSet)),
         WallPart(reg, b, SymmetrySet))
  }

  lemma ClassifyEmpty(reg: Registry)
    ensures Classify({}, reg) == Unclassified
  {
  }

  lemma MembersInsert(done: set<BoundaryId>, b: BoundaryId, reg: Registry, k: BcKind)
    ensures Members(done + {b}, reg, k) == Members(done, reg, k) + (if HasBcs(reg, b, k) then {b} else {})
  {
  }

  lemma FullyDevelopedInsert(done: set<BoundaryId>, b: BoundaryId, reg: Registry)
    ensures FullyDevelopedMembers(done + {b}, reg)
         == FullyDevelopedMembers(done, reg) + (if FirstFlowIsFullyDeveloped(reg, b) then {b} else {})
  {
  }

  /** Classifying one more boundary adds exactly that boundary's part. */
  lemma ClassifyInsert(done: set<BoundaryId>, b: BoundaryId, reg: Registry)
    ensures Classify(done + {b}, reg) == Join(Classify(done, reg), ClassifyOne(reg, b))
  {
    var l := Classify(done + {b}, reg);
    var r := Join(Classify(done, reg), ClassifyOne(reg, b));
    MembersInsert(done, b, reg, FlowKind);
    MembersInsert(done, b, reg, NoSlipWallKind);
    MembersInsert(done, b, reg, SlipWallKind);
    MembersInsert(done, b, reg, SymmetryKind);
    FullyDevelopedInsert(done, b, reg);
    assert l.all == r.all by {
      forall x
        ensures x in l.all <==> x in r.all
      {
      }
    }
  }

  lemma ConnectedEmpty(boundariesOf: SubdomainId -> set<BoundaryId>)
    ensures Connected({}, boundariesOf) == {}
  {
  }

  /** Scanning one more subdomain adds exactly its boundaries. */
  lemma ConnectedInsert(done: set<SubdomainId>, blk: SubdomainId, boundariesOf: SubdomainId -> set<BoundaryId>)
    ensures Connected(done + {blk}, boundariesOf) == Connected(done, boundariesOf) + boundariesOf(blk)
  {
    var l := Connected(done + {blk}, boundariesOf);
    var r := Connected(done, boundariesOf) + boundariesOf(blk);
    forall b | b in r
      ensures b in l
    {
      if b !in boundariesOf(blk) {
        var d :| d in done && b in boundariesOf(d);
        assert d in done + {blk};
      }
    }
  }

  /** Re-running setup changes nothing: setup only inserts. */
  lemma {:induction false} SetupIdempotent(c: Classification, connected: set<BoundaryId>, reg: Registry)
    ensures Join(Join(c, Classify(connected, reg)), Classify(connected, reg)) == Join(c, Classify(connected, reg))
  {
    var k := Classify(connected, reg);
    var once := Join(c, k);
    var twice := Join(once, k);
    assert twice.flow == once.flow;
    assert twice.fullyDevelopedFlow == once.fullyDevelopedFlow;
    assert twice.noSlipWall == once.noSlipWall;
    assert twice.slipWall == once.slipWall;
    assert twice.symmetry == once.symmetry;
    assert twice.all == once.all;
  }

  /** A face of connected boundaries has no category exactly when none of its
      IDs carries any INSFV condition: the fatal "not bounded by INSFVBCs" case. */
  lemma {:induction false} Coverage(connected: set<BoundaryId>, reg: Registry, ids: seq<BoundaryId>)
    requires forall i :: 0 <= i < |ids| ==> ids[i] in connected
    ensures FaceCategory(Classify(connected, reg), ids).None? <==>
      forall i, k :: 0 <= i < |ids| ==> !HasBcs(reg, ids[i], k)
  {
    var c := Classify(connected, reg);
    FaceCategoryFirst(c, ids);
    forall i | 0 <= i < |ids|
      ensures CategoryOf(c, ids[i]).None? <==> forall k :: !HasBcs(reg, ids[i], k)
    {
      ClassifiedExactly(connected, reg, ids[i]);
    }
  }

  /** The categories need not be disjoint; when they overlap, the no-slip
      wall wins a face's dispatch. */
  lemma OverlapResolvedByPrecedence()
    ensures var c := Classify({7}, map[7 := [FlowBC(false), NoSlipWallBC]]);
      && 7 in c.flow && 7 in c.noSlipWall
      && FaceCategory(c, [7]) == Some(NoSlipWall)
  {
    var reg: Registry := map[7 := [FlowBC(false), NoSlipWallBC]];
    assert Query(reg, 7, FlowKind) == [FlowBC(false)];
    assert Query(reg, 7, NoSlipWallKind) == [NoSlipWallBC];
  }

  /** Only the first flow condition decides whether the boundary is fully
      developed. */
  lemma FirstFlowConditionDecides()
    ensures var c := Classify({3}, map[3 := [FlowBC(true), FlowBC(false)]]);
      3 in c.fullyDevelopedFlow && FaceCategory(c, [3]) == Some(Flow(true))
    ensures var c := Classify({3}, map[3 := [FlowBC(false), FlowBC(true)]]);
      3 in c.flow && 3 !in c.fullyDevelopedFlow && FaceCategory(c, [3]) == Some(Flow(false))
  {
    var reg1: Registry := map[3 := [FlowBC(true), FlowBC(false)]];
    var reg2: Registry := map[3 := [FlowBC(false), FlowBC(true)]];
    assert Query(reg1, 3, FlowKind) == [FlowBC(true), FlowBC(false)];
    assert Query(reg2, 3, FlowKind) == [FlowBC(false), FlowBC(true)];
    assert Query(reg1, 3, NoSlipWallKind) == [] && Query(reg1, 3, SlipWallKind) == [];
    assert Query(reg2, 3, NoSlipWallKind) == [] && Query(reg2, 3, SlipWallKind) == [];
  }

  lemma JoinAssociative(a: Classification, b: Classification, c: Classification)
    ensures Join(Join(a, b), c) == Join(a, Join(b, c))
  {
    assert Join(Join(a, b), c).all == Join(a, Join(b, c)).all;
  }

  /** Joining keeps the setup invariant. */
  lemma JoinWellFormed(c: Classification, d: Classification)
    requires WellFormed(c) && WellFormed(d)
    ensures WellFormed(Join(c, d))
  {
  }

  /** One step of initialSetup's classification loop, applied on top of
      whatever the sets already held. */
  lemma ClassifyStep(before: Classification, done: set<BoundaryId>, b: BoundaryId, reg: Registry)
    ensures Join(Join(before, Classify(done, reg)), ClassifyOne(reg, b)) == Join(before, Classify(done + {b}, reg))
  {
    ClassifyInsert(done, b, reg);
    JoinAssociative(before, Classify(done, reg), ClassifyOne(reg, b));
  }

  lemma JoinNothing(c: Classification, reg: Registry)
    ensures Join(c, Classify({}, reg)) == c
  {
    ClassifyEmpty(reg);
    assert Join(c, Unclassified).all == c.all;
  }
}
