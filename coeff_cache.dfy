/** The process-wide Rhie-Chow coefficient table: for every application, one
    bucket per thread, each mapping elements to their momentum coefficient
    vector. Lookups and clears are done by the kernel (MomentumPredictor); this
    module holds the table and its registration by a thread-0 kernel. */
module CoeffCache {
  import opened Geometry
  import opened Mesh

  type AppId = nat

  type Bucket = map<ElemId, Vec3>

  /** std::vector::resize: keeps the first n buckets and appends empty ones. */
  function Resized(buckets: seq<Bucket>, n: nat): (r: seq<Bucket>)
    ensures |r| == n
    ensures forall t :: 0 <= t < n && t < |buckets| ==> r[t] == buckets[t]
    ensures forall t :: |buckets| <= t < n ==> r[t] == map[]
  {
    if n <= |buckets| then buckets[..n] else buckets + seq(n - |buckets|, _ => map[])
  }

  /** `after` is the table `before` with one bucket changed: bucket (app, tid)
      keeps every entry it had and gains entries only for elements in
      `elems`; every other bucket and application is as it was. */
  predicate Grown(before: map<AppId, seq<Bucket>>, after: map<AppId, seq<Bucket>>,
                  app: AppId, tid: nat, elems: set<ElemId>)
  {
    && app in before && tid < |before[app]|
    && app in after && tid < |after[app]|
    && after == before[app := before[app][tid := after[app][tid]]]
    && (forall e :: e in before[app][tid] ==> e in after[app][tid] && after[app][tid][e] == before[app][tid][e])
    && after[app][tid].Keys <= before[app][tid].Keys + elems
  }

  /** Nothing changed is a growth by no element. */
  lemma GrownRefl(t: map<AppId, seq<Bucket>>, app: AppId, tid: nat)
    requires app in t && tid < |t[app]|
    ensures Grown(t, t, app, tid, {})
  {
    assert t[app][tid := t[app][tid]] == t[app];
    assert t[app := t[app]] == t;
  }

  /** Two growths of the same bucket in a row are one growth by both element
      sets. */
  lemma GrownTrans(t1: map<AppId, seq<Bucket>>, t2: map<AppId, seq<Bucket>>, t3: map<AppId, seq<Bucket>>,
                   app: AppId, tid: nat, s1: set<ElemId>, s2: set<ElemId>)
    requires Grown(t1, t2, app, tid, s1) && Grown(t2, t3, app, tid, s2)
    ensures Grown(t1, t3, app, tid, s1 + s2)
  {
    assert t2[app] == t1[app][tid := t2[app][tid]];
    assert t3[app] == t2[app][tid := t3[app][tid]];
    assert t3[app] == t1[app][tid := t3[app][tid]];
  }

  /** A growth by some elements is a growth by any larger set of them. */
  lemma GrownWiden(before: map<AppId, seq<Bucket>>, after: map<AppId, seq<Bucket>>,
                   app: AppId, tid: nat, s: set<ElemId>, s': set<ElemId>)
    requires Grown(before, after, app, tid, s) && s <= s'
    ensures Grown(before, after, app, tid, s')
  {
  }

  /** The thread isolation a growth gives: every other bucket of every
      application that existed is still there, unchanged. */
  lemma GrownLeavesOthers(before: map<AppId, seq<Bucket>>, after: map<AppId, seq<Bucket>>,
                          app: AppId, tid: nat, elems: set<ElemId>, a: AppId, t: nat)
    requires Grown(before, after, app, tid, elems)
    requires a in before && t < |before[a]| && (a != app || t != tid)
    ensures a in after && t < |after[a]| && after[a][t] == before[a][t]
  {
  }

  class RcCoeffTable {
    var buckets: map<AppId, seq<Bucket>>
    /** How many coefficient vectors have been computed to fill the table. */
    ghost var computations: nat

    constructor ()
      ensures buckets == map[] && computations == 0
    {
      buckets := map[];
      computations := 0;
    }

    /** The application has an entry and the thread index is within it. */
    predicate Ready(app: AppId, tid: nat)
      reads this
    {
      app in buckets && tid < |buckets[app]|
    }

    function BucketOf(app: AppId, tid: nat): Bucket
      reads this
      requires Ready(app, tid)
    {
      buckets[app][tid]
    }

    /** The entries of an application, created empty on first use. */
    function Entry(app: AppId): seq<Bucket>
      reads this
    {
      if app in buckets then buckets[app] else []
    }

    /** `_rc_a_coeffs[&_app].resize(n_threads)`, run by the thread-0 kernel
        when it is constructed: the application gets one bucket per thread,
        existing buckets are kept, other applications are untouched. */
    method Register(app: AppId, nThreads: nat)
      modifies this
      ensures buckets == old(buckets)[app := Resized(old(Entry(app)), nThreads)]
      ensures computations == old(computations)
      ensures forall tid: nat :: tid < nThreads ==> Ready(app, tid)
    {
      buckets := buckets[app := Resized(Entry(app), nThreads)];
    }
  }
}
