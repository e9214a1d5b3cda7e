/**
 The lease scheduler as a state machine over the shared store. A reconcile of a lease is four steps:
 read the lease, compute its new status from the lists, write the status, write the label and the
 owner. Between any two of them RPCs, other writers, other controllers and the clock may act, and the
 reconcile may stop. Both writes are version-checked. Lease reconciles are serial: there is one stage.
 */
module ClusterModel {
  import opened Options
  import opened Runs
  import opened Identifiers
  import opened LabelSelectors
  import opened LeaseTimes
  import opened LeaseTypes
  import opened Scheduling
  import opened LeaseReconciler
  import opened Verdicts
  import opened ClientRpc

  /** Where the one running reconcile stands. */
  datatype Stage =
    | Idle
    | Got(lease: LeaseRecord)                                                   // read, nothing computed
    | Computed(lease: LeaseRecord, status: LeaseStatus, requeueAfter: Duration) // status not written
    | Written(lease: LeaseRecord)                                               // label and owner not written

  datatype Cluster = Cluster(
    leases: map<Key, LeaseRecord>,
    exporters: map<Key, Exporter>,
    policies: map<Key, AccessPolicy>,
    clients: map<Key, Labels>,
    revision: nat,
    now: Time,
    stage: Stage)

  // ---------------------------------------------------------------- steps

  datatype Event =
    | Tick(now: Time)
    | Create(key: Key, spec: LeaseSpec)
    | EditSpec(key: Key, spec: LeaseSpec)
    | Remove(key: Key)
    | ChangeWorld(exporters: map<Key, Exporter>, policies: map<Key, AccessPolicy>, clients: map<Key, Labels>)
    | Get(key: Key)
    | Compute(view: View, readings: Readings, decision: Decision)
    | WriteStatus
    | WriteMetadata
    | Crash

  /** Steps of everything that is not the lease reconciler. */
  predicate IsEnvironment(e: Event) {
    e.Tick? || e.Create? || e.EditSpec? || e.Remove? || e.ChangeWorld?
  }

  /** `s` lists, in some order, the objects of the namespace that `keep` selects. */
  ghost predicate Lists<T(!new)>(s: seq<T>, m: map<Key, T>, namespace: string, keep: T -> bool) {
    forall x :: x in s <==> exists k :: k in m && k.namespace == namespace && m[k] == x && keep(x)
  }

  predicate Anything<T>(x: T) {
    true
  }

  predicate Active(l: LeaseRecord) {
    !l.endedLabel
  }

  /** The lists a reconcile of `l` reads now. */
  ghost predicate IsView(c: Cluster, l: LeaseRecord, v: View) {
    var client := Key(l.key.namespace, l.spec.clientRef);
    && Lists(v.exporters, c.exporters, l.key.namespace, Anything)
    && Lists(v.policies, c.policies, l.key.namespace, Anything)
    && Lists(v.active, c.leases, l.key.namespace, Active)
    && v.client == if client in c.clients then Some(c.clients[client]) else None
  }

  /** A write is accepted if the object still exists in the version that was read. */
  predicate Current(c: Cluster, l: LeaseRecord) {
    l.key in c.leases && c.leases[l.key].version == l.version
  }

  function Store(c: Cluster, l: LeaseRecord): Cluster {
    c.(leases := c.leases[l.key := l.(version := c.revision + 1)], revision := c.revision + 1)
  }

  function AfterWriteStatus(c: Cluster): Cluster
    requires c.stage.Computed?
  {
    if Current(c, c.stage.lease) then
      var l := c.stage.lease.(status := c.stage.status);
      Store(c, l).(stage := Written(l.(version := c.revision + 1)))
    else c.(stage := Idle)
  }

  /** The owner reference can be set: the exporter exists and nobody else owns the lease. */
  predicate OwnerSettable(c: Cluster, l: LeaseRecord) {
    l.status.exporterRef.Some? ==>
      && Key(l.key.namespace, l.status.exporterRef.value) in c.exporters
      && (l.owner.Some? ==> l.owner == l.status.exporterRef)
  }

  function Labelled(l: LeaseRecord): LeaseRecord {
    l.(endedLabel := l.endedLabel || l.status.ended,
       owner := if l.status.exporterRef.Some? then l.status.exporterRef else l.owner)
  }

  function AfterWriteMetadata(c: Cluster): Cluster
    requires c.stage.Written?
  {
    var l := c.stage.lease;
    if OwnerSettable(c, l) && Current(c, l) then Store(c, Labelled(l)).(stage := Idle)
    else c.(stage := Idle)
  }

  /** `e` takes `c` to `d`. */
  ghost predicate Next(c: Cluster, e: Event, d: Cluster) {
    match e
    case Tick(now) => now >= c.now && d == c.(now := now)
    case Create(key, spec) =>
      key !in c.leases && d == Store(c, LeaseRecord(key, spec, NEW_STATUS, false, None, 0))
    case EditSpec(key, spec) => key in c.leases && d == Store(c, c.leases[key].(spec := spec))
    case Remove(key) => d == c.(leases := c.leases - {key}, revision := c.revision + 1)
    case ChangeWorld(exporters, policies, clients) =>
      d == c.(exporters := exporters, policies := policies, clients := clients)
    case Get(key) => c.stage.Idle? && key in c.leases && d == c.(stage := Got(c.leases[key]))
    case Compute(view, readings, decision) =>
      && c.stage.Got? && IsView(c, c.stage.lease, view)
      && InOrder(readings) && c.now <= readings.decide
      && Decides(c.stage.lease, view, readings.decide, decision) && !IsError(decision)
      && d == c.(now := readings.stamp,
                 stage := Computed(c.stage.lease, NewStatus(c.stage.lease, decision, readings),
                                   NewRequeue(c.stage.lease, decision, readings)))
    case WriteStatus => c.stage.Computed? && d == AfterWriteStatus(c)
    case WriteMetadata => c.stage.Written? && d == AfterWriteMetadata(c)
    case Crash => d == c.(stage := Idle)
  }

  /** No lease yet, no reconcile running. */
  predicate Init(c: Cluster) {
    c.leases == map[] && c.stage.Idle?
  }

  // ---------------------------------------------------------------- the invariant

  /** The lease holds an exporter. */
  predicate Holding(s: LeaseStatus) {
    !s.ended && s.exporterRef.Some?
  }

  predicate RecordOk(c: Cluster, l: LeaseRecord) {
    && l.version <= c.revision
    && Coherent(l.status)
    && (l.endedLabel ==> l.status.ended)
  }

  predicate StoreOk(c: Cluster) {
    forall k | k in c.leases :: c.leases[k].key == k && RecordOk(c, c.leases[k])
  }

  /** No other stored lease of the namespace holds what status `s` of lease `k` holds. */
  predicate Alone(c: Cluster, k: Key, s: LeaseStatus) {
    Holding(s) ==>
      forall j | j in c.leases && j != k && j.namespace == k.namespace && Holding(c.leases[j].status) ::
        c.leases[j].status.exporterRef != s.exporterRef
  }

  /** Mutual exclusion: no exporter is held by two leases of its namespace. */
  predicate Exclusive(c: Cluster) {
    forall k | k in c.leases :: Alone(c, k, c.leases[k].status)
  }

  /** What was read still stands while the version has not changed; until then nothing is known of a lease
      that was edited, removed or created anew. */
  predicate StillStands(c: Cluster, l: LeaseRecord) {
    RecordOk(c, l) && (Current(c, l) ==> c.leases[l.key] == l)
  }

  predicate StageOk(c: Cluster) {
    match c.stage
    case Idle => true
    case Got(l) => StillStands(c, l)
    case Computed(l, status, _) =>
      && StillStands(c, l)
      && Coherent(status) && Evolves(l.status, status)
      && (Current(c, l) ==> Alone(c, l.key, status))
    case Written(l) => StillStands(c, l)
  }

  predicate Inv(c: Cluster) {
    StoreOk(c) && Exclusive(c) && StageOk(c)
  }

  lemma InitInv(c: Cluster)
    requires Init(c)
    ensures Inv(c)
  {
  }

  /** Storing a lease whose status did not change keeps everything. */
  lemma StoreSameStatus(c: Cluster, l: LeaseRecord)
    requires Inv(c) && l.key in c.leases && l.status == c.leases[l.key].status
            && l.endedLabel == c.leases[l.key].endedLabel
    ensures Inv(Store(c, l))
  {
    var d := Store(c, l);
    forall k | k in d.leases ensures Alone(d, k, d.leases[k].status) {
      assert Alone(c, k, c.leases[k].status);
    }
    if d.stage.Computed? && Current(d, d.stage.lease) {
      assert Alone(c, d.stage.lease.key, d.stage.status);
    }
  }

  /** A new lease holds nothing, so whoever was alone still is. */
  lemma AloneDespiteNew(c: Cluster, key: Key, spec: LeaseSpec, d: Cluster, k: Key, s: LeaseStatus)
    requires Next(c, Create(key, spec), d) && Alone(c, k, s)
    ensures Alone(d, k, s)
  {
  }

  lemma CreateKeeps(c: Cluster, key: Key, spec: LeaseSpec, d: Cluster)
    requires Inv(c) && Next(c, Create(key, spec), d)
    ensures Inv(d)
  {
    forall k | k in d.leases ensures Alone(d, k, d.leases[k].status) {
      if k != key {
        AloneDespiteNew(c, key, spec, d, k, c.leases[k].status);
      }
    }
    if d.stage.Computed? && Current(d, d.stage.lease) {
      AloneDespiteNew(c, key, spec, d, d.stage.lease.key, d.stage.status);
    }
  }

  lemma RemoveKeeps(c: Cluster, key: Key, d: Cluster)
    requires Inv(c) && Next(c, Remove(key), d)
    ensures Inv(d)
  {
    forall k | k in d.leases ensures Alone(d, k, d.leases[k].status) {
      assert Alone(c, k, c.leases[k].status);
    }
    if d.stage.Computed? && Current(d, d.stage.lease) {
      assert Alone(c, d.stage.lease.key, d.stage.status);
    }
  }

  /** The heart of exclusion: a lease that holds an exporter is not ended, so it carries no label, so it
      is listed, so its exporter is not given away. */
  lemma ComputedAlone(c: Cluster, view: View, r: Readings, decision: Decision)
    requires Inv(c) && c.stage.Got? && Current(c, c.stage.lease) && IsView(c, c.stage.lease, view)
    requires Decides(c.stage.lease, view, r.decide, decision)
    ensures Alone(c, c.stage.lease.key, NewStatus(c.stage.lease, decision, r))
  {
    var l := c.stage.lease;
    var s := NewStatus(l, decision, r);
    DecidesTimely(l, view, r.decide, decision);
    ReconcileCoherent(l, decision, r);
    assert Alone(c, l.key, c.leases[l.key].status);
    OnlyAssignmentAssigns(l, decision, r);
    if Holding(s) && l.status.exporterRef.None? {
      AssignedIsUnheld(l, view, r.decide, decision);
      forall j | j in c.leases && j != l.key && j.namespace == l.key.namespace && Holding(c.leases[j].status)
        ensures c.leases[j].status.exporterRef != s.exporterRef
      {
        assert Active(c.leases[j]);
        assert c.leases[j] in view.active;
      }
    }
  }

  lemma ComputeKeeps(c: Cluster, view: View, r: Readings, decision: Decision, d: Cluster)
    requires Inv(c) && Next(c, Compute(view, r, decision), d)
    ensures Inv(d)
  {
    var l := c.stage.lease;
    DecidesTimely(l, view, r.decide, decision);
    ReconcileCoherent(l, decision, r);
    if Current(c, l) {
      ComputedAlone(c, view, r, decision);
    }
    forall k | k in d.leases ensures Alone(d, k, d.leases[k].status) {
      assert Alone(c, k, c.leases[k].status);
    }
  }

  lemma WriteStatusKeeps(c: Cluster, d: Cluster)
    requires Inv(c) && Next(c, WriteStatus, d)
    ensures Inv(d)
  {
    var l := c.stage.lease;
    if Current(c, l) {
      StoreAlone(c, c.leases[l.key].(status := c.stage.status));
    } else {
      SameLeasesKeep(c, d);
    }
  }

  /** Storing a status that is alone keeps exclusion. */
  lemma StoreAlone(c: Cluster, l: LeaseRecord)
    requires Exclusive(c) && l.key in c.leases && Alone(c, l.key, l.status)
    ensures Exclusive(Store(c, l))
  {
    var d := Store(c, l);
    forall k | k in d.leases ensures Alone(d, k, d.leases[k].status) {
      assert Alone(c, k, c.leases[k].status);
    }
  }

  lemma WriteMetadataKeeps(c: Cluster, d: Cluster)
    requires Inv(c) && Next(c, WriteMetadata, d)
    ensures Inv(d)
  {
    var l := c.stage.lease;
    if OwnerSettable(c, l) && Current(c, l) {
      assert Alone(c, l.key, c.leases[l.key].status);
      StoreAlone(c, Labelled(l));
    } else {
      SameLeasesKeep(c, d);
    }
  }

  /** Every step, the reconciler's own or anybody else's, keeps the invariant. */
  lemma StepKeeps(c: Cluster, e: Event, d: Cluster)
    requires Inv(c) && Next(c, e, d)
    ensures Inv(d)
  {
    match e
    case Create(key, spec) => CreateKeeps(c, key, spec, d);
    case EditSpec(key, spec) => StoreSameStatus(c, c.leases[key].(spec := spec));
    case Remove(key) => RemoveKeeps(c, key, d);
    case Compute(view, r, decision) => ComputeKeeps(c, view, r, decision, d);
    case WriteStatus => WriteStatusKeeps(c, d);
    case WriteMetadata => WriteMetadataKeeps(c, d);
    case _ => SameLeasesKeep(c, d);
  }

  lemma SameLeasesKeep(c: Cluster, d: Cluster)
    requires Inv(c) && d.leases == c.leases && d.revision == c.revision
    requires d.stage == c.stage || d.stage.Idle?
            || (d.stage.Got? && d.stage.lease.key in c.leases && d.stage.lease == c.leases[d.stage.lease.key])
    ensures Inv(d)
  {
    forall k | k in d.leases ensures Alone(d, k, d.leases[k].status) {
      assert Alone(c, k, c.leases[k].status);
    }
    if d.stage.Computed? && Current(d, d.stage.lease) {
      assert Alone(c, d.stage.lease.key, d.stage.status);
    }
  }

  lemma InvHolds(c: Cluster, events: seq<Event>, d: Cluster)
    requires Inv(c) && Leads(Next, c, events, d)
    ensures Inv(d)
  {
    forall x, e, y | e in events && Inv(x) && Next(x, e, y) ensures Inv(y) {
      StepKeeps(x, e, y);
    }
    RunKeeps(Next, Inv, c, events, d);
  }

  // ---------------------------------------------------------------- theorems over whole runs

  /** Mutual exclusion in every reachable state: two different leases of one namespace that have not
      ended never name the same exporter. */
  lemma MutualExclusion(init: Cluster, events: seq<Event>, c: Cluster, j: Key, k: Key)
    requires Init(init) && Leads(Next, init, events, c)
    requires j in c.leases && k in c.leases && j != k && j.namespace == k.namespace
    ensures !c.leases[j].status.ended && !c.leases[k].status.ended && c.leases[j].status.exporterRef.Some? ==>
              c.leases[j].status.exporterRef != c.leases[k].status.exporterRef
  {
    InitInv(init);
    InvHolds(init, events, c);
    assert Alone(c, j, c.leases[j].status);
  }

  /** Condition consistency in every reachable state. */
  lemma ConditionConsistency(init: Cluster, events: seq<Event>, c: Cluster, k: Key)
    requires Init(init) && Leads(Next, init, events, c) && k in c.leases
    ensures var s := c.leases[k].status;
            && (IsTrue(s, Ready) <==> s.exporterRef.Some? && !s.ended)
            && (IsTrue(s, Unsatisfiable) || IsTrue(s, Invalid) ==> s.ended && s.exporterRef.None? && s.beginTime.None?)
            && (s.ended <==> s.endTime.Some?)
            && (c.leases[k].endedLabel ==> s.ended)
  {
    InitInv(init);
    InvHolds(init, events, c);
  }

  lemma StepEvolves(c: Cluster, e: Event, d: Cluster, k: Key)
    requires Inv(c) && Next(c, e, d) && k in c.leases
    ensures k in d.leases ==> Evolves(c.leases[k].status, d.leases[k].status)
  {
  }

  /** No lease is created under this name. */
  predicate NotRecreated(events: seq<Event>, k: Key) {
    forall e | e in events :: !(e.Create? && e.key == k)
  }

  lemma StepStaysGone(c: Cluster, e: Event, d: Cluster, k: Key)
    requires Inv(c) && Next(c, e, d) && k !in c.leases && !(e.Create? && e.key == k)
    ensures k !in d.leases
  {
  }

  /** Write-once status over whole runs: from any reachable state on, the exporter of a lease with its
      priority, its begin time and its end time never change once set, and an ended lease does not
      change at all, however many reconciles follow. */
  lemma StatusIsWriteOnce(c: Cluster, events: seq<Event>, d: Cluster, k: Key)
    requires Inv(c) && Leads(Next, c, events, d) && NotRecreated(events, k) && k in c.leases && k in d.leases
    ensures Evolves(c.leases[k].status, d.leases[k].status)
  {
    var inv := (x: Cluster) => Inv(x) && (k in x.leases ==> Evolves(c.leases[k].status, x.leases[k].status));
    forall x, e, y | e in events && inv(x) && Next(x, e, y) ensures inv(y) {
      StepKeeps(x, e, y);
      if k in y.leases {
        if k !in x.leases {
          StepStaysGone(x, e, y, k);
        } else {
          StepEvolves(x, e, y, k);
          EvolvesTransitive(c.leases[k].status, x.leases[k].status, y.leases[k].status);
        }
      }
    }
    RunKeeps(Next, inv, c, events, d);
  }

  // ---------------------------------------------------------------- spot access

  predicate SpotFree(c: Cluster) {
    && (forall k | k in c.leases :: !c.leases[k].status.spotAccess)
    && (c.stage.Got? || c.stage.Written? ==> !c.stage.lease.status.spotAccess)
    && (c.stage.Computed? ==> !c.stage.lease.status.spotAccess && !c.stage.status.spotAccess)
  }

  lemma StepSpotFree(c: Cluster, e: Event, d: Cluster)
    requires Inv(c) && SpotFree(c) && Next(c, e, d)
    ensures SpotFree(d)
  {
    if e.Compute? {
      ComputeSpotFree(c.stage.lease, e.view, e.readings, e.decision);
    } else {
      OtherStepSpotFree(c, e, d);
    }
  }

  lemma OtherStepSpotFree(c: Cluster, e: Event, d: Cluster)
    requires SpotFree(c) && Next(c, e, d) && !e.Compute?
    ensures SpotFree(d)
  {
  }

  lemma ComputeSpotFree(l: LeaseRecord, v: View, r: Readings, d: Decision)
    requires Decides(l, v, r.decide, d) && !l.status.spotAccess
    ensures !NewStatus(l, d, r).spotAccess
  {
    OnlyAssignmentAssigns(l, d, r);
    if d.Chose? && d.choice.Assign? {
      AssignedWithoutSpot(l, v, r.decide, d);
    }
  }

  /** Spot access never leaks: in every reachable state, whatever the policies and their priorities were, no
      lease is held under spot access. */
  lemma SpotNeverLeaks(init: Cluster, events: seq<Event>, c: Cluster)
    requires Init(init) && Leads(Next, init, events, c)
    ensures Inv(c) && SpotFree(c)
  {
    InitInv(init);
    var inv := (x: Cluster) => Inv(x) && SpotFree(x);
    forall x, e, y | e in events && inv(x) && Next(x, e, y) ensures inv(y) {
      StepKeeps(x, e, y);
      StepSpotFree(x, e, y);
    }
    RunKeeps(Next, inv, init, events, c);
  }

  lemma ListedSpotFree(c: Cluster, l: LeaseRecord, v: View)
    requires SpotFree(c) && IsView(c, l, v)
    ensures NoSpotStatus(v.active)
  {
    forall i | 0 <= i < |v.active| ensures !v.active[i].status.spotAccess {
      assert v.active[i] in v.active;
    }
  }

  /** And so no reconcile ever finds an exporter it would have to evict a spot lease from. */
  lemma EvictionUnreachable(init: Cluster, events: seq<Event>, c: Cluster, v: View, now: Time, d: Decision)
    requires Init(init) && Leads(Next, init, events, c)
    requires c.stage.Got? && IsView(c, c.stage.lease, v) && Decides(c.stage.lease, v, now, d)
    ensures !(d.Chose? && d.choice.NeedsEviction?)
  {
    SpotNeverLeaks(init, events, c);
    var l := c.stage.lease;
    if d.Chose? {
      ListedSpotFree(c, l, v);
      NoSpotCandidates(l, v);
      var s := Candidates(ApprovedFor(l, v).value, v.active);
      var ordered :| IsSortOf(ordered, s) && ordered != [] && d.choice == Choose(ordered);
      ChoiceFromFirst(ordered, s);
    }
  }

  /** Order independence in every reachable state: the order in which the objects are listed decides neither
      who waits, is refused or gets an exporter, nor, when the priorities can be subtracted, which one. */
  lemma ListOrderDoesNotMatter(init: Cluster, events: seq<Event>, c: Cluster, v: View, w: View, now: Time,
                               d: Decision, d': Decision)
    requires Init(init) && Leads(Next, init, events, c) && c.stage.Got?
    requires IsView(c, c.stage.lease, v) && Decides(c.stage.lease, v, now, d)
    requires IsView(c, c.stage.lease, w) && Decides(c.stage.lease, w, now, d')
    ensures !d.Chose? || !d'.Chose? ==> d == d'
    ensures d.Chose? && d'.Chose? ==>
              && (d.choice.Assign? <==> d'.choice.Assign?)
              && (d.choice.SpotOnly? <==> d'.choice.SpotOnly?)
              && (d.choice.AllLeased? <==> d'.choice.AllLeased?)
    ensures FreeOffersClose(c.stage.lease, v) && d.Chose? && d.choice.Assign? ==> d == d'
    ensures OffersClose(c.stage.lease, v) ==> d == d'
  {
    SpotNeverLeaks(init, events, c);
    EvictionUnreachable(init, events, c, v, now, d);
    EvictionUnreachable(init, events, c, w, now, d');
    ViewsAgree(c, c.stage.lease, v, w);
    SameVerdict(c.stage.lease, v, w, now, d, d');
    if FreeOffersClose(c.stage.lease, v) && d.Chose? && d.choice.Assign? {
      SameAssignment(c.stage.lease, v, w, now, d, d');
    }
    if OffersClose(c.stage.lease, v) {
      ListedSpotFree(c, c.stage.lease, v);
      OrderIndependent(c.stage.lease, v, w, now, d, d');
    }
  }

  lemma ViewsAgree(c: Cluster, l: LeaseRecord, v: View, w: View)
    requires IsView(c, l, v) && IsView(c, l, w)
    ensures SameObjects(v, w)
  {
  }

  // ---------------------------------------------------------------- why the assumption on reads matters

  const BOARD := Exporter(Key("ns", "e"), map["board" := "a"], true, true, None)

  /** A lease that wants a board and has just been created. */
  function WantsBoard(name: string, version: nat): LeaseRecord {
    var selector := LabelSelector(map["board" := "a"], []);
    LeaseRecord(Key("ns", name), LeaseSpec("client", Times(None, None, Some(10)), selector, false), NEW_STATUS,
                false, None, version)
  }

  /** With one free exporter and two leases that match it, reconciling both against the same active
      list, that is, with the second reading a list from before the first one's write, gives both the
      same exporter, and neither ends. */
  lemma StaleListDoubleAssigns(d: Decision, d': Decision)
    requires var one, two := WantsBoard("one", 1), WantsBoard("two", 2);
             var stale := View([BOARD], [], None, [one, two]);
             Decides(one, stale, 0, d) && Decides(two, stale, 0, d')
    ensures var now := Readings(0, 0, 0, 0);
            var s, s' := NewStatus(WantsBoard("one", 1), d, now), NewStatus(WantsBoard("two", 2), d', now);
            Holding(s) && Holding(s') && s.exporterRef == s'.exporterRef == Some("e")
  {
    var one, two := WantsBoard("one", 1), WantsBoard("two", 2);
    var stale := View([BOARD], [], None, [one, two]);
    OnlyExporterAssigned(one, stale, BOARD, 0, d);
    OnlyExporterAssigned(two, stale, BOARD, 0, d');
  }

  lemma OnlyExporterAssigned(l: LeaseRecord, v: View, e: Exporter, now: Time, d: Decision)
    requires v.exporters == [e] && v.policies == [] && e.registered && e.online && !Leased(v, e)
    requires Seeking(l, v, now) && Matches(l.spec.selector, e.labels) && Decides(l, v, now, d)
    ensures d == Chose(Assign(e.key.name, 0, false))
  {
    assert FreeOffer(l, v, e, DEFAULT_POLICY);
    ExactOutcome(l, v, now, d);
    var best, p := OptimalAssignment(l, v, now, d);
    assert best == e;
  }
}
