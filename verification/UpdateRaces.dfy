/**
 An update of a lease that waits for an exporter, and an assignment of that lease between the read and the
 patch of the update: exactly which updates such an assignment cannot bring off schedule.
 */
module UpdateRaces {
  import opened Options
  import opened Runs
  import opened Identifiers
  import opened LabelSelectors
  import opened LeaseTimes
  import opened LeaseTypes
  import opened Scheduling
  import opened LeaseReconciler
  import opened Verdicts
  import opened ClientRpc
  import opened ClusterModel
  import opened RpcRuns

  /** Nobody else edits the lease, and its name is not given out again. */
  predicate Undisturbed(events: seq<Event>, k: Key) {
    forall e | e in events :: !((e.Create? || e.EditSpec?) && e.key == k)
  }

  predicate Waiting(c: Cluster, k: Key) {
    k in c.leases && c.leases[k].status.exporterRef.None?
  }

  /** If the lease has begun, it did not begin before the begin it asks for. */
  predicate Respected(l: LeaseRecord) {
    l.spec.times.begin.Some? && l.status.exporterRef.Some? && l.status.beginTime.Some? ==>
      l.status.beginTime.value >= l.spec.times.begin.value
  }

  function Later(begin: Option<Time>, now: Time): Time {
    if begin.Some? && begin.value > now then begin.value else now
  }

  /** The earliest instant a reconcile that starts now can begin the lease at. */
  function NextBegin(c: Cluster, k: Key): Time
    requires k in c.leases
  {
    Later(c.leases[k].spec.times.begin, c.now)
  }

  /** An assignment of the lease is computed and will be written if nothing intervenes. */
  predicate InFlight(c: Cluster, k: Key) {
    && c.stage.Computed? && c.stage.lease.key == k && Current(c, c.stage.lease)
    && c.stage.status.exporterRef.Some? && c.stage.status.beginTime.Some?
  }

  /** The earliest instant a waiting lease can begin at. */
  function EarliestBegin(c: Cluster, k: Key): Time
    requires k in c.leases
  {
    if InFlight(c, k) && c.stage.status.beginTime.value < NextBegin(c, k) then c.stage.status.beginTime.value
    else NextBegin(c, k)
  }

  // ---------------------------------------------------------------- no earlier

  predicate BegunFrom(s: LeaseStatus, earliest: Time) {
    s.exporterRef.Some? && s.beginTime.Some? ==> s.beginTime.value >= earliest
  }

  /** The lease as `spec` describes it, begun at `earliest` or later if at all, in the store and on its way there. */
  predicate BeginsFrom(c: Cluster, k: Key, spec: LeaseSpec, earliest: Time) {
    && (k in c.leases ==> c.leases[k].spec == spec && BegunFrom(c.leases[k].status, earliest))
    && (c.stage.Computed? && c.stage.lease.key == k && Current(c, c.stage.lease) ==>
          BegunFrom(c.stage.status, earliest))
  }

  lemma ComputedBeginsFrom(c: Cluster, e: Event, d: Cluster, k: Key, spec: LeaseSpec, from: Time, earliest: Time)
    requires Inv(c) && Next(c, e, d) && e.Compute? && BeginsFrom(c, k, spec, earliest) && from <= c.now
    requires earliest <= Later(spec.times.begin, from)
    ensures BeginsFrom(d, k, spec, earliest)
  {
    var l := c.stage.lease;
    if l.key == k && Current(c, l) {
      DecidesTimely(l, e.view, e.readings.decide, e.decision);
      ReconcileCoherent(l, e.decision, e.readings);
      if l.status.exporterRef.None? && d.stage.status.exporterRef.Some? {
        AssignmentBegins(l, e.decision, e.readings);
      }
    }
  }

  /** A lease that gets its exporter in a reconcile begins at the second reading of the clock, and not before the
      begin it asks for. */
  lemma AssignmentBegins(l: LeaseRecord, d: Decision, r: Readings)
    requires Coherent(l.status) && Timely(l, r.decide, d) && InOrder(r)
    requires l.status.exporterRef.None? && NewStatus(l, d, r).exporterRef.Some?
    ensures NewStatus(l, d, r).beginTime == Some(r.begin)
    ensures l.spec.times.begin.Some? ==> l.spec.times.begin.value <= r.begin
  {
    var decided := Decided(l.status, d);
    assert Begun(decided, r.begin).beginTime == Some(r.begin) || decided.exporterRef.None?;
    OnlyAssignmentAssigns(l, d, r);
  }

  lemma WriteStatusBeginsFrom(c: Cluster, d: Cluster, k: Key, spec: LeaseSpec, earliest: Time)
    requires Inv(c) && Next(c, WriteStatus, d) && BeginsFrom(c, k, spec, earliest)
    ensures BeginsFrom(d, k, spec, earliest)
  {
    var l := c.stage.lease;
    if Current(c, l) {
      assert c.leases[l.key] == l;
      assert l.key != k && k in c.leases ==> d.leases[k] == c.leases[k];
    } else {
      assert d.leases == c.leases;
    }
  }

  lemma WriteMetadataBeginsFrom(c: Cluster, d: Cluster, k: Key, spec: LeaseSpec, earliest: Time)
    requires Inv(c) && Next(c, WriteMetadata, d) && BeginsFrom(c, k, spec, earliest)
    ensures BeginsFrom(d, k, spec, earliest)
  {
    var l := c.stage.lease;
    if OwnerSettable(c, l) && Current(c, l) {
      assert c.leases[l.key] == l;
      assert l.key != k && k in c.leases ==> d.leases[k] == c.leases[k];
    } else {
      assert d.leases == c.leases;
    }
  }

  lemma QuietStepBeginsFrom(c: Cluster, e: Event, d: Cluster, k: Key, spec: LeaseSpec, earliest: Time)
    requires Inv(c) && Next(c, e, d) && !e.Compute? && !e.WriteStatus? && !e.WriteMetadata?
    requires !((e.Create? || e.EditSpec?) && e.key == k) && BeginsFrom(c, k, spec, earliest)
    ensures BeginsFrom(d, k, spec, earliest)
  {
    assert k in d.leases ==> k in c.leases && d.leases[k] == c.leases[k];
  }

  /** Whatever happens meanwhile, a waiting lease that nobody edits begins at its earliest begin or later. */
  lemma NeverEarlier(c: Cluster, events: seq<Event>, d: Cluster, k: Key)
    requires Inv(c) && Waiting(c, k) && Leads(Next, c, events, d) && Undisturbed(events, k) && k in d.leases
    ensures d.leases[k].spec == c.leases[k].spec
    ensures BegunFrom(d.leases[k].status, EarliestBegin(c, k))
  {
    var spec, earliest := c.leases[k].spec, EarliestBegin(c, k);
    var inv := (x: Cluster) => Inv(x) && c.now <= x.now && BeginsFrom(x, k, spec, earliest);
    forall x, e, y | e in events && inv(x) && Next(x, e, y) ensures inv(y) {
      StepKeeps(x, e, y);
      ClockGoesOn(x, e, y);
      if e.Compute? {
        ComputedBeginsFrom(x, e, y, k, spec, c.now, earliest);
      } else if e.WriteStatus? {
        WriteStatusBeginsFrom(x, y, k, spec, earliest);
      } else if e.WriteMetadata? {
        WriteMetadataBeginsFrom(x, y, k, spec, earliest);
      } else {
        QuietStepBeginsFrom(x, e, y, k, spec, earliest);
      }
    }
    RunKeeps(Next, inv, c, events, d);
  }

  lemma ClockGoesOn(c: Cluster, e: Event, d: Cluster)
    requires Next(c, e, d)
    ensures c.now <= d.now
  {
  }

  // ---------------------------------------------------------------- as early as that

  /** The lease can get an exporter if there is one for it. */
  ghost predicate Assignable(l: LeaseRecord) {
    && !l.status.ended && l.status.exporterRef.None?
    && Convertible(l.spec.selector) && !Empty(l.spec.selector)
    && exists labels: Labels :: Matches(l.spec.selector, labels)
  }

  lemma LongerThanAll(names: set<string>) returns (n: nat)
    ensures forall s | s in names :: |s| < n
  {
    if names == {} {
      n := 0;
    } else {
      var s :| s in names;
      n := LongerThanAll(names - {s});
      if |s| >= n {
        n := |s| + 1;
      }
      assert forall t | t in names :: t == s || t in names - {s};
    }
  }

  lemma FreshName(names: set<string>) returns (name: string)
    ensures name !in names
  {
    var n := LongerThanAll(names);
    name := seq(n, _ => 'x');
  }

  /** Every store can be listed. */
  lemma SomeListing<T(!new)>(m: map<Key, T>, namespace: string, keep: T -> bool) returns (s: seq<T>)
    ensures Lists(s, m, namespace, keep)
    decreases |m|
  {
    if m == map[] {
      s := [];
    } else {
      var k :| k in m;
      var rest := m - {k};
      s := SomeListing(rest, namespace, keep);
      var all := if k.namespace == namespace && keep(m[k]) then s + [m[k]] else s;
      forall x ensures x in all <==> exists j :: j in m && j.namespace == namespace && m[j] == x && keep(x) {
        assert forall j | j in m :: j == k || j in rest;
      }
      s := all;
    }
  }

  /** A lease that is looking gets some decision. */
  lemma SomeDecision(l: LeaseRecord, v: View, now: Time) returns (d: Decision)
    requires Seeking(l, v, now)
    ensures Decides(l, v, now, d)
  {
    var approved := ApprovedFor(l, v).value;
    if approved == [] {
      d := NoAccess;
    } else if Without(approved, Offline) == [] {
      d := NoneOnline;
    } else {
      var s := Candidates(approved, v.active);
      var ordered := SomeSort(Compare, s);
      assert |ordered| == |multiset(ordered)| == |multiset(s)| == |s|;
      assert Chosen(s, Choose(ordered));
      d := Chose(Choose(ordered));
    }
  }

  /** An exporter for the lease that nobody holds. */
  lemma SomeFreeExporter(c: Cluster, k: Key) returns (e: Exporter)
    requires k in c.leases && Assignable(c.leases[k])
    ensures Matches(c.leases[k].spec.selector, e.labels) && e.registered && e.online && e.key.namespace == k.namespace
    ensures forall j | j in c.leases :: !Holds(c.leases[j], e.key.name)
  {
    var labels: Labels :| Matches(c.leases[k].spec.selector, labels);
    var held := set j | j in c.leases && c.leases[j].status.exporterRef.Some? :: c.leases[j].status.exporterRef.value;
    var name := FreshName(held);
    e := Exporter(Key(k.namespace, name), labels, true, true, None);
    forall j | j in c.leases ensures !Holds(c.leases[j], name) {
      if c.leases[j].status.exporterRef.Some? {
        assert c.leases[j].status.exporterRef.value in held;
      }
    }
  }

  /** With such an exporter as the only one, a reconcile of the lease at `now` assigns it. */
  lemma ComputeAssigns(c: Cluster, k: Key, e: Exporter, now: Time) returns (v: View, d: Decision)
    requires Inv(c) && k in c.leases && c.stage == Got(c.leases[k]) && Assignable(c.leases[k]) && c.now <= now
    requires c.leases[k].spec.times.begin.Some? ==> c.leases[k].spec.times.begin.value <= now
    requires c.exporters == map[e.key := e] && c.policies == map[] && e.key.namespace == k.namespace
    requires Matches(c.leases[k].spec.selector, e.labels) && e.registered && e.online
    requires forall j | j in c.leases :: !Holds(c.leases[j], e.key.name)
    ensures IsView(c, c.leases[k], v) && Decides(c.leases[k], v, now, d)
    ensures d == Chose(Assign(e.key.name, 0, false))
  {
    var l := c.leases[k];
    assert l.key == k;
    var active := SomeListing(c.leases, k.namespace, Active);
    var clientKey := Key(k.namespace, l.spec.clientRef);
    v := View([e], [], if clientKey in c.clients then Some(c.clients[clientKey]) else None, active);
    assert Lists(v.exporters, c.exporters, k.namespace, Anything) by {
      assert forall x :: x in v.exporters ==> e.key in c.exporters && c.exporters[e.key] == x;
    }
    d := SomeDecision(l, v, now);
    OnlyExporterAssigned(l, v, e, now, d);
  }

  /** The steps up to the read: the running reconcile is dropped, the clock moves on, and there is one exporter. */
  lemma PrepareRead(c: Cluster, k: Key, now: Time, e: Exporter) returns (events: seq<Event>, d: Cluster)
    requires k in c.leases && c.now <= now
    ensures Leads(Next, c, events, d) && Undisturbed(events, k)
    ensures d == c.(now := now, exporters := map[e.key := e], policies := map[], stage := Got(c.leases[k]))
  {
    var c1 := c.(stage := Idle);
    var c2 := c1.(now := now);
    var c3 := c2.(exporters := map[e.key := e], policies := map[]);
    d := c3.(stage := Got(c.leases[k]));
    LeadsOn(Next, c, [], c, Crash, c1);
    LeadsOn(Next, c, [] + [Crash], c1, Tick(now), c2);
    var change := ChangeWorld(map[e.key := e], map[], c.clients);
    LeadsOn(Next, c, [] + [Crash] + [Tick(now)], c2, change, c3);
    LeadsOn(Next, c, [] + [Crash] + [Tick(now)] + [change], c3, Get(k), d);
    events := [] + [Crash] + [Tick(now)] + [change] + [Get(k)];
  }

  /** The compute and the write of an assignment. */
  lemma AssignAndWrite(c: Cluster, k: Key, e: Exporter) returns (compute: Event, m: Cluster, d: Cluster)
    requires Inv(c) && k in c.leases && c.stage == Got(c.leases[k]) && Assignable(c.leases[k])
    requires c.leases[k].spec.times.begin.Some? ==> c.leases[k].spec.times.begin.value <= c.now
    requires c.exporters == map[e.key := e] && c.policies == map[] && e.key.namespace == k.namespace
    requires Matches(c.leases[k].spec.selector, e.labels) && e.registered && e.online
    requires forall j | j in c.leases :: !Holds(c.leases[j], e.key.name)
    ensures compute.Compute? && Next(c, compute, m) && Next(m, WriteStatus, d)
    ensures k in d.leases && d.leases[k].spec == c.leases[k].spec
    ensures d.leases[k].status.exporterRef.Some? && d.leases[k].status.beginTime == Some(c.now)
  {
    var l := c.leases[k];
    assert l.key == k;
    var v, decision := ComputeAssigns(c, k, e, c.now);
    var r := Readings(c.now, c.now, c.now, c.now);
    compute := Compute(v, r, decision);
    DecidesTimely(l, v, c.now, decision);
    OnlyAssignmentAssigns(l, decision, r);
    AssignmentBegins(l, decision, r);
    m := c.(stage := Computed(l, NewStatus(l, decision, r), NewRequeue(l, decision, r)));
    d := AfterWriteStatus(m);
  }

  /** A waiting lease can begin as early as that. */
  lemma ThatEarly(c: Cluster, k: Key) returns (events: seq<Event>, d: Cluster)
    requires Inv(c) && Waiting(c, k) && Assignable(c.leases[k])
    ensures Leads(Next, c, events, d) && Undisturbed(events, k) && k in d.leases
    ensures d.leases[k].spec == c.leases[k].spec && d.leases[k].status.exporterRef.Some?
    ensures d.leases[k].status.beginTime == Some(EarliestBegin(c, k))
  {
    if InFlight(c, k) && c.stage.status.beginTime.value < NextBegin(c, k) {
      d := AfterWriteStatus(c);
      LeadsOn(Next, c, [], c, WriteStatus, d);
      events := [] + [WriteStatus];
    } else {
      events, d := BeginsAtOnce(c, k);
    }
  }

  lemma BeginsAtOnce(c: Cluster, k: Key) returns (events: seq<Event>, d: Cluster)
    requires Inv(c) && Waiting(c, k) && Assignable(c.leases[k])
    ensures Leads(Next, c, events, d) && Undisturbed(events, k) && k in d.leases
    ensures d.leases[k].spec == c.leases[k].spec && d.leases[k].status.exporterRef.Some?
    ensures d.leases[k].status.beginTime == Some(NextBegin(c, k))
  {
    var e := SomeFreeExporter(c, k);
    var read, m, compute;
    events, read := PrepareRead(c, k, NextBegin(c, k), e);
    InvHolds(c, events, read);
    compute, m, d := AssignAndWrite(read, k, e);
    LeadsOn(Next, c, events, read, compute, m);
    LeadsOn(Next, c, events + [compute], m, WriteStatus, d);
    events := events + [compute] + [WriteStatus];
  }

  // ---------------------------------------------------------------- the exact condition

  /** The edit leaves the begin, or asks for one no later than the earliest instant the lease can begin at: the
      larger of the clock and the stored begin, unless a reconcile in flight is about to begin it sooner. */
  predicate BeginInTime(c: Cluster, k: Key, edited: LeaseSpec)
    requires k in c.leases
  {
    BeginBy(c.leases[k].spec, edited, EarliestBegin(c, k))
  }

  predicate BeginBy(read: LeaseSpec, edited: LeaseSpec, latest: Time) {
    edited.times.begin == read.times.begin || (edited.times.begin.Some? && edited.times.begin.value <= latest)
  }

  /** The lease `now` after the patch of an edit of what was read. */
  function PatchedLease(read: LeaseSpec, edited: LeaseSpec, now: LeaseRecord): LeaseRecord {
    now.(spec := MergePatch(read, edited, now.spec))
  }

  /** For any update and any lease that got its exporter since the read, with the specification that was read: the
      patch keeps the schedule if and only if the update leaves the begin or asks for one that was respected. */
  lemma RaceSafeExactlyWhen(read: LeaseRecord, edited: LeaseSpec, now: LeaseRecord)
    requires RpcEdit(read, edited) && now.spec == read.spec && Respected(now)
    requires now.status.exporterRef.Some? && now.status.beginTime.Some?
    ensures Respected(PatchedLease(read.spec, edited, now)) <==> BeginBy(read.spec, edited, now.status.beginTime.value)
    ensures BeginBy(read.spec, edited, now.status.beginTime.value) <==> BeginSafe(read.spec, edited, now)
  {
    RpcEditKeeps(read, edited);
  }

  /** The earliest begin is no earlier than the one asked for, as an assignment in flight respects that. */
  lemma NotBeforeRequest(c: Cluster, k: Key)
    requires Inv(c) && StageOnSchedule(c) && Waiting(c, k) && c.leases[k].spec.times.begin.Some?
    ensures EarliestBegin(c, k) >= c.leases[k].spec.times.begin.value
  {
  }

  lemma LaterIsSafe(read: LeaseRecord, edited: LeaseSpec, now: LeaseRecord, earliest: Time)
    requires RpcEdit(read, edited) && now.spec == read.spec && BeginBy(read.spec, edited, earliest)
    requires BegunFrom(now.status, earliest)
    requires read.spec.times.begin.Some? ==> earliest >= read.spec.times.begin.value
    ensures Respected(PatchedLease(read.spec, edited, now)) && BeginSafe(read.spec, edited, now)
  {
  }

  lemma InTimeIsSafe(c: Cluster, k: Key, edited: LeaseSpec, events: seq<Event>, d: Cluster)
    requires Inv(c) && StageOnSchedule(c) && Waiting(c, k)
    requires RpcEdit(c.leases[k], edited) && BeginInTime(c, k, edited)
    requires Leads(Next, c, events, d) && Undisturbed(events, k) && k in d.leases
    ensures Respected(PatchedLease(c.leases[k].spec, edited, d.leases[k]))
    ensures BeginSafe(c.leases[k].spec, edited, d.leases[k])
  {
    NeverEarlier(c, events, d, k);
    if c.leases[k].spec.times.begin.Some? {
      NotBeforeRequest(c, k);
    }
    LaterIsSafe(c.leases[k], edited, d.leases[k], EarliestBegin(c, k));
  }

  /** An update that is not in time can meet an assignment whose schedule its patch breaks. */
  lemma LateIsUnsafe(c: Cluster, k: Key, edited: LeaseSpec) returns (events: seq<Event>, d: Cluster)
    requires Inv(c) && Waiting(c, k) && Assignable(c.leases[k])
    requires RpcEdit(c.leases[k], edited) && !BeginInTime(c, k, edited)
    ensures Leads(Next, c, events, d) && Undisturbed(events, k) && k in d.leases
    ensures !Respected(PatchedLease(c.leases[k].spec, edited, d.leases[k]))
  {
    RpcEditKeeps(c.leases[k], edited);
    events, d := ThatEarly(c, k);
  }

  /** Whatever happens to the lease between a read in `c` and a patch of `edited`, it stays on schedule. */
  ghost predicate SafeFrom(c: Cluster, k: Key, edited: LeaseSpec)
    requires k in c.leases
  {
    forall events, d | Leads(Next, c, events, d) && Undisturbed(events, k) && k in d.leases ::
      Respected(PatchedLease(c.leases[k].spec, edited, d.leases[k]))
  }

  /** An update of a waiting lease, in any reachable state, is safe against every assignment between its read and
      its patch if and only if it leaves the begin or asks for one in time. */
  lemma UpdateSafeExactlyWhen(init: Cluster, past: seq<Event>, c: Cluster, k: Key, caller: string, req: UpdateRequest)
    requires Init(init) && Leads(Next, init, past, c) && Waiting(c, k) && Assignable(c.leases[k])
    requires UpdatedSpec(c.leases[k], caller, c.clients.Keys, req).Ok?
    ensures var edited := UpdatedSpec(c.leases[k], caller, c.clients.Keys, req).value;
            SafeFrom(c, k, edited) <==> BeginInTime(c, k, edited)
  {
    var edited := UpdatedSpec(c.leases[k], caller, c.clients.Keys, req).value;
    InitInv(init);
    InvHolds(init, past, c);
    StageStaysOnSchedule(init, past, c);
    if BeginInTime(c, k, edited) {
      forall events, d | Leads(Next, c, events, d) && Undisturbed(events, k) && k in d.leases
        ensures Respected(PatchedLease(c.leases[k].spec, edited, d.leases[k]))
      {
        InTimeIsSafe(c, k, edited, events, d);
      }
    } else {
      var events, d := LateIsUnsafe(c, k, edited);
    }
  }

  /** So the patch of an update that was in time is one of the steps over which a scheduled start is respected. */
  lemma InTimeIsScheduleStep(init: Cluster, past: seq<Event>, c: Cluster, k: Key, edited: LeaseSpec,
                             events: seq<Event>, d: Cluster, after: Cluster)
    requires Init(init) && Leads(Next, init, past, c) && Waiting(c, k)
    requires RpcEdit(c.leases[k], edited) && BeginInTime(c, k, edited)
    requires Leads(Next, c, events, d) && Undisturbed(events, k) && k in d.leases
    requires Next(d, EditSpec(k, MergePatch(c.leases[k].spec, edited, d.leases[k].spec)), after)
    ensures ScheduleNext(d, EditSpec(k, MergePatch(c.leases[k].spec, edited, d.leases[k].spec)), after)
  {
    InitInv(init);
    InvHolds(init, past, c);
    StageStaysOnSchedule(init, past, c);
    InTimeIsSafe(c, k, edited, events, d);
    assert IsPatch(c.leases[k], edited, d.leases[k], MergePatch(c.leases[k].spec, edited, d.leases[k].spec));
  }
}
