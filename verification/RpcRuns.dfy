/**
 Time fields and scheduled starts over runs in which leases are edited by the client RPCs alone. An RPC reads
 a lease, edits what it read and patches the fields it changed onto the lease as it is by then; anything may
 happen in between.
 */
module RpcRuns {
  import opened Options
  import opened Runs
  import opened Identifiers
  import opened LabelSelectors
  import opened LeaseTimes
  import opened LeaseTypes
  import opened Scheduling
  import opened LeaseReconciler
  import opened ClientRpc
  import opened ClusterModel

  // ---------------------------------------------------------------- edits

  /** Some client read the lease `read`, made `edited` of it, and its patch makes `spec` of the lease `now`. */
  ghost predicate IsPatch(read: LeaseRecord, edited: LeaseSpec, now: LeaseRecord, spec: LeaseSpec) {
    RpcEdit(read, edited) && spec == MergePatch(read.spec, edited, now.spec)
  }

  /** The edit changed none or all of the time fields, or they are still those it was made for. */
  predicate TimesSafe(read: LeaseSpec, edited: LeaseSpec, now: LeaseSpec) {
    ChangesNoneOrAll(read.times, edited.times) || now.times == read.times
  }

  /** The edit leaves the begin of a lease that is assigned by now, or asks for one it has respected. */
  predicate BeginSafe(read: LeaseSpec, edited: LeaseSpec, now: LeaseRecord) {
    now.status.exporterRef.Some? && now.status.beginTime.Some? && edited.times.begin != read.times.begin ==>
      edited.times.begin.Some? && edited.times.begin.value <= now.status.beginTime.value
  }

  /** The edit leaves the begin of a lease that is assigned by now. */
  predicate BeginLeft(read: LeaseSpec, edited: LeaseSpec, now: LeaseRecord) {
    now.status.exporterRef.Some? && now.spec.times.begin.Some? ==> edited.times.begin == read.times.begin
  }

  /** Steps in which every edit is a patch that is safe for the time fields. */
  ghost predicate TimesNext(c: Cluster, e: Event, d: Cluster) {
    && Next(c, e, d)
    && (e.EditSpec? ==> exists read, edited ::
          IsPatch(read, edited, c.leases[e.key], e.spec) && TimesSafe(read.spec, edited, c.leases[e.key].spec))
  }

  /** Steps in which every edit is a patch that is safe for the begin. */
  ghost predicate ScheduleNext(c: Cluster, e: Event, d: Cluster) {
    && Next(c, e, d)
    && (e.EditSpec? ==> exists read, edited ::
          && IsPatch(read, edited, c.leases[e.key], e.spec)
          && (c.leases[e.key].spec.times.begin.Some? ==> BeginSafe(read.spec, edited, c.leases[e.key])))
  }

  /** Steps in which every edit is a patch that leaves the begin of an assigned lease. */
  ghost predicate BeginNext(c: Cluster, e: Event, d: Cluster) {
    && Next(c, e, d)
    && (e.EditSpec? ==> exists read, edited ::
          IsPatch(read, edited, c.leases[e.key], e.spec) && BeginLeft(read.spec, edited, c.leases[e.key]))
  }

  /** Steps in which every edit is an RPC with nothing between its read and its patch. */
  ghost predicate RpcNext(c: Cluster, e: Event, d: Cluster) {
    Next(c, e, d) && (e.EditSpec? ==> RpcEdit(c.leases[e.key], e.spec))
  }

  /** An RPC that nothing disturbs is safe in every respect. */
  lemma UndisturbedIsSafe(c: Cluster, e: Event, d: Cluster)
    requires RpcNext(c, e, d)
    ensures TimesNext(c, e, d) && BeginNext(c, e, d)
  {
    if e.EditSpec? {
      var now := c.leases[e.key];
      RpcEditKeeps(now, e.spec);
      assert IsPatch(now, e.spec, now, e.spec) && TimesSafe(now.spec, e.spec, now.spec);
      assert BeginLeft(now.spec, e.spec, now);
    }
  }

  lemma UndisturbedRunsAreSafe(c: Cluster, events: seq<Event>, d: Cluster)
    requires Leads(RpcNext, c, events, d)
    ensures Leads(TimesNext, c, events, d) && Leads(BeginNext, c, events, d)
  {
    forall x, e, y | RpcNext(x, e, y) ensures TimesNext(x, e, y) && BeginNext(x, e, y) {
      UndisturbedIsSafe(x, e, y);
    }
    MoreSteps(RpcNext, TimesNext, c, events, d);
    MoreSteps(RpcNext, BeginNext, c, events, d);
  }

  // ---------------------------------------------------------------- scheduled starts

  /** The lease asks for a begin, and if it has begun it did not begin before that. */
  predicate OnSchedule(l: LeaseRecord) {
    && l.spec.times.begin.Some?
    && (l.status.exporterRef.Some? && l.status.beginTime.Some? ==> l.status.beginTime.value >= l.spec.times.begin.value)
  }

  /** The same for an assignment that is computed and not yet written. */
  predicate StageOnSchedule(c: Cluster) {
    c.stage.Computed? && c.stage.lease.status.exporterRef.None? && c.stage.status.exporterRef.Some?
      && c.stage.lease.spec.times.begin.Some? ==>
      c.stage.status.beginTime.Some? && c.stage.status.beginTime.value >= c.stage.lease.spec.times.begin.value
  }

  lemma StepStageOnSchedule(c: Cluster, e: Event, d: Cluster)
    requires Inv(c) && StageOnSchedule(c) && Next(c, e, d)
    ensures StageOnSchedule(d)
  {
    if e.Compute? {
      var l := c.stage.lease;
      DecidesTimely(l, e.view, e.readings.decide, e.decision);
      if d.stage.status.exporterRef.Some? && l.status.exporterRef.None? && l.spec.times.begin.Some? {
        BeginsAfterRequest(l, e.decision, e.readings);
      }
    }
  }

  lemma StageStaysOnSchedule(c: Cluster, events: seq<Event>, d: Cluster)
    requires Inv(c) && StageOnSchedule(c) && Leads(Next, c, events, d)
    ensures StageOnSchedule(d)
  {
    var inv := (x: Cluster) => Inv(x) && StageOnSchedule(x);
    forall x, e, y | e in events && inv(x) && Next(x, e, y) ensures inv(y) {
      StepKeeps(x, e, y);
      StepStageOnSchedule(x, e, y);
    }
    RunKeeps(Next, inv, c, events, d);
  }

  lemma StepOnSchedule(c: Cluster, e: Event, d: Cluster, k: Key)
    requires Inv(c) && StageOnSchedule(c) && ScheduleNext(c, e, d) && k in c.leases && k in d.leases
    requires OnSchedule(c.leases[k])
    ensures OnSchedule(d.leases[k])
  {
    if e.EditSpec? {
      EditOnSchedule(c, e.key, e.spec, d, k);
    } else {
      OtherStepOnSchedule(c, e, d, k);
    }
  }

  lemma EditOnSchedule(c: Cluster, key: Key, spec: LeaseSpec, d: Cluster, k: Key)
    requires Inv(c) && ScheduleNext(c, EditSpec(key, spec), d) && k in c.leases && OnSchedule(c.leases[k])
    ensures k in d.leases && OnSchedule(d.leases[k])
  {
    if key == k {
      var read, edited :|
        && IsPatch(read, edited, c.leases[k], spec)
        && (c.leases[k].spec.times.begin.Some? ==> BeginSafe(read.spec, edited, c.leases[k]));
      PatchOnSchedule(read, edited, c.leases[k]);
    }
  }

  /** A lease that is on schedule when a patch meets it stays so if and only if the patch is safe for the begin. */
  lemma PatchOnSchedule(read: LeaseRecord, edited: LeaseSpec, now: LeaseRecord)
    requires RpcEdit(read, edited) && OnSchedule(now)
    ensures OnSchedule(now.(spec := MergePatch(read.spec, edited, now.spec))) <==> BeginSafe(read.spec, edited, now)
  {
    RpcEditKeeps(read, edited);
  }

  lemma OtherStepOnSchedule(c: Cluster, e: Event, d: Cluster, k: Key)
    requires Inv(c) && StageOnSchedule(c) && Next(c, e, d) && !e.EditSpec? && k in c.leases && k in d.leases
    requires OnSchedule(c.leases[k])
    ensures OnSchedule(d.leases[k]) && d.leases[k].spec == c.leases[k].spec
  {
  }

  /** The lease as it was at `before`, further on: if it was assigned, neither begin has moved. */
  predicate BeginsFrozen(before: LeaseRecord, after: LeaseRecord) {
    before.status.exporterRef.Some? ==>
      && after.status.exporterRef.Some?
      && after.spec.times.begin == before.spec.times.begin && after.status.beginTime == before.status.beginTime
  }

  /** Once a lease asks for a begin, it never begins earlier, over every run of reconciles and of RPCs whose patches
      are safe for the begin; and from its assignment on the actual begin does not move. */
  lemma ScheduleSurvivesPatches(c: Cluster, events: seq<Event>, d: Cluster, k: Key)
    requires Inv(c) && StageOnSchedule(c) && Leads(ScheduleNext, c, events, d) && NotRecreated(events, k)
    requires k in c.leases && k in d.leases && OnSchedule(c.leases[k])
    ensures OnSchedule(d.leases[k]) && Evolves(c.leases[k].status, d.leases[k].status)
  {
    var inv := (x: Cluster) =>
      && Inv(x) && StageOnSchedule(x)
      && (k in x.leases ==> OnSchedule(x.leases[k]) && Evolves(c.leases[k].status, x.leases[k].status));
    forall x, e, y | e in events && inv(x) && ScheduleNext(x, e, y) ensures inv(y) {
      StepKeeps(x, e, y);
      StepStageOnSchedule(x, e, y);
      if k in y.leases {
        if k !in x.leases {
          StepStaysGone(x, e, y, k);
        } else {
          StepEvolves(x, e, y, k);
          EvolvesTransitive(c.leases[k].status, x.leases[k].status, y.leases[k].status);
          StepOnSchedule(x, e, y, k);
        }
      }
    }
    RunKeeps(ScheduleNext, inv, c, events, d);
  }

  lemma StepLeavesBegin(c: Cluster, e: Event, d: Cluster, k: Key)
    requires Inv(c) && BeginNext(c, e, d) && k in c.leases && k in d.leases
    ensures ScheduleNext(c, e, d)
    ensures c.leases[k].spec.times.begin.Some? && c.leases[k].status.exporterRef.Some? ==>
              d.leases[k].spec.times.begin == c.leases[k].spec.times.begin
  {
    if e.EditSpec? {
      var now := c.leases[e.key];
      var read, edited :| IsPatch(read, edited, now, e.spec) && BeginLeft(read.spec, edited, now);
      assert c.leases[e.key].spec.times.begin.Some? ==> BeginSafe(read.spec, edited, c.leases[e.key]);
    } else {
      StepTimesSame(c, e, d, k);
    }
  }

  /** The scheduled start is respected: once a lease asks for a begin, it never begins earlier, and from its
      assignment on neither the requested nor the actual begin moves, over every run of reconciles and of RPCs
      whose patches leave the begin of an assigned lease; RPCs that nothing disturbs always do. */
  lemma ScheduledStartRespected(c: Cluster, events: seq<Event>, d: Cluster, k: Key)
    requires Inv(c) && StageOnSchedule(c) && Leads(BeginNext, c, events, d) && NotRecreated(events, k)
    requires k in c.leases && k in d.leases && OnSchedule(c.leases[k])
    ensures OnSchedule(d.leases[k]) && BeginsFrozen(c.leases[k], d.leases[k])
  {
    var inv := (x: Cluster) =>
      && Inv(x) && StageOnSchedule(x)
      && (k in x.leases ==> OnSchedule(x.leases[k]) && BeginsFrozen(c.leases[k], x.leases[k]));
    forall x, e, y | e in events && inv(x) && BeginNext(x, e, y) ensures inv(y) {
      StepKeeps(x, e, y);
      StepStageOnSchedule(x, e, y);
      if k in y.leases {
        if k !in x.leases {
          StepStaysGone(x, e, y, k);
        } else {
          StepEvolves(x, e, y, k);
          StepLeavesBegin(x, e, y, k);
          StepOnSchedule(x, e, y, k);
        }
      }
    }
    RunKeeps(BeginNext, inv, c, events, d);
  }

  // ---------------------------------------------------------------- time fields and deadlines

  lemma StepTimes(c: Cluster, e: Event, d: Cluster, k: Key)
    requires Inv(c) && TimesNext(c, e, d) && k in c.leases && k in d.leases
    requires Consistent(c.leases[k].spec.times)
    ensures Consistent(d.leases[k].spec.times)
  {
    if e.EditSpec? {
      if e.key == k {
        var now := c.leases[k];
        var read, edited :| IsPatch(read, edited, now, e.spec) && TimesSafe(read.spec, edited, now.spec);
        SafePatchConsistent(read, edited, c.leases[k].spec);
      }
    } else {
      StepTimesSame(c, e, d, k);
    }
  }

  /** No step but an edit changes the time fields of a lease. */
  lemma StepTimesSame(c: Cluster, e: Event, d: Cluster, k: Key)
    requires Inv(c) && Next(c, e, d) && !e.EditSpec? && k in c.leases && k in d.leases
    ensures d.leases[k].spec == c.leases[k].spec
  {
  }

  /** A lease whose time fields agree keeps time fields that agree, over every run of reconciles and of RPCs whose
      patches are safe for them; so, unless a difference saturates, its deadline is always start plus
      duration. Reconciles never change the time fields, so any number of them between the read and the patch of
      an update does no harm. */
  lemma TimesStayConsistent(c: Cluster, events: seq<Event>, d: Cluster, k: Key)
    requires Inv(c) && Leads(TimesNext, c, events, d) && NotRecreated(events, k) && k in c.leases && k in d.leases
    requires Consistent(c.leases[k].spec.times)
    ensures Consistent(d.leases[k].spec.times)
    ensures Fits(d.leases[k].spec.times) ==> Exact(d.leases[k].spec.times)
  {
    var inv := (x: Cluster) => Inv(x) && (k in x.leases ==> Consistent(x.leases[k].spec.times));
    forall x, e, y | e in events && inv(x) && TimesNext(x, e, y) ensures inv(y) {
      StepKeeps(x, e, y);
      if k in y.leases {
        if k !in x.leases {
          StepStaysGone(x, e, y, k);
        } else {
          StepTimes(x, e, y, k);
        }
      }
    }
    RunKeeps(TimesNext, inv, c, events, d);
  }

  /** The deadline over whole runs: take a lease whose time fields agree, let any reconciles and RPCs with safe
      patches happen, and reconcile it as it is then. A running, unreleased lease ends exactly when the clock
      is past start plus duration, and otherwise the reconcile comes back after what is left. */
  lemma DeadlineOverRuns(c: Cluster, events: seq<Event>, d: Cluster, k: Key, v: View, r: Readings,
                         decision: Decision, f: Cluster)
    requires Inv(c) && Leads(TimesNext, c, events, d) && NotRecreated(events, k) && k in c.leases && k in d.leases
    requires Consistent(c.leases[k].spec.times) && Fits(d.leases[k].spec.times)
    requires d.stage == Got(d.leases[k]) && Next(d, Compute(v, r, decision), f)
    requires !d.leases[k].status.ended && !d.leases[k].spec.release && f.stage.status.beginTime.Some?
    ensures var times, s := d.leases[k].spec.times, f.stage.status;
            times.duration.Some? &&
            var deadline := Start(times, s.beginTime.value) + times.duration.value;
            && (s.ended <==> r.ended > deadline)
            && (!s.ended ==> f.stage.requeueAfter == Sub(deadline, r.ended) && f.stage.requeueAfter >= 0)
  {
    MoreSteps(TimesNext, Next, c, events, d);
    InvHolds(c, events, d);
    TimesStayConsistent(c, events, d, k);
    DecidesTimely(d.leases[k], v, r.decide, decision);
    DeadlineExact(d.leases[k], decision, r);
  }

  /** A started lease that never asked for a begin can be given one by an update, and stays on schedule
      exactly when the requested end lies no later than actual begin plus requested duration. */
  lemma FilledBeginOnSchedule(l: LeaseRecord, caller: string, clients: set<Key>, req: UpdateRequest)
    requires UpdatedSpec(l, caller, clients, req).Ok?
    requires Coherent(l.status) && l.status.exporterRef.Some?
    requires l.spec.times.begin.None? && l.spec.times.end.None? && req.times.end.Some?
    ensures req.times.duration.Some?
    ensures OnSchedule(l.(spec := UpdatedSpec(l, caller, clients, req).value))
       <==> req.times.end.value <= l.status.beginTime.value + req.times.duration.value
  {
    UpdateFillsBegin(l, caller, clients, req);
  }

  /** Such a lease: begun at 0 for 10, updated at any time to run for 10 until 100, it now asks for a
      begin of 90 that it has not respected. */
  lemma ScheduleBrokenByUpdate(status: LeaseStatus)
    requires Coherent(status) && status.exporterRef.Some? && status.beginTime == Some(0)
    ensures var spec := LeaseSpec("me", Times(None, None, Some(10)), LabelSelector(map[], []), false);
            var l := LeaseRecord(Key("ns", "l"), spec, status, false, None, 1);
            var req := UpdateRequest([], Times(None, Some(100), Some(10)), None);
            var updated := UpdatedSpec(l, "me", {}, req);
            updated.Ok? && !OnSchedule(l.(spec := updated.value))
  {
  }

  /** An update that read a lease before its assignment, and is patched after it, moves the begin of a running
      lease: the check is on what was read. */
  lemma ScheduleBrokenByRace(l: LeaseRecord, now: LeaseRecord)
    requires l.spec == LeaseSpec("me", Times(None, None, Some(10)), LabelSelector(map[], []), false)
    requires l.status.exporterRef.None? && now == l.(status := now.status)
    requires Coherent(now.status) && now.status.exporterRef.Some? && now.status.beginTime == Some(0)
    ensures var updated := UpdatedSpec(l, "me", {}, UpdateRequest([], Times(Some(100), None, Some(10)), None));
            updated.Ok? && !OnSchedule(now.(spec := MergePatch(l.spec, updated.value, now.spec)))
  {
  }
}
