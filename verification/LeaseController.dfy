/**
 The two reconcilers as code over the store: the lease reconciler with its two version-checked writes,
 and the part of the exporter reconciler that derives which lease an exporter serves.
 */
module LeaseController {
  import opened Options
  import opened Runs
  import opened Identifiers
  import opened LabelSelectors
  import opened LeaseTimes
  import opened LeaseTypes
  import opened Scheduling
  import opened LeaseReconciler
  import opened Verdicts
  import opened ClientRpc
  import opened ClusterModel
  import opened RpcRuns

  /** What becomes of a write: it is accepted, the object has moved on, or there is another reason to refuse it. */
  datatype Write = Accepted | Conflict | Refused

  /** The objects behind the API server, and the clock. */
  class ApiServer {
    var leases: map<Key, LeaseRecord>
    var exporters: map<Key, Exporter>
    var policies: map<Key, AccessPolicy>
    var clients: map<Key, Labels>
    var revision: nat
    var now: Time
    ghost var stage: Stage

    ghost function State(): Cluster
      reads this
    {
      Cluster(leases, exporters, policies, clients, revision, now, stage)
    }

    method Now() returns (t: Time)
      modifies this`now
      ensures t == now >= old(now)
    {
      var passed :| passed >= 0;
      now := now + passed;
      t := now;
    }

    /** Anything other writers, other controllers and the clock may do while the caller waits. */
    method Interference() returns (ghost events: seq<Event>)
      requires Inv(State())
      modifies this
      ensures Leads(Next, old(State()), events, State()) && Inv(State())
      ensures stage == old(stage) && Own(events) == []
    {
      events := [];
    }

    /** Stores the status of the lease unless the stored lease has moved on. */
    method UpdateStatus(lease: Lease) returns (w: Write)
      requires stage.Computed? && lease.Record() == stage.lease.(status := stage.status)
      requires Unmoved(State(), stage.lease)
      modifies this, lease`version
      ensures Next(old(State()), WriteStatus, State())
      ensures w.Refused? <==> lease.key !in old(leases)
      ensures w.Conflict? <==> lease.key in old(leases) && old(leases)[lease.key].version != old(lease.version)
      ensures !w.Accepted? ==> stage.Idle?
      ensures w.Accepted? ==> stage == Written(lease.Record())
    {
      if lease.key !in leases {
        stage := Idle;
        return Refused;
      }
      if leases[lease.key].version != lease.version {
        stage := Idle;
        return Conflict;
      }
      revision := revision + 1;
      lease.version := revision;
      leases := leases[lease.key := leases[lease.key].(status := lease.status, version := revision)];
      stage := Written(lease.Record());
      return Accepted;
    }

    /** Stores specification, label and owner of the lease unless the stored lease has moved on. */
    method Update(lease: Lease) returns (w: Write)
      modifies this`leases, this`revision, lease`version
      ensures w.Refused? <==> lease.key !in old(leases)
      ensures w.Conflict? <==> lease.key in old(leases) && old(leases)[lease.key].version != old(lease.version)
      ensures !w.Accepted? ==> State() == old(State())
      ensures w.Accepted? ==> leases == old(leases)[lease.key :=
                old(leases)[lease.key].(spec := lease.spec, endedLabel := lease.endedLabel, owner := lease.owner,
                  version := old(revision) + 1)]
      ensures w.Accepted? ==> revision == old(revision) + 1
    {
      if lease.key !in leases {
        return Refused;
      }
      if leases[lease.key].version != lease.version {
        return Conflict;
      }
      revision := revision + 1;
      leases := leases[lease.key :=
        leases[lease.key].(spec := lease.spec, endedLabel := lease.endedLabel, owner := lease.owner,
          version := revision)];
      lease.version := revision;
      return Accepted;
    }
  }

  /** Lists the objects of a namespace in some order. */
  method List<T(!new)>(m: map<Key, T>, namespace: string, keep: T -> bool) returns (s: seq<T>)
    ensures Lists(s, m, namespace, keep)
  {
    s := [];
    var left := m.Keys;
    ghost var done: set<Key> := {};
    while left != {}
      invariant left <= m.Keys && done == m.Keys - left
      invariant forall x :: x in s <==> exists k :: k in done && k.namespace == namespace && m[k] == x && keep(x)
      decreases left
    {
      var k :| k in left;
      ghost var before := done;
      left := left - {k};
      done := done + {k};
      if k.namespace == namespace && keep(m[k]) {
        s := s + [m[k]];
      }
      assert forall j :: j in done <==> j in before || j == k;
    }
    assert done == m.Keys;
  }

  /** The steps of a run that are the reconciler's own. */
  function Own(events: seq<Event>): seq<Event> {
    if events == [] then []
    else (if IsEnvironment(events[0]) then [] else [events[0]]) + Own(events[1..])
  }

  lemma {:induction false} OwnAppend(a: seq<Event>, b: seq<Event>)
    ensures Own(a + b) == Own(a) + Own(b)
    decreases |a|
  {
    if a == [] {
      assert a + b == b;
    } else {
      assert (a + b)[0] == a[0] && (a + b)[1..] == a[1..] + b;
      OwnAppend(a[1..], b);
    }
  }

  /** How far a reconcile got: the lease was missing, could not be decided on, had its status or its metadata not
      written, for a conflict or another reason, or all was done. */
  datatype Outcome = NotFound | Failed | StatusNotWritten(w: Write) | MetadataNotWritten(w: Write) | Done

  /** What a reconcile answers: come back at once, come back after a delay if that is positive, or an error. */
  datatype Answer = Answer(requeue: bool, requeueAfter: Duration, error: bool)

  /** A conflict is not an error: it is answered by coming back at once. Any other failed write is, and keeps the
      delay. */
  function AnswerOf(requeueAfter: Duration, w: Write): Answer {
    if w.Conflict? then Answer(true, 0, false) else Answer(false, requeueAfter, w.Refused?)
  }

  /** The reconciler's own steps, by outcome. */
  function OwnSteps(key: Key, computed: Event, outcome: Outcome): seq<Event> {
    match outcome
    case NotFound => []
    case Failed => [Get(key)] + [Crash]
    case StatusNotWritten(_) => [Get(key)] + [computed] + [WriteStatus]
    case _ => [Get(key)] + [computed] + [WriteStatus] + [WriteMetadata]
  }

  /** Lists the exporters, policies and active leases of the namespace, and looks up the client. */
  method ReadLists(api: ApiServer, lease: Lease) returns (view: View)
    ensures IsView(api.State(), lease.Record(), view)
  {
    var exporters := List(api.exporters, lease.key.namespace, Anything);
    var policies := List(api.policies, lease.key.namespace, Anything);
    var active := List(api.leases, lease.key.namespace, Active);
    var clientKey := Key(lease.key.namespace, lease.spec.clientRef);
    var client := if clientKey in api.clients then Some(api.clients[clientKey]) else None;
    view := View(exporters, policies, client, active);
  }

  /** The three status phases, each with its own look at the clock. */
  method RunPhases(api: ApiServer, lease: Lease, view: View)
      returns (requeueAfter: Duration, error: bool, ghost readings: Readings, ghost decision: Decision)
    modifies api`now, lease`status
    ensures InOrder(readings) && old(api.now) <= readings.decide
    ensures Decides(old(lease.Record()), view, readings.decide, decision) && (error <==> IsError(decision))
    ensures error ==> api.now == readings.decide && lease.status == old(lease.status)
    ensures !error ==> api.now == readings.stamp
    ensures !error ==> lease.status == NewStatus(old(lease.Record()), decision, readings)
    ensures !error ==> requeueAfter == NewRequeue(old(lease.Record()), decision, readings)
  {
    var result := new ReconcileResult();
    var decide := api.Now();
    error, decision := ReconcileStatusExporterRef(result, lease, view, decide);
    if error {
      readings := Readings(decide, decide, decide, decide);
      return result.requeueAfter, true, readings, decision;
    }
    var begin := api.Now();
    ReconcileStatusBeginEndTimes(lease, begin);
    var ended := api.Now();
    var stamp := api.Now();
    ReconcileStatusEnded(result, lease, ended, stamp);
    requeueAfter := result.requeueAfter;
    readings := Readings(decide, begin, ended, stamp);
  }

  /** Reads the lists and computes the new status of a lease just read, or fails. In either case `computed` tells the
      lists and clock readings used and the decision they led to. */
  method ComputeStatus(api: ApiServer, lease: Lease)
      returns (requeueAfter: Duration, error: bool, ghost computed: Event)
    requires api.stage == Got(lease.Record())
    modifies api`now, api`stage, lease`status
    ensures Computes(old(lease.Record()), computed) && IsView(old(api.State()), old(lease.Record()), computed.view)
    ensures error <==> IsError(computed.decision)
    ensures error ==> api.stage == old(api.stage) && Next(old(api.State()), Tick(api.now), api.State())
    ensures !error ==> Next(old(api.State()), computed, api.State())
    ensures !error ==> api.stage == Computed(old(lease.Record()), lease.status, requeueAfter)
    ensures !error ==> lease.status == StatusOf(old(lease.Record()), computed)
    ensures !error ==> requeueAfter == NewRequeue(old(lease.Record()), computed.decision, computed.readings)
  {
    ghost var read := lease.Record();
    var view := ReadLists(api, lease);
    ghost var readings, decision;
    requeueAfter, error, readings, decision := RunPhases(api, lease, view);
    computed := Compute(view, readings, decision);
    if !error {
      api.stage := Computed(read, lease.status, requeueAfter);
    }
  }

  /** `computed` is what a reconcile of the lease `l` decides on some lists. */
  ghost predicate Computes(l: LeaseRecord, computed: Event) {
    && computed.Compute? && InOrder(computed.readings)
    && Decides(l, computed.view, computed.readings.decide, computed.decision)
  }

  function StatusOf(l: LeaseRecord, computed: Event): LeaseStatus
    requires computed.Compute?
  {
    NewStatus(l, computed.decision, computed.readings)
  }

  /** An unchanged version means an unchanged lease, and its label tells the truth. */
  predicate Unmoved(c: Cluster, l: LeaseRecord) {
    (l.endedLabel ==> l.status.ended) && (Current(c, l) ==> c.leases[l.key] == l)
  }

  lemma StageUnmoved(c: Cluster)
    requires Inv(c) && !c.stage.Idle?
    ensures Unmoved(c, c.stage.lease)
  {
  }

  /** Writes the ended label and the owner of a lease whose status was just written. */
  method WriteLabels(api: ApiServer, lease: Lease) returns (w: Write)
    requires api.stage == Written(lease.Record()) && Unmoved(api.State(), lease.Record())
    modifies api`leases, api`revision, api`stage, lease
    ensures Next(old(api.State()), WriteMetadata, api.State())
    ensures w.Accepted? ==> LabelsWritten(api.leases, lease.key) && api.leases[lease.key].status == old(lease.status)
    ensures w.Conflict? <==>
              && OwnerSettable(old(api.State()), old(lease.Record())) && lease.key in old(api.leases)
              && old(api.leases)[lease.key].version != old(lease.version)
  {
    ghost var before := api.State();
    ghost var written := lease.Record();
    api.stage := Idle;
    if lease.status.ended {
      lease.endedLabel := true;
    }
    if lease.status.exporterRef.Some? {
      if Key(lease.key.namespace, lease.status.exporterRef.value) !in api.exporters {
        return Refused;
      }
      if lease.owner.Some? && lease.owner != lease.status.exporterRef {
        return Refused;
      }
      lease.owner := lease.status.exporterRef;
    }
    assert lease.Record() == Labelled(written) && OwnerSettable(before, written);
    w := api.Update(lease);
    assert w.Accepted? ==> Current(before, written) && before.leases[written.key] == written;
  }

  /** The last step: label and owner. */
  method FinishReconcile(api: ApiServer, lease: Lease, ghost start: Cluster, ghost events: seq<Event>)
      returns (w: Write, ghost longer: seq<Event>)
    requires Inv(api.State()) && Leads(Next, start, events, api.State()) && api.stage == Written(lease.Record())
    modifies api, lease
    ensures Inv(api.State()) && api.stage.Idle? && events <= longer
    ensures Leads(Next, start, longer, api.State()) && Own(longer) == Own(events) + [WriteMetadata]
    ensures w.Accepted? ==> LabelsWritten(api.leases, lease.key) && api.leases[lease.key].status == old(lease.status)
  {
    longer := Wait(api, start, events);
    ghost var c := api.State();
    StageUnmoved(c);
    w := WriteLabels(api, lease);
    longer := Record(start, longer, c, WriteMetadata, api.State());
  }

  /** The middle steps: the new status, and its write. */
  method WriteNewStatus(api: ApiServer, lease: Lease, ghost start: Cluster, ghost events: seq<Event>)
      returns (requeueAfter: Duration, error: bool, w: Write, ghost longer: seq<Event>, ghost computed: Event)
    requires Inv(api.State()) && Leads(Next, start, events, api.State()) && api.stage == Got(lease.Record())
    modifies api, lease
    ensures Inv(api.State()) && Leads(Next, start, longer, api.State()) && events <= longer
    ensures Computes(old(lease.Record()), computed) && (error <==> IsError(computed.decision))
    ensures error ==> api.stage.Idle? && Own(longer) == Own(events) + [Crash]
    ensures error ==> IsView(api.State(), old(lease.Record()), computed.view)
    ensures !error ==> Own(longer) == Own(events) + [computed] + [WriteStatus]
    ensures !error ==> if w.Accepted? then api.stage == Written(lease.Record()) else api.stage.Idle?
    ensures !error ==> lease.status == StatusOf(old(lease.Record()), computed)
    ensures !error ==> requeueAfter == NewRequeue(old(lease.Record()), computed.decision, computed.readings)
  {
    w := Refused;
    requeueAfter, error, longer, computed := ComputeStep(api, lease, start, events);
    if !error {
      w, longer := StoreStatus(api, lease, start, longer);
    }
  }

  /** The compute step, or the end of a reconcile that fails. */
  method ComputeStep(api: ApiServer, lease: Lease, ghost start: Cluster, ghost events: seq<Event>)
      returns (requeueAfter: Duration, error: bool, ghost longer: seq<Event>, ghost computed: Event)
    requires Inv(api.State()) && Leads(Next, start, events, api.State()) && api.stage == Got(lease.Record())
    modifies api, lease`status
    ensures Inv(api.State()) && Leads(Next, start, longer, api.State()) && events <= longer
    ensures Computes(old(lease.Record()), computed) && (error <==> IsError(computed.decision))
    ensures error ==> api.stage.Idle? && Own(longer) == Own(events) + [Crash]
    ensures error ==> IsView(api.State(), old(lease.Record()), computed.view)
    ensures !error ==> Own(longer) == Own(events) + [computed]
    ensures !error ==> api.stage == Computed(old(lease.Record()), lease.status, requeueAfter)
    ensures !error ==> lease.status == StatusOf(old(lease.Record()), computed)
    ensures !error ==> requeueAfter == NewRequeue(old(lease.Record()), computed.decision, computed.readings)
  {
    longer := Wait(api, start, events);
    ghost var c := api.State();
    requeueAfter, error, computed := ComputeStatus(api, lease);
    longer := Record(start, longer, c, if error then Tick(api.now) else computed, api.State());
    if error {
      c := api.State();
      api.stage := Idle;
      longer := Record(start, longer, c, Crash, api.State());
    }
  }

  /** The first write: the status, unless the lease has moved on. */
  method StoreStatus(api: ApiServer, lease: Lease, ghost start: Cluster, ghost events: seq<Event>)
      returns (w: Write, ghost longer: seq<Event>)
    requires Inv(api.State()) && Leads(Next, start, events, api.State())
    requires api.stage.Computed? && lease.Record() == api.stage.lease.(status := api.stage.status)
    modifies api, lease`version
    ensures Inv(api.State()) && Leads(Next, start, longer, api.State()) && events <= longer
    ensures Own(longer) == Own(events) + [WriteStatus]
    ensures if w.Accepted? then api.stage == Written(lease.Record()) else api.stage.Idle?
  {
    longer := Wait(api, start, events);
    ghost var c := api.State();
    StageUnmoved(c);
    w := api.UpdateStatus(lease);
    longer := Record(start, longer, c, WriteStatus, api.State());
  }

  predicate LabelsWritten(leases: map<Key, LeaseRecord>, key: Key) {
    && key in leases
    && leases[key].endedLabel == leases[key].status.ended
    && (leases[key].status.exporterRef.Some? ==> leases[key].owner == leases[key].status.exporterRef)
  }

  /** The lease `read` was stored under the key after the events `first`, and the reconciler read it next. */
  ghost predicate ReadIn(start: Cluster, events: seq<Event>, first: seq<Event>, found: Cluster, key: Key,
                         read: LeaseRecord)
  {
    && Leads(Next, start, first, found) && key in found.leases && found.leases[key] == read
    && first + [Get(key)] <= events
  }

  /**
   One reconcile of a lease, with everybody else acting between any two of its steps. Whatever they
   do, the run from the state before to the state after is a run of the model, the reconciler's own
   steps in it are exactly the ones its outcome tells, and the invariant holds at the end. It answers
   with the right delay for the lease it read and the status it computed, unless it could not decide
   or met a conflict; it ends that way only when there is a reason to.
   */
  method Reconcile(api: ApiServer, key: Key)
      returns (answer: Answer, outcome: Outcome, ghost events: seq<Event>, ghost computed: Event,
               ghost first: seq<Event>, ghost found: Cluster, ghost read: LeaseRecord)
    requires Inv(api.State()) && api.stage.Idle?
    modifies api
    ensures Leads(Next, old(api.State()), events, api.State()) && Own(events) == OwnSteps(key, computed, outcome)
    ensures Inv(api.State()) && api.stage.Idle?
    ensures outcome.NotFound? ==> key !in api.leases && answer == Answer(false, 0, false)
    ensures !outcome.NotFound? ==>
              ReadIn(old(api.State()), events, first, found, key, read) && Computes(read, computed)
    ensures !outcome.NotFound? ==>
              (outcome.Failed? <==> CannotDecide(read, computed.view, computed.readings.decide))
    ensures outcome.Failed? ==> IsView(api.State(), read, computed.view) && answer == Answer(false, 0, true)
    ensures outcome == StatusNotWritten(Conflict) || outcome == MetadataNotWritten(Conflict) ==>
              answer == Answer(true, 0, false)
    ensures outcome == StatusNotWritten(Refused) || outcome == MetadataNotWritten(Refused) ==>
              && answer.error && !answer.requeue
              && RightDelay(read, StatusOf(read, computed), computed.view, computed.readings, answer.requeueAfter)
    ensures outcome.Done? ==>
              && LabelsWritten(api.leases, key) && !answer.error && !answer.requeue
              && api.leases[key].status == StatusOf(read, computed)
              && RightDelay(read, api.leases[key].status, computed.view, computed.readings, answer.requeueAfter)
    ensures outcome != StatusNotWritten(Accepted) && outcome != MetadataNotWritten(Accepted)
  {
    computed := Crash;
    ghost var start := api.State();
    first := api.Interference();
    events, found := first, api.State();
    if key !in api.leases {
      read := LeaseRecord(key, LeaseSpec("", Times(None, None, None), LabelSelector(map[], []), false), NEW_STATUS,
                          false, None, 0);
      return Answer(false, 0, false), NotFound, events, computed, first, found, read;
    }
    var lease := new Lease(api.leases[key]);
    read := lease.Record();
    assert lease.key == key by { StoredUnderKey(found, key); }
    api.stage := Got(lease.Record());
    events := Record(start, events, found, Get(key), api.State());
    answer, outcome, events, computed := WriteBoth(api, lease, start, events);
    ComputedAnswers(found, read, computed);
  }

  lemma ComputedAnswers(found: Cluster, read: LeaseRecord, computed: Event)
    requires Inv(found) && read.key in found.leases && found.leases[read.key] == read && Computes(read, computed)
    ensures IsError(computed.decision) <==> CannotDecide(read, computed.view, computed.readings.decide)
    ensures !IsError(computed.decision) ==>
              RightDelay(read, StatusOf(read, computed), computed.view, computed.readings,
                         NewRequeue(read, computed.decision, computed.readings))
  {
    FailsExactlyWhen(read, computed.view, computed.readings.decide, computed.decision);
    if !IsError(computed.decision) {
      DelayIsRight(read, computed.view, computed.decision, computed.readings);
    }
  }

  /** Both writes, one after the other. */
  method WriteBoth(api: ApiServer, lease: Lease, ghost start: Cluster, ghost events: seq<Event>)
      returns (answer: Answer, outcome: Outcome, ghost longer: seq<Event>, ghost computed: Event)
    requires Inv(api.State()) && Leads(Next, start, events, api.State()) && api.stage == Got(lease.Record())
    requires Own(events) == [Get(lease.key)]
    modifies api, lease
    ensures Leads(Next, start, longer, api.State()) && Own(longer) == OwnSteps(lease.key, computed, outcome)
    ensures Inv(api.State()) && api.stage.Idle? && events <= longer
    ensures !outcome.NotFound? && Computes(old(lease.Record()), computed)
    ensures outcome.Failed? <==> IsError(computed.decision)
    ensures outcome.Failed? ==>
              IsView(api.State(), old(lease.Record()), computed.view) && answer == Answer(false, 0, true)
    ensures outcome.Done? ==>
              && LabelsWritten(api.leases, lease.key)
              && api.leases[lease.key].status == StatusOf(old(lease.Record()), computed)
    ensures !outcome.Failed? ==>
              var delay := NewRequeue(old(lease.Record()), computed.decision, computed.readings);
              && (outcome.StatusNotWritten? || outcome.MetadataNotWritten? ==> answer == AnswerOf(delay, outcome.w))
              && (outcome.Done? ==> answer == Answer(false, delay, false))
    ensures outcome != StatusNotWritten(Accepted) && outcome != MetadataNotWritten(Accepted)
  {
    var requeueAfter, error, w;
    requeueAfter, error, w, longer, computed := WriteNewStatus(api, lease, start, events);
    if error {
      return Answer(false, 0, true), Failed, longer, computed;
    }
    if !w.Accepted? {
      return AnswerOf(requeueAfter, w), StatusNotWritten(w), longer, computed;
    }
    w, longer := FinishReconcile(api, lease, start, longer);
    answer := AnswerOf(requeueAfter, w);
    outcome := if w.Accepted? then Done else MetadataNotWritten(w);
  }

  lemma StoredUnderKey(c: Cluster, key: Key)
    requires Inv(c) && key in c.leases
    ensures c.leases[key].key == key
  {
  }

  /** Appends one own step to the run so far. */
  lemma Record(start: Cluster, events: seq<Event>, c: Cluster, e: Event, d: Cluster) returns (longer: seq<Event>)
    requires Leads(Next, start, events, c) && Inv(c) && Next(c, e, d)
    ensures Inv(d) && Leads(Next, start, longer, d) && longer == events + [e]
    ensures Own(longer) == Own(events) + if IsEnvironment(e) then [] else [e]
  {
    longer := events + [e];
    StepKeeps(c, e, d);
    LeadsOn(Next, start, events, c, e, d);
    OwnAppend(events, [e]);
    assert Own([e]) == if IsEnvironment(e) then [] else [e];
  }

  /** Lets everybody else act and appends what they did to the run. */
  method Wait(api: ApiServer, ghost start: Cluster, ghost events: seq<Event>) returns (ghost longer: seq<Event>)
    requires Inv(api.State()) && Leads(Next, start, events, api.State())
    modifies api
    ensures Inv(api.State()) && Leads(Next, start, longer, api.State())
    ensures api.stage == old(api.stage) && Own(longer) == Own(events) && events <= longer
  {
    ghost var c := api.State();
    ghost var others := api.Interference();
    LeadsAppend(Next, start, events, c, others, api.State());
    OwnAppend(events, others);
    longer := events + others;
  }

  // ---------------------------------------------------------------- the index from exporter to lease

  /** An exporter as its reconcile holds it in memory. */
  class ExporterObject {
    const key: Key
    var leaseRef: Option<string>

    constructor (key: Key, leaseRef: Option<string>)
      ensures this.key == key && this.leaseRef == leaseRef
    {
      this.key, this.leaseRef := key, leaseRef;
    }

    /** Points the exporter to the last listed lease that has not ended and holds it, or to none. */
    method ReconcileStatusLeaseRef(active: seq<LeaseRecord>)
      modifies this`leaseRef
      ensures leaseRef == ServedLease(active, key.name)
    {
      leaseRef := None;
      for i := 0 to |active|
        invariant leaseRef == ServedLease(active[..i], key.name)
      {
        assert active[..i + 1][..i] == active[..i];
        if !active[i].status.ended && active[i].status.exporterRef.Some? {
          if active[i].status.exporterRef.value == key.name {
            leaseRef := Some(active[i].key.name);
          }
        }
      }
      assert active[..|active|] == active;
    }
  }

  function ServedLease(active: seq<LeaseRecord>, exporter: string): Option<string> {
    if active == [] then None
    else
      var last := active[|active| - 1];
      if Holding(last.status) && Holds(last, exporter) then Some(last.key.name)
      else ServedLease(active[..|active| - 1], exporter)
  }

  /** The lease at position `i` holds the exporter and has not ended, and none listed after it does. */
  predicate LastServing(active: seq<LeaseRecord>, exporter: string, i: int) {
    && 0 <= i < |active| && Holding(active[i].status) && Holds(active[i], exporter)
    && forall j | i < j < |active| :: !(Holding(active[j].status) && Holds(active[j], exporter))
  }

  lemma {:induction false} ServedLeaseExact(active: seq<LeaseRecord>, exporter: string)
    ensures ServedLease(active, exporter).Some? <==> exists l :: l in active && Holding(l.status) && Holds(l, exporter)
    ensures ServedLease(active, exporter).Some? ==>
              exists l :: l in active && Holding(l.status) && Holds(l, exporter)
                  && l.key.name == ServedLease(active, exporter).value
    ensures forall i | LastServing(active, exporter, i) :: ServedLease(active, exporter) == Some(active[i].key.name)
  {
    if active != [] {
      var init, last := active[..|active| - 1], active[|active| - 1];
      ServedLeaseExact(init, exporter);
      forall i | LastServing(active, exporter, i) && !(Holding(last.status) && Holds(last, exporter))
        ensures LastServing(init, exporter, i)
      {
      }
      assert active == init + [last];
    }
  }

  /** Lease `name` of the namespace has not ended and holds the exporter. */
  predicate Serves(c: Cluster, name: string, exporter: Key) {
    var k := Key(exporter.namespace, name);
    k in c.leases && !c.leases[k].status.ended && c.leases[k].status.exporterRef == Some(exporter.name)
  }

  /** Index agreement: in every reachable state, whatever the order of the list, the exporter points to
      a lease exactly when that lease is the one that has not ended and holds it, and there is no
      second one. */
  lemma IndexAgreement(c: Cluster, active: seq<LeaseRecord>, exporter: Key, name: string)
    requires Inv(c) && Lists(active, c.leases, exporter.namespace, Active)
    ensures ServedLease(active, exporter.name) == Some(name) <==> Serves(c, name, exporter)
    ensures Serves(c, name, exporter) ==> forall other :: Serves(c, other, exporter) ==> other == name
  {
    ServedLeaseExact(active, exporter.name);
    forall a, b | Serves(c, a, exporter) && Serves(c, b, exporter) ensures a == b {
      var k := Key(exporter.namespace, a);
      assert Alone(c, k, c.leases[k].status);
    }
    if ServedLease(active, exporter.name).Some? {
      var l :| l in active && Holding(l.status) && Holds(l, exporter.name)
          && l.key.name == ServedLease(active, exporter.name).value;
      var k :| k in c.leases && k.namespace == exporter.namespace && c.leases[k] == l && Active(l);
      assert Serves(c, k.name, exporter);
    }
    if Serves(c, name, exporter) {
      var k := Key(exporter.namespace, name);
      assert Active(c.leases[k]);
      assert c.leases[k] in active;
    }
  }

  /** Reconciles the index of one exporter. Others may act between the read and the list and between the list and
      the patch: `first` lead to `listed`, `others` from there to `before`, and the patch is one step from there.
      What it writes names a lease exactly when that lease served the exporter in the listed state; being a merge
      patch, it writes nothing where that is what was read. */
  method ReconcileExporter(api: ApiServer, key: Key)
      returns (found: bool, ghost first: seq<Event>, ghost listed: Cluster, ghost others: seq<Event>,
               ghost before: Cluster, ghost served: Option<string>)
    requires Inv(api.State())
    modifies api
    ensures Inv(api.State()) && Leads(Next, old(api.State()), first, listed) && Leads(Next, listed, others, before)
    ensures found <==> key in old(api.exporters) && key in before.exporters
    ensures !found ==> api.State() == before
    ensures key in old(api.exporters) ==> forall name :: served == Some(name) <==> Serves(listed, name, key)
    ensures found ==>
              var stored := before.exporters[key];
              var leaseRef := Patched(old(api.exporters)[key].leaseRef, served, stored.leaseRef);
              api.State() == before.(exporters := before.exporters[key := stored.(leaseRef := leaseRef)])
    ensures found ==> Next(before, ChangeWorld(api.exporters, before.policies, before.clients), api.State())
  {
    first, others, served := [], [], None;
    listed, before := api.State(), api.State();
    if key !in api.exporters {
      return false, first, listed, others, before, served;
    }
    var read := api.exporters[key].leaseRef;
    var exporter := new ExporterObject(key, read);
    first := api.Interference();
    listed := api.State();
    var active := List(api.leases, key.namespace, Active);
    exporter.ReconcileStatusLeaseRef(active);
    served := exporter.leaseRef;
    forall name ensures served == Some(name) <==> Serves(listed, name, key) {
      IndexAgreement(listed, active, key, name);
    }
    others := api.Interference();
    before := api.State();
    found := key in api.exporters;
    if found {
      var stored := api.exporters[key];
      var leaseRef := Patched(read, exporter.leaseRef, stored.leaseRef);
      api.exporters := api.exporters[key := stored.(leaseRef := leaseRef)];
      SameLeasesKeep(before, api.State());
    }
  }

  /** So if nobody else writes the reference and nothing happens to the leases between list and patch, the stored
      index agrees with the stored leases afterwards. */
  lemma UndisturbedIndexAgrees(read: Option<string>, served: Option<string>, listed: Cluster, before: Cluster,
                               after: Cluster, key: Key)
    requires forall name :: served == Some(name) <==> Serves(listed, name, key)
    requires key in before.exporters && before.exporters[key].leaseRef == read && before.leases == listed.leases
    requires var stored := before.exporters[key];
             after == before.(exporters := before.exporters[key :=
                                stored.(leaseRef := Patched(read, served, stored.leaseRef))])
    ensures forall name :: after.exporters[key].leaseRef == Some(name) <==> Serves(after, name, key)
  {
    forall name ensures after.exporters[key].leaseRef == Some(name) <==> Serves(after, name, key) {
      assert Serves(after, name, key) <==> Serves(listed, name, key);
    }
  }

  // ---------------------------------------------------------------- the RPCs on the store

  /** Creates a lease for the caller if the request is sound and the name is free. */
  method CreateLease(api: ApiServer, key: Key, caller: string, selector: seq<Requirement>, times: Times)
      returns (error: Option<RpcError>)
    requires Inv(api.State())
    modifies api`leases, api`revision
    ensures error.None? <==> Translatable(selector) && Complete(times).Ok? && key !in old(api.leases)
    ensures error.Some? ==> api.State() == old(api.State())
    ensures error.None? ==> key in api.leases && Next(old(api.State()), Create(key, api.leases[key].spec), api.State())
    ensures error.None? ==> Complete(times) == Ok(api.leases[key].spec.times) && Consistent(api.leases[key].spec.times)
    ensures error.None? ==> api.leases[key].spec.clientRef == caller && !api.leases[key].spec.release
    ensures error.None? ==> AllSupported(selector) && forall labels ::
              Matches(api.leases[key].spec.selector, labels) <==> RequirementsMatch(selector, labels)
    ensures Inv(api.State())
  {
    ghost var c := api.State();
    var spec := LeaseFromProtobuf(selector, times, caller);
    if spec.Err? {
      return Some(spec.error);
    }
    if key in api.leases {
      return Some(LeaseExists);
    }
    CompleteConsistent(times);
    api.revision := api.revision + 1;
    api.leases := api.leases[key := LeaseRecord(key, spec.value, NEW_STATUS, false, None, api.revision)];
    StepKeeps(c, Create(key, spec.value), api.State());
    return None;
  }

  /** Patches the stored lease with what an edit changed. No version is checked; the lease has to exist. */
  method Patch(api: ApiServer, key: Key, read: LeaseSpec, edited: LeaseSpec) returns (found: bool)
    requires Inv(api.State())
    modifies api`leases, api`revision
    ensures Inv(api.State()) && (found <==> key in old(api.leases))
    ensures !found ==> api.State() == old(api.State())
    ensures found ==>
              Next(old(api.State()), EditSpec(key, MergePatch(read, edited, old(api.leases)[key].spec)), api.State())
  {
    ghost var c := api.State();
    found := key in api.leases;
    if found {
      var spec := MergePatch(read, edited, api.leases[key].spec);
      StoredUnderKey(c, key);
      api.revision := api.revision + 1;
      api.leases := api.leases[key := api.leases[key].(spec := spec, version := api.revision)];
      StepKeeps(c, EditSpec(key, spec), api.State());
    }
  }

  /** Updates a lease on behalf of the caller. Everybody else may act between the read and the patch: `others`
      lead to `before`, and the patch of what the update changed is one step from there. */
  method UpdateStoredLease(api: ApiServer, key: Key, caller: string, req: UpdateRequest)
      returns (error: Option<RpcError>, ghost others: seq<Event>, ghost before: Cluster)
    requires Inv(api.State())
    modifies api
    ensures Inv(api.State()) && Leads(Next, old(api.State()), others, before)
    ensures error.Some? ==> api.State() == before
    ensures key !in old(api.leases) ==> error == Some(LeaseNotFound)
    ensures key in old(api.leases) && UpdatedSpec(old(api.leases)[key], caller, old(api.clients).Keys, req).Err? ==>
              error == Some(UpdatedSpec(old(api.leases)[key], caller, old(api.clients).Keys, req).error)
    ensures key in old(api.leases) && UpdatedSpec(old(api.leases)[key], caller, old(api.clients).Keys, req).Ok? ==>
              var read := old(api.leases)[key].spec;
              var edited := UpdatedSpec(old(api.leases)[key], caller, old(api.clients).Keys, req).value;
              && (error == if key in before.leases then None else Some(LeaseNotFound))
              && (key in before.leases ==>
                    Next(before, EditSpec(key, MergePatch(read, edited, before.leases[key].spec)), api.State()))
  {
    others := [];
    before := api.State();
    if key !in api.leases {
      return Some(LeaseNotFound), others, before;
    }
    var read := api.leases[key].spec;
    var lease := new Lease(api.leases[key]);
    error := UpdateLease(lease, caller, api.clients.Keys, req);
    if error.None? {
      others := api.Interference();
      before := api.State();
      var found := Patch(api, key, read, lease.spec);
      if !found {
        error := Some(LeaseNotFound);
      }
    }
  }

  /** Marks a lease for release on behalf of the caller, again with others between the read and the patch. */
  method DeleteStoredLease(api: ApiServer, key: Key, caller: string)
      returns (error: Option<RpcError>, ghost others: seq<Event>, ghost before: Cluster)
    requires Inv(api.State())
    modifies api
    ensures Inv(api.State()) && Leads(Next, old(api.State()), others, before)
    ensures error.Some? ==> api.State() == before
    ensures error == Some(PermissionDenied) <==> key in old(api.leases) && old(api.leases)[key].spec.clientRef != caller
    ensures error.None?
       <==> key in old(api.leases) && key in before.leases && old(api.leases)[key].spec.clientRef == caller
    ensures error.None? ==>
              var spec := before.leases[key].spec;
              var marked := spec.release || !old(api.leases)[key].spec.release;
              Next(before, EditSpec(key, spec.(release := marked)), api.State())
  {
    others := [];
    before := api.State();
    if key !in api.leases {
      return Some(LeaseNotFound), others, before;
    }
    var read := api.leases[key].spec;
    var lease := new Lease(api.leases[key]);
    error := DeleteLease(lease, caller);
    if error.None? {
      others := api.Interference();
      before := api.State();
      var found := Patch(api, key, read, lease.spec);
      if !found {
        error := Some(LeaseNotFound);
      }
    }
  }

  /** The patch of an update is a step over which time fields stay consistent if the update changed none or all of
      them, or if nobody else changed them since it read them: reconciles in between never matter. */
  lemma UpdateIsTimesStep(read: LeaseRecord, caller: string, clients: set<Key>, req: UpdateRequest,
                          before: Cluster, d: Cluster)
    requires UpdatedSpec(read, caller, clients, req).Ok? && read.key in before.leases
    requires var edited := UpdatedSpec(read, caller, clients, req).value;
             && Next(before, EditSpec(read.key, MergePatch(read.spec, edited, before.leases[read.key].spec)), d)
             && TimesSafe(read.spec, edited, before.leases[read.key].spec)
    ensures var edited := UpdatedSpec(read, caller, clients, req).value;
            TimesNext(before, EditSpec(read.key, MergePatch(read.spec, edited, before.leases[read.key].spec)), d)
  {
    var edited := UpdatedSpec(read, caller, clients, req).value;
    var now := before.leases[read.key];
    assert IsPatch(read, edited, now, MergePatch(read.spec, edited, now.spec));
  }

  /** Where nobody interferes, an update is one step of a run by RPCs. */
  lemma UndisturbedUpdateIsRpc(c: Cluster, key: Key, caller: string, req: UpdateRequest, d: Cluster)
    requires key in c.leases && UpdatedSpec(c.leases[key], caller, c.clients.Keys, req).Ok?
    requires var read := c.leases[key].spec;
             var edited := UpdatedSpec(c.leases[key], caller, c.clients.Keys, req).value;
             Next(c, EditSpec(key, MergePatch(read, edited, c.leases[key].spec)), d)
    ensures var edited := UpdatedSpec(c.leases[key], caller, c.clients.Keys, req).value;
            RpcNext(c, EditSpec(key, edited), d)
  {
    var edited := UpdatedSpec(c.leases[key], caller, c.clients.Keys, req).value;
    assert MergePatch(c.leases[key].spec, edited, c.leases[key].spec) == edited;
  }
}
