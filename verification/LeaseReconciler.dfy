/**
 One reconcile of a lease: the three phases that rewrite its status in place, and what they amount to.
 */
module LeaseReconciler {
  import opened Options
  import opened Identifiers
  import opened LabelSelectors
  import opened LeaseTimes
  import opened LeaseTypes
  import opened Scheduling

  const SECOND: Duration := 1_000_000_000

  /** What a reconcile reads besides the lease: the lists of its namespace in any order, and the
      labels of its client, if that client exists. */
  datatype View = View(
    exporters: seq<Exporter>,
    policies: seq<AccessPolicy>,
    client: Option<Labels>,
    active: seq<LeaseRecord>)

  /** The clock readings of one reconcile, in the order they are taken. */
  datatype Readings = Readings(decide: Time, begin: Time, ended: Time, stamp: Time)

  predicate InOrder(r: Readings) {
    r.decide <= r.begin <= r.ended <= r.stamp
  }

  // ---------------------------------------------------------------- the exporter phase

  datatype Decision =
    | Keep                                   // ended, or an exporter is already assigned
    | Wait(delay: Duration)                  // scheduled for later
    | BadSelector                            // error: the selector cannot be converted
    | EmptySelector
    | CannotApprove                          // error: the client or a policy selector cannot be read
    | NoAccess                               // nothing is approved
    | NoneOnline                             // nothing approved is online
    | Chose(choice: Choice)

  predicate IsError(d: Decision) {
    d.BadSelector? || d.CannotApprove?
  }

  /** The exporters of the list a selector picks. */
  function Selected(es: seq<Exporter>, selector: LabelSelector): seq<Exporter> {
    Without(es, (e: Exporter) => !Matches(selector, e.labels))
  }

  function ApprovedFor(l: LeaseRecord, v: View): Option<seq<ApprovedExporter>> {
    Approved(Selected(v.exporters, l.spec.selector), v.policies, v.client, RequestedDuration(l.spec.times))
  }

  /** The online approved entries with the leases that hold them. */
  function Candidates(approved: seq<ApprovedExporter>, active: seq<LeaseRecord>): seq<ApprovedExporter> {
    AttachAll(Without(approved, Offline), active)
  }

  /** Every decision the exporter phase may come to; only the sort leaves it a choice. */
  ghost predicate Decides(l: LeaseRecord, v: View, now: Time, d: Decision) {
    if l.status.ended || l.status.exporterRef.Some? then d == Keep
    else if l.spec.times.begin.Some? && l.spec.times.begin.value > now
        then d == Wait(Sub(l.spec.times.begin.value, now))
    else if !Convertible(l.spec.selector) then d == BadSelector
    else if Empty(l.spec.selector) then d == EmptySelector
    else if ApprovedFor(l, v).None? then d == CannotApprove
    else
      var approved := ApprovedFor(l, v).value;
      if approved == [] then d == NoAccess
      else if Without(approved, Offline) == [] then d == NoneOnline
      else d.Chose? && Chosen(Candidates(approved, v.active), d.choice)
  }

  function SetCondition(s: LeaseStatus, t: ConditionType, truth: bool, reason: string,
                        exporterNamed: string): LeaseStatus
  {
    s.(conditions := s.conditions[t := Condition(truth, reason, exporterNamed)])
  }

  /** What the exporter phase writes. The two messages that mean to name an exporter of a slice just
      emptied name the cleared slot instead. */
  function Decided(s: LeaseStatus, d: Decision): LeaseStatus {
    match d
    case Keep | Wait(_) | BadSelector | CannotApprove => s
    case EmptySelector => SetCondition(s, Invalid, true, "InvalidSelector", "")
    case NoAccess => SetCondition(s, Unsatisfiable, true, "NoAccess", "")
    case NoneOnline => SetCondition(s, Pending, true, "Offline", ZERO_ENTRY.exporter.key.name)
    case Chose(SpotOnly(name)) => SetCondition(s, Unsatisfiable, true, "SpotAccess", name)
    case Chose(AllLeased) => SetCondition(s, Pending, true, "NotAvailable", ZERO_ENTRY.exporter.key.name)
    case Chose(NeedsEviction(name)) => SetCondition(s, Pending, true, "NotAvailable", name)
    case Chose(Assign(name, priority, spot)) => s.(exporterRef := Some(name), priority := priority, spotAccess := spot)
  }

  function DecidedRequeue(requeueAfter: Duration, d: Decision): Duration {
    match d
    case Wait(delay) => delay
    case NoneOnline | Chose(AllLeased) | Chose(NeedsEviction(_)) => SECOND
    case _ => requeueAfter
  }

  // ---------------------------------------------------------------- the other two phases

  function Begun(s: LeaseStatus, now: Time): LeaseStatus {
    if s.beginTime.None? && s.exporterRef.Some?
    then SetCondition(s.(beginTime := Some(now)), Ready, true, "Ready", "")
    else s
  }

  function Released(s: LeaseStatus, stamp: Time): LeaseStatus {
    SetCondition(s, Ready, false, "Released", "").(ended := true, endTime := Some(stamp))
  }

  function Expired(s: LeaseStatus, stamp: Time): LeaseStatus {
    SetCondition(s, Ready, false, "Expired", "").(ended := true, endTime := Some(stamp))
  }

  function Finished(spec: LeaseSpec, s: LeaseStatus, now: Time, stamp: Time): LeaseStatus {
    if s.ended then s
    else if IsTrue(s, Unsatisfiable) || IsTrue(s, Invalid) then s.(ended := true, endTime := Some(now))
    else if spec.release then Released(s, stamp)
    else if s.beginTime.Some? && Expiration(spec.times, s.beginTime.value) < now then Expired(s, stamp)
    else s
  }

  function FinishedRequeue(requeueAfter: Duration, spec: LeaseSpec, s: LeaseStatus, now: Time): Duration {
    if !s.ended && !IsTrue(s, Unsatisfiable) && !IsTrue(s, Invalid) && !spec.release && s.beginTime.Some?
       && Expiration(spec.times, s.beginTime.value) >= now
    then Sub(Expiration(spec.times, s.beginTime.value), now)
    else requeueAfter
  }

  /** The status a whole reconcile computes. */
  function NewStatus(l: LeaseRecord, d: Decision, r: Readings): LeaseStatus {
    Finished(l.spec, Begun(Decided(l.status, d), r.begin), r.ended, r.stamp)
  }

  /** The delay a whole reconcile asks for; zero asks for none. */
  function NewRequeue(l: LeaseRecord, d: Decision, r: Readings): Duration {
    FinishedRequeue(DecidedRequeue(0, d), l.spec, Begun(Decided(l.status, d), r.begin), r.ended)
  }

  // ---------------------------------------------------------------- the code

  /** The result a reconcile fills in. */
  class ReconcileResult {
    var requeueAfter: Duration

    constructor ()
      ensures requeueAfter == 0
    {
      requeueAfter := 0;
    }
  }

  /** A lease as a reconcile holds it in memory, and as an RPC edits it. */
  class Lease {
    const key: Key
    var spec: LeaseSpec
    var status: LeaseStatus
    var endedLabel: bool
    var owner: Option<string>
    var version: nat

    constructor (l: LeaseRecord)
      ensures Record() == l
    {
      key, spec, status := l.key, l.spec, l.status;
      endedLabel, owner, version := l.endedLabel, l.owner, l.version;
    }

    function Record(): LeaseRecord
      reads this
    {
      LeaseRecord(key, spec, status, endedLabel, owner, version)
    }

    method SetStatusCondition(t: ConditionType, truth: bool, reason: string, exporterNamed: string)
      modifies this`status
      ensures status == SetCondition(old(status), t, truth, reason, exporterNamed)
    {
      status := status.(conditions := status.conditions[t := Condition(truth, reason, exporterNamed)]);
    }

    method Release(stamp: Time)
      modifies this`status
      ensures status == Released(old(status), stamp)
    {
      SetStatusCondition(Ready, false, "Released", "");
      status := status.(ended := true);
      status := status.(endTime := Some(stamp));
    }

    method Expire(stamp: Time)
      modifies this`status
      ensures status == Expired(old(status), stamp)
    {
      SetStatusCondition(Ready, false, "Expired", "");
      status := status.(ended := true);
      status := status.(endTime := Some(stamp));
    }
  }

  method ListMatchingExporters(exporters: seq<Exporter>, selector: LabelSelector) returns (matching: seq<Exporter>)
    ensures matching == Selected(exporters, selector)
  {
    matching := [];
    for i := 0 to |exporters|
      invariant matching == Selected(exporters[..i], selector)
    {
      assert exporters[..i + 1][..i] == exporters[..i];
      if Matches(selector, exporters[i].labels) {
        matching := matching + [exporters[i]];
      }
    }
    assert exporters[..|exporters|] == exporters;
  }

  /** The last third of the exporter phase: from the ordered entries to the status. The filter works
      on the array the order was made in, and the conditions are written from what it leaves there. */
  method TakeFirst(result: ReconcileResult, lease: Lease, entries: array<ApprovedExporter>, n: nat)
    requires 0 < n <= entries.Length
    modifies result, lease`status, entries
    ensures lease.status == Decided(old(lease.status), Chose(Choose(old(entries[..n]))))
    ensures result.requeueAfter == DecidedRequeue(old(result.requeueAfter), Chose(Choose(old(entries[..n]))))
    ensures Choose(old(entries[..n])).AllLeased? ==>
              Pending in lease.status.conditions && lease.status.conditions[Pending].exporterNamed == ""
  {
    ghost var ordered := entries[..n];
    assert entries[0] == ordered[0];
    if n > 0 && entries[0].policy.spotAccess {
      lease.SetStatusCondition(Unsatisfiable, true, "SpotAccess", entries[0].exporter.key.name);
      return;
    }
    var available := DeleteFunc(entries, n, Blocked);
    assert entries[..available] == Without(ordered, Blocked);
    if available == 0 {
      lease.SetStatusCondition(Pending, true, "NotAvailable", entries[0].exporter.key.name);
      result.requeueAfter := SECOND;
      return;
    }
    var selected := entries[0];
    assert selected == entries[..available][0];
    if selected.existingLease.Some? {
      lease.SetStatusCondition(Pending, true, "NotAvailable", selected.exporter.key.name);
      result.requeueAfter := SECOND;
      return;
    }
    lease.status := lease.status.(priority := selected.policy.priority);
    lease.status := lease.status.(spotAccess := selected.policy.spotAccess);
    lease.status := lease.status.(exporterRef := Some(selected.exporter.key.name));
  }

  /** Nothing is online: the message means to name an approved exporter, but its slot has been cleared. */
  method ReportOffline(result: ReconcileResult, lease: Lease, entries: array<ApprovedExporter>)
    requires entries.Length > 0 && entries[0] == ZERO_ENTRY
    modifies result, lease`status
    ensures lease.status == Decided(old(lease.status), NoneOnline)
    ensures result.requeueAfter == DecidedRequeue(old(result.requeueAfter), NoneOnline)
    ensures Pending in lease.status.conditions && lease.status.conditions[Pending].exporterNamed == ""
  {
    lease.SetStatusCondition(Pending, true, "Offline", entries[0].exporter.key.name);
    result.requeueAfter := SECOND;
  }

  /** The middle third: the offline filter, the attached leases and the sort, all in one array. */
  method SelectExporter(result: ReconcileResult, lease: Lease, approved: seq<ApprovedExporter>,
                        active: seq<LeaseRecord>) returns (ghost d: Decision)
    requires approved != []
    modifies result, lease`status
    ensures if Without(approved, Offline) == [] then d == NoneOnline
            else d.Chose? && Chosen(Candidates(approved, active), d.choice)
    ensures lease.status == Decided(old(lease.status), d)
    ensures result.requeueAfter == DecidedRequeue(old(result.requeueAfter), d)
    ensures d.NoneOnline? ==>
              Pending in lease.status.conditions && lease.status.conditions[Pending].exporterNamed == ""
  {
    var entries := new ApprovedExporter[|approved|](i requires 0 <= i < |approved| => approved[i]);
    assert entries[..entries.Length] == approved;
    var online := DeleteFunc(entries, entries.Length, Offline);
    if online == 0 {
      ReportOffline(result, lease, entries);
      return NoneOnline;
    }
    ghost var choice := ChooseOnline(result, lease, entries, online, active);
    d := Chose(choice);
  }

  /** Attaching, sorting and choosing among the first `n` entries, in place. */
  method ChooseOnline(result: ReconcileResult, lease: Lease, entries: array<ApprovedExporter>, n: nat,
                      active: seq<LeaseRecord>)
      returns (ghost choice: Choice)
    requires 0 < n <= entries.Length
    modifies result, lease`status, entries
    ensures Chosen(AttachAll(old(entries[..n]), active), choice)
    ensures lease.status == Decided(old(lease.status), Chose(choice))
    ensures result.requeueAfter == DecidedRequeue(old(result.requeueAfter), Chose(choice))
  {
    AttachExistingLeases(entries, n, active);
    ghost var candidates := entries[..n];
    OrderApprovedExporters(entries, n);
    ghost var ordered := entries[..n];
    assert Chosen(candidates, Choose(ordered));
    TakeFirst(result, lease, entries, n);
    choice := Choose(ordered);
  }

  /** Assigns an exporter, or records why none can be assigned. */
  method ReconcileStatusExporterRef(result: ReconcileResult, lease: Lease, v: View, now: Time)
      returns (error: bool, ghost d: Decision)
    modifies result, lease`status
    ensures Decides(old(lease.Record()), v, now, d) && (error <==> IsError(d))
    ensures lease.status == Decided(old(lease.status), d)
    ensures result.requeueAfter == DecidedRequeue(old(result.requeueAfter), d)
  {
    error := false;
    if lease.status.ended {
      d := Keep;
      return;
    }
    if lease.status.exporterRef.None? {
      if lease.spec.times.begin.Some? {
        if lease.spec.times.begin.value > now {
          var waitDuration := Sub(lease.spec.times.begin.value, now);
          result.requeueAfter := waitDuration;
          d := Wait(waitDuration);
          return;
        }
      }
      if !Convertible(lease.spec.selector) {
        return true, BadSelector;
      } else if Empty(lease.spec.selector) {
        lease.SetStatusCondition(Invalid, true, "InvalidSelector", "");
        d := EmptySelector;
        return;
      }
      var matching := ListMatchingExporters(v.exporters, lease.spec.selector);
      var attached := AttachMatchingPolicies(lease.spec, matching, v.policies, v.client);
      if attached.None? {
        return true, CannotApprove;
      }
      var approved := attached.value;
      if |approved| == 0 {
        lease.SetStatusCondition(Unsatisfiable, true, "NoAccess", "");
        d := NoAccess;
        return;
      }

      error := false;
      d := SelectExporter(result, lease, approved, v.active);
      return;
    }
    d := Keep;
  }

  method ReconcileStatusBeginEndTimes(lease: Lease, now: Time)
    modifies lease`status
    ensures lease.status == Begun(old(lease.status), now)
  {
    if lease.status.beginTime.None? && lease.status.exporterRef.Some? {
      lease.status := lease.status.(beginTime := Some(now));
      lease.SetStatusCondition(Ready, true, "Ready", "");
    }
  }

  method ReconcileStatusEnded(result: ReconcileResult, lease: Lease, now: Time, stamp: Time)
    modifies result, lease`status
    ensures lease.status == Finished(lease.spec, old(lease.status), now, stamp)
    ensures result.requeueAfter == FinishedRequeue(old(result.requeueAfter), lease.spec, old(lease.status), now)
  {
    if !lease.status.ended {
      if IsTrue(lease.status, Unsatisfiable) || IsTrue(lease.status, Invalid) {
        lease.status := lease.status.(ended := true);
        lease.status := lease.status.(endTime := Some(now));
        return;
      } else if lease.spec.release {
        lease.Release(stamp);
        return;
      } else if lease.status.beginTime.Some? {
        var expiration := ZERO_TIME;
        if lease.spec.times.end.Some? {
          expiration := lease.spec.times.end.value;
        } else if lease.spec.times.begin.Some? && lease.spec.times.duration.Some? {
          expiration := lease.spec.times.begin.value + lease.spec.times.duration.value;
        } else if lease.spec.times.duration.Some? {
          expiration := lease.status.beginTime.value + lease.spec.times.duration.value;
        }
        if expiration < now {
          lease.Expire(stamp);
          return;
        }
        result.requeueAfter := Sub(expiration, now);
        return;
      }
    }
  }

  // ---------------------------------------------------------------- what every status keeps

  /** Ended goes with an end time, an exporter with a begin time; ready means holding an exporter and
      not ended; unsatisfiable or invalid means ended without ever holding one. */
  predicate Coherent(s: LeaseStatus) {
    && (s.ended <==> s.endTime.Some?)
    && (s.exporterRef.Some? <==> s.beginTime.Some?)
    && (IsTrue(s, Ready) <==> s.exporterRef.Some? && !s.ended)
    && (IsTrue(s, Unsatisfiable) || IsTrue(s, Invalid) ==> s.ended && s.exporterRef.None?)
  }

  /** What may happen to a status over time: the exporter with its priority, the begin time and the
      end time are written once, and an ended status does not change at all. */
  predicate Evolves(before: LeaseStatus, after: LeaseStatus) {
    && (before.exporterRef.Some? ==> after.exporterRef == before.exporterRef)
    && (before.exporterRef.Some? ==> after.priority == before.priority && after.spotAccess == before.spotAccess)
    && (before.beginTime.Some? ==> after.beginTime == before.beginTime)
    && (before.endTime.Some? ==> after.endTime == before.endTime)
    && (before.ended ==> after == before)
  }

  lemma EvolvesTransitive(a: LeaseStatus, b: LeaseStatus, c: LeaseStatus)
    requires Evolves(a, b) && Evolves(b, c)
    ensures Evolves(a, c)
  {
  }

  /** The part of a decision that its effect on the status depends on, whatever the lists hold. */
  predicate Timely(l: LeaseRecord, now: Time, d: Decision) {
    if l.status.ended || l.status.exporterRef.Some? then d == Keep
    else if l.spec.times.begin.Some? && l.spec.times.begin.value > now
        then d == Wait(Sub(l.spec.times.begin.value, now))
    else !d.Keep? && !d.Wait?
  }

  lemma DecidesTimely(l: LeaseRecord, v: View, now: Time, d: Decision)
    requires Decides(l, v, now, d)
    ensures Timely(l, now, d)
  {
  }

  /** Between the second and the third phase: a refused lease is not ended yet. */
  predicate Halfway(s: LeaseStatus) {
    && (s.ended <==> s.endTime.Some?)
    && (s.exporterRef.Some? <==> s.beginTime.Some?)
    && (IsTrue(s, Ready) <==> s.exporterRef.Some? && !s.ended)
    && (IsTrue(s, Unsatisfiable) || IsTrue(s, Invalid) ==> s.exporterRef.None?)
  }

  lemma BegunHalfway(l: LeaseRecord, d: Decision, r: Readings)
    requires Coherent(l.status) && Timely(l, r.decide, d)
    ensures Halfway(Begun(Decided(l.status, d), r.begin)) && Evolves(l.status, Begun(Decided(l.status, d), r.begin))
  {
  }

  lemma FinishedCoherent(spec: LeaseSpec, s: LeaseStatus, now: Time, stamp: Time)
    requires Halfway(s)
    ensures Coherent(Finished(spec, s, now, stamp)) && Evolves(s, Finished(spec, s, now, stamp))
  {
  }

  /** One reconcile keeps the status coherent and only lets it evolve. */
  lemma ReconcileCoherent(l: LeaseRecord, d: Decision, r: Readings)
    requires Coherent(l.status) && Timely(l, r.decide, d)
    ensures Coherent(NewStatus(l, d, r)) && Evolves(l.status, NewStatus(l, d, r))
  {
    var begun := Begun(Decided(l.status, d), r.begin);
    BegunHalfway(l, d, r);
    FinishedCoherent(l.spec, begun, r.ended, r.stamp);
    EvolvesTransitive(l.status, begun, NewStatus(l, d, r));
  }

  /** Only an assignment touches the exporter, the priority and the spot flag, and it records those chosen. */
  lemma OnlyAssignmentAssigns(l: LeaseRecord, d: Decision, r: Readings)
    ensures var s, assigns := NewStatus(l, d, r), d.Chose? && d.choice.Assign?;
            && s.spotAccess == (if assigns then d.choice.spot else l.status.spotAccess)
            && s.priority == (if assigns then d.choice.priority else l.status.priority)
            && s.exporterRef == (if assigns then Some(d.choice.name) else l.status.exporterRef)
  {
    var begun := Begun(Decided(l.status, d), r.begin);
    assert begun.spotAccess == Decided(l.status, d).spotAccess && begun.exporterRef == Decided(l.status, d).exporterRef;
  }

  predicate Refused(d: Decision) {
    d.EmptySelector? || d.NoAccess? || (d.Chose? && d.choice.SpotOnly?)
  }

  /** What the conditions and the end time tell of one reconcile of a lease that had not ended: an empty selector makes
      it invalid, no access or only spot access unsatisfiable, waiting for an exporter pending; a refused lease
      ended when the third phase looked at the clock, a released or expired one when its end was recorded. */
  lemma StatusTells(l: LeaseRecord, d: Decision, r: Readings)
    requires Coherent(l.status) && !l.status.ended && Timely(l, r.decide, d)
    ensures var s := NewStatus(l, d, r);
            && (IsTrue(s, Invalid) <==> d.EmptySelector?)
            && (IsTrue(s, Unsatisfiable) <==> d.NoAccess? || (d.Chose? && d.choice.SpotOnly?))
            && (IsTrue(s, Pending)
                <==> IsTrue(l.status, Pending) || d.NoneOnline?
                     || (d.Chose? && (d.choice.AllLeased? || d.choice.NeedsEviction?)))
    ensures var s := NewStatus(l, d, r);
            && (s.ended && Refused(d) ==> s.endTime == Some(r.ended))
            && (s.ended && !Refused(d) ==>
                  && s.endTime == Some(r.stamp) && Ready in s.conditions
                  && s.conditions[Ready].reason == if l.spec.release then "Released" else "Expired")
  {
    HalfStatusTells(l, d, r);
    FinishTells(l.spec, Begun(Decided(l.status, d), r.begin), r.ended, r.stamp);
  }

  lemma HalfStatusTells(l: LeaseRecord, d: Decision, r: Readings)
    requires Coherent(l.status) && !l.status.ended && Timely(l, r.decide, d)
    ensures var s := Begun(Decided(l.status, d), r.begin);
            && !s.ended
            && (IsTrue(s, Invalid) <==> d.EmptySelector?)
            && (IsTrue(s, Unsatisfiable) <==> d.NoAccess? || (d.Chose? && d.choice.SpotOnly?))
            && (IsTrue(s, Pending)
                <==> IsTrue(l.status, Pending) || d.NoneOnline?
                     || (d.Chose? && (d.choice.AllLeased? || d.choice.NeedsEviction?)))
  {
  }

  lemma FinishTells(spec: LeaseSpec, s: LeaseStatus, now: Time, stamp: Time)
    requires !s.ended
    ensures var t, refused := Finished(spec, s, now, stamp), IsTrue(s, Unsatisfiable) || IsTrue(s, Invalid);
            && (forall c | c != Ready :: IsTrue(t, c) <==> IsTrue(s, c))
            && (t.ended && refused ==> t.endTime == Some(now))
            && (t.ended && !refused ==>
                  && t.endTime == Some(stamp) && Ready in t.conditions
                  && t.conditions[Ready].reason == if spec.release then "Released" else "Expired")
  {
  }

  /** Without the invariant that an exporter comes with a begin time, an ended lease would change. */
  lemma EndedNeedsBeginTime(l: LeaseRecord, r: Readings)
    requires l.status.ended
    ensures NewStatus(l, Keep, r) == l.status <==> (l.status.exporterRef.Some? ==> l.status.beginTime.Some?)
  {
  }

  // ---------------------------------------------------------------- deadlines

  /** A lease that was not ended is ended by exactly three things: a refusal, a release, or a clock
      past its expiry. */
  lemma EndsExactlyWhen(l: LeaseRecord, d: Decision, r: Readings)
    requires Coherent(l.status) && !l.status.ended && Timely(l, r.decide, d)
    ensures var s := NewStatus(l, d, r);
            s.ended <==> (Refused(d) || l.spec.release
                          || (s.beginTime.Some? && Expiration(l.spec.times, s.beginTime.value) < r.ended))
  {
    var decided := Decided(l.status, d);
    var begun := Begun(decided, r.begin);
    assert Refused(d) <==> IsTrue(decided, Unsatisfiable) || IsTrue(decided, Invalid);
    assert IsTrue(begun, Unsatisfiable) == IsTrue(decided, Unsatisfiable)
            && IsTrue(begun, Invalid) == IsTrue(decided, Invalid);
  }

  /** A running, unreleased lease whose time fields agree ends exactly when the clock is past start
      plus duration; until then the reconcile comes back after exactly the time that is left. */
  lemma DeadlineExact(l: LeaseRecord, d: Decision, r: Readings)
    requires Coherent(l.status) && !l.status.ended && Timely(l, r.decide, d)
    requires !l.spec.release && Exact(l.spec.times) && NewStatus(l, d, r).beginTime.Some?
    ensures var s := NewStatus(l, d, r);
            var deadline := Start(l.spec.times, s.beginTime.value) + l.spec.times.duration.value;
            && (s.ended <==> r.ended > deadline)
            && (!s.ended ==> NewRequeue(l, d, r) == Sub(deadline, r.ended) && NewRequeue(l, d, r) >= 0)
  {
    ExpirationIsDeadline(l.spec.times, NewStatus(l, d, r).beginTime.value);
    EndsExactlyWhen(l, d, r);
  }

  /** A reconcile without error leaves no lease waiting for nothing: the lease is ended, or the
      reconcile asks to come back, with one exception. At the very instant of expiry the lease is
      neither ended nor looked at again. */
  lemma NeverForgotten(l: LeaseRecord, d: Decision, r: Readings)
    requires Coherent(l.status) && Timely(l, r.decide, d) && !IsError(d)
    requires !NewStatus(l, d, r).ended
    ensures var s := NewStatus(l, d, r);
            NewRequeue(l, d, r) <= 0 <==> s.beginTime.Some? && Expiration(l.spec.times, s.beginTime.value) == r.ended
  {
    EndsExactlyWhen(l, d, r);
  }

  /** A lease created without a duration gets its exporter and loses it in the same reconcile. */
  lemma NoDurationExpiresAtOnce(l: LeaseRecord, d: Decision, r: Readings)
    requires Coherent(l.status) && !l.status.ended && Timely(l, r.decide, d)
    requires d.Chose? && d.choice.Assign? && l.spec.times.duration.None? && l.spec.times.end.None?
    requires InOrder(r) && r.decide > ZERO_TIME
    ensures NewStatus(l, d, r).ended && NewStatus(l, d, r).exporterRef == Some(d.choice.name)
  {
    EndsExactlyWhen(l, d, r);
  }

  /** A scheduled lease is never assigned, and so never begins, before its requested begin. */
  lemma BeginsAfterRequest(l: LeaseRecord, d: Decision, r: Readings)
    requires Coherent(l.status) && Timely(l, r.decide, d) && InOrder(r)
    requires l.status.exporterRef.None? && NewStatus(l, d, r).exporterRef.Some? && l.spec.times.begin.Some?
    ensures NewStatus(l, d, r).beginTime.Some? && NewStatus(l, d, r).beginTime.value >= l.spec.times.begin.value
  {
    assert Begun(Decided(l.status, d), r.begin).beginTime == Some(r.begin);
  }
}
