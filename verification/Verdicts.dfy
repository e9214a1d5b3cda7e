/**
 What the exporter phase promises in the terms of its inputs: which exporter a lease gets, when it
 gets one, and that the order of the lists it reads plays no part.
 */
module Verdicts {
  import opened Options
  import opened Identifiers
  import opened LabelSelectors
  import opened LeaseTimes
  import opened LeaseTypes
  import opened Scheduling
  import opened LeaseReconciler

  /** Some policy lets the client of the lease use this exporter for the requested duration. */
  ghost predicate Approvable(l: LeaseRecord, v: View, e: Exporter, p: Policy) {
    && e in v.exporters && Matches(l.spec.selector, e.labels)
    && if v.policies == [] then p == DEFAULT_POLICY
       else v.client.Some? && Admits(v.policies, e, p, v.client.value, RequestedDuration(l.spec.times))
  }

  /** The same for an exporter that is online. */
  ghost predicate Offered(l: LeaseRecord, v: View, e: Exporter, p: Policy) {
    Approvable(l, v, e, p) && e.registered && e.online
  }

  ghost predicate Leased(v: View, e: Exporter) {
    exists a :: a in v.active && Holds(a, e.key.name)
  }

  ghost function OfferRank(v: View, e: Exporter, p: Policy): Rank {
    Rank(Leased(v, e), p.spotAccess, p.priority, e.key.name)
  }

  /** The lease is looking for an exporter, and every read it needs succeeds. */
  predicate Seeking(l: LeaseRecord, v: View, now: Time) {
    && !l.status.ended && l.status.exporterRef.None?
    && (l.spec.times.begin.Some? ==> l.spec.times.begin.value <= now)
    && Convertible(l.spec.selector) && !Empty(l.spec.selector)
    && ApprovedFor(l, v).Some?
  }

  /** When a policy lets the client use an exporter that matches, for each form a request for time can take. */
  lemma ApprovableWrittenOut(l: LeaseRecord, v: View, e: Exporter, p: Policy)
    requires v.policies != [] && v.client.Some?
    ensures var t, limit := l.spec.times, p.maximumDuration;
            var pairs := e in v.exporters && Matches(l.spec.selector, e.labels)
                         && Pairs(v.policies, e, p, v.client.value);
            && (limit.None? ==> (Approvable(l, v, e, p) <==> pairs))
            && (limit.Some? && t.duration.Some? ==>
                  (Approvable(l, v, e, p) <==> pairs && t.duration.value <= limit.value))
            && (limit.Some? && t.duration.None? && t.begin.Some? && t.end.Some? ==>
                  (Approvable(l, v, e, p)
                   <==> pairs && (t.end.value - t.begin.value <= limit.value || limit.value == MAX_INT64)))
            && (limit.Some? && t.duration.None? && (t.begin.None? || t.end.None?) ==>
                  (Approvable(l, v, e, p) <==> pairs && 0 <= limit.value))
  {
    LimitMeans(p, l.spec.times);
    AdmitsIsPairs(v.policies, e, p, v.client.value, RequestedDuration(l.spec.times));
  }

  // ---------------------------------------------------------------- the entries are the offers

  lemma DefaultApprovalsExact(es: seq<Exporter>, x: ApprovedExporter)
    ensures x in DefaultApprovals(es) <==> x.exporter in es && x == ApprovedExporter(x.exporter, None, DEFAULT_POLICY)
  {
    if x.exporter in es && x == ApprovedExporter(x.exporter, None, DEFAULT_POLICY) {
      var i :| 0 <= i < |es| && es[i] == x.exporter;
      assert DefaultApprovals(es)[i] == x;
    }
  }

  lemma ApprovedExact(l: LeaseRecord, v: View, x: ApprovedExporter)
    requires ApprovedFor(l, v).Some?
    ensures x in ApprovedFor(l, v).value <==> x.existingLease.None? && Approvable(l, v, x.exporter, x.policy)
  {
    var selected := Selected(v.exporters, l.spec.selector);
    WithoutMembers(v.exporters, (e: Exporter) => !Matches(l.spec.selector, e.labels), x.exporter);
    if v.policies == [] {
      DefaultApprovalsExact(selected, x);
    } else {
      ApprovalsExact(selected, v.policies, v.client.value, RequestedDuration(l.spec.times), x);
    }
  }

  lemma AttachAllMembers(s: seq<ApprovedExporter>, active: seq<LeaseRecord>, x: ApprovedExporter)
    requires forall y :: y in s ==> y.existingLease.None?
    ensures x in AttachAll(s, active)
       <==> x.(existingLease := None) in s && x.existingLease == LastHolder(active, x.exporter.key.name)
  {
    var all := AttachAll(s, active);
    if x in all {
      var i :| 0 <= i < |all| && all[i] == x;
      assert s[i] == x.(existingLease := None);
    }
    if x.(existingLease := None) in s && x.existingLease == LastHolder(active, x.exporter.key.name) {
      var i :| 0 <= i < |s| && s[i] == x.(existingLease := None);
      assert all[i] == x;
    }
  }

  /** The entries the choice is made from are the offers, each with the last listed lease on it. */
  lemma CandidatesExact(l: LeaseRecord, v: View, x: ApprovedExporter)
    requires ApprovedFor(l, v).Some?
    ensures x in Candidates(ApprovedFor(l, v).value, v.active)
       <==> Offered(l, v, x.exporter, x.policy) && x.existingLease == LastHolder(v.active, x.exporter.key.name)
  {
    var approved := ApprovedFor(l, v).value;
    var online := Without(approved, Offline);
    forall y ensures y in online <==> y.existingLease.None? && Offered(l, v, y.exporter, y.policy) {
      WithoutMembers(approved, Offline, y);
      ApprovedExact(l, v, y);
    }
    AttachAllMembers(online, v.active, x);
  }

  /** The entry of an offer. */
  ghost function EntryOf(v: View, e: Exporter, p: Policy): ApprovedExporter {
    ApprovedExporter(e, LastHolder(v.active, e.key.name), p)
  }

  lemma EntryOfOffer(l: LeaseRecord, v: View, e: Exporter, p: Policy)
    requires ApprovedFor(l, v).Some?
    ensures EntryOf(v, e, p) in Candidates(ApprovedFor(l, v).value, v.active) <==> Offered(l, v, e, p)
    ensures RankOf(EntryOf(v, e, p)) == OfferRank(v, e, p)
  {
    CandidatesExact(l, v, EntryOf(v, e, p));
    LastHolderExact(v.active, e.key.name);
  }

  /** The priorities of any two offers between which priority decides can be subtracted. */
  ghost predicate OffersClose(l: LeaseRecord, v: View) {
    forall e, p, e', p' ::
      Offered(l, v, e, p) && Offered(l, v, e', p') && (Leased(v, e) <==> Leased(v, e')) && p.spotAccess == p'.spotAccess
      ==> FitsInt64(p.priority - p'.priority)
  }

  lemma CandidatesBounded(l: LeaseRecord, v: View)
    requires ApprovedFor(l, v).Some? && OffersClose(l, v)
    ensures PrioritiesBounded(Candidates(ApprovedFor(l, v).value, v.active))
  {
    var s := Candidates(ApprovedFor(l, v).value, v.active);
    forall x | x in s
      ensures Offered(l, v, x.exporter, x.policy) && (x.existingLease.Some? <==> Leased(v, x.exporter))
    {
      CandidatesExact(l, v, x);
      LastHolderExact(v.active, x.exporter.key.name);
    }
    forall i, j | 0 <= i < |s| && 0 <= j < |s| && SameClass(s[i], s[j]) ensures Comparable(s[i], s[j]) {
      assert s[i] in s && s[j] in s;
    }
  }

  // ---------------------------------------------------------------- the exact verdict

  ghost predicate SomeApprovable(l: LeaseRecord, v: View) {
    exists e, p :: Approvable(l, v, e, p)
  }

  ghost predicate SomeOffered(l: LeaseRecord, v: View) {
    exists e, p :: Offered(l, v, e, p)
  }

  ghost predicate FreeOffer(l: LeaseRecord, v: View, e: Exporter, p: Policy) {
    Offered(l, v, e, p) && !p.spotAccess && !Leased(v, e)
  }

  ghost predicate SomeFreeOffer(l: LeaseRecord, v: View) {
    exists e, p :: FreeOffer(l, v, e, p)
  }

  ghost predicate SomeUnleasedOffer(l: LeaseRecord, v: View) {
    exists e, p :: Offered(l, v, e, p) && !Leased(v, e)
  }

  ghost predicate OnlySpotOffers(l: LeaseRecord, v: View) {
    forall e, p :: Offered(l, v, e, p) ==> p.spotAccess
  }

  lemma CandidatesReflectOffers(l: LeaseRecord, v: View)
    requires ApprovedFor(l, v).Some?
    ensures var s := Candidates(ApprovedFor(l, v).value, v.active);
            && (s != [] <==> SomeOffered(l, v))
            && (AnyFree(s) <==> SomeFreeOffer(l, v))
            && (AnyUnleased(s) <==> SomeUnleasedOffer(l, v))
            && (AllSpot(s) <==> OnlySpotOffers(l, v))
    ensures ApprovedFor(l, v).value != [] <==> SomeApprovable(l, v)
    ensures Without(ApprovedFor(l, v).value, Offline) != [] <==> SomeOffered(l, v)
  {
    var s := Candidates(ApprovedFor(l, v).value, v.active);
    ApprovedReflectsApprovable(l, v);
    forall x | x in s
      ensures Offered(l, v, x.exporter, x.policy) && (x.existingLease.Some? <==> Leased(v, x.exporter))
    {
      CandidatesExact(l, v, x);
      LastHolderExact(v.active, x.exporter.key.name);
    }
    forall e, p | Offered(l, v, e, p)
      ensures EntryOf(v, e, p) in s && (EntryOf(v, e, p).existingLease.Some? <==> Leased(v, e))
    {
      EntryOfOffer(l, v, e, p);
    }
    assert s != [] ==> s[0] in s;
    if AnyFree(s) {
      var x :| x in s && Free(x);
      assert FreeOffer(l, v, x.exporter, x.policy);
    }
    if SomeFreeOffer(l, v) {
      var e, p :| FreeOffer(l, v, e, p);
      assert Free(EntryOf(v, e, p));
    }
  }

  lemma ApprovedReflectsApprovable(l: LeaseRecord, v: View)
    requires ApprovedFor(l, v).Some?
    ensures ApprovedFor(l, v).value != [] <==> SomeApprovable(l, v)
  {
    var approved := ApprovedFor(l, v).value;
    forall e, p | Approvable(l, v, e, p) ensures ApprovedExporter(e, None, p) in approved {
      ApprovedExact(l, v, ApprovedExporter(e, None, p));
    }
    if approved != [] {
      ApprovedExact(l, v, approved[0]);
    }
  }

  /** Work conservation and the complete case split, whatever the priorities: the lease gets an exporter if and
      only if some offer is unleased and without spot access; otherwise each refusal and each wait has its
      exact condition. A leased exporter without spot access does not save a lease from being refused for
      spot access when some spot offer is unleased. */
  lemma ExactOutcome(l: LeaseRecord, v: View, now: Time, d: Decision)
    requires Seeking(l, v, now) && Decides(l, v, now, d)
    ensures d.NoAccess? <==> !SomeApprovable(l, v)
    ensures d.NoneOnline? <==> SomeApprovable(l, v) && !SomeOffered(l, v)
    ensures d.Chose? && d.choice.Assign? <==> SomeFreeOffer(l, v)
    ensures d.Chose? && d.choice.SpotOnly?
       <==> SomeOffered(l, v) && !SomeFreeOffer(l, v) && (SomeUnleasedOffer(l, v) || OnlySpotOffers(l, v))
    ensures d.Chose? && (d.choice.AllLeased? || d.choice.NeedsEviction?)
       <==> SomeOffered(l, v) && !SomeUnleasedOffer(l, v) && !OnlySpotOffers(l, v)
  {
    CandidatesReflectOffers(l, v);
    if d.Chose? {
      ExactVerdict(Candidates(ApprovedFor(l, v).value, v.active), d.choice);
    }
  }

  /** `e` under `p` is an offer and no offer ranks before it. */
  ghost predicate BestOffer(l: LeaseRecord, v: View, e: Exporter, p: Policy) {
    && Offered(l, v, e, p)
    && forall e', p' :: Offered(l, v, e', p') ==> NotAfter(OfferRank(v, e, p), OfferRank(v, e', p'))
  }

  /** A lease that is looking and has offers gets one of the choices on its candidates, and may get any. */
  lemma DecidesAmongOffers(l: LeaseRecord, v: View, now: Time, d: Decision)
    requires Seeking(l, v, now) && SomeOffered(l, v)
    ensures Decides(l, v, now, d) <==> d.Chose? && Chosen(Candidates(ApprovedFor(l, v).value, v.active), d.choice)
  {
    CandidatesReflectOffers(l, v);
  }

  /** The best offer is sure to be assigned exactly when its priority can be subtracted, in 64 bits, from that
      of every other offer that is unleased and without spot access. */
  lemma BestAssignedExactlyWhen(l: LeaseRecord, v: View, now: Time, e: Exporter, p: Policy)
    requires Seeking(l, v, now) && BestOffer(l, v, e, p) && FreeOffer(l, v, e, p)
    ensures (forall d :: Decides(l, v, now, d) ==> d == Chose(Assign(e.key.name, p.priority, false)))
       <==> (forall e', p' :: FreeOffer(l, v, e', p') ==> FitsInt64(p.priority - p'.priority))
  {
    var s, best := Candidates(ApprovedFor(l, v).value, v.active), EntryOf(v, e, p);
    var expected := Assign(e.key.name, p.priority, false);
    BestEntry(l, v, e, p);
    ReachesFreeOffers(l, v, p.priority, best);
    OptimalExactlyWhen(s, best);
    forall d ensures Decides(l, v, now, d) <==> d.Chose? && Chosen(s, d.choice) {
      DecidesAmongOffers(l, v, now, d);
    }
    forall c ensures Decides(l, v, now, Chose(c)) <==> Chosen(s, c) {
    }
    assert (forall d :: Decides(l, v, now, d) ==> d == Chose(expected))
            <==> (forall c :: Chosen(s, c) ==> c == expected);
  }

  lemma BestEntry(l: LeaseRecord, v: View, e: Exporter, p: Policy)
    requires ApprovedFor(l, v).Some? && BestOffer(l, v, e, p)
    ensures Least(EntryOf(v, e, p), Candidates(ApprovedFor(l, v).value, v.active))
    ensures Free(EntryOf(v, e, p)) <==> FreeOffer(l, v, e, p)
  {
    var s := Candidates(ApprovedFor(l, v).value, v.active);
    EntryOfOffer(l, v, e, p);
    LastHolderExact(v.active, e.key.name);
    forall x | x in s ensures NotAfter(RankOf(EntryOf(v, e, p)), RankOf(x)) {
      CandidatesExact(l, v, x);
      assert x == EntryOf(v, x.exporter, x.policy);
      EntryOfOffer(l, v, x.exporter, x.policy);
    }
  }

  lemma ReachesFreeOffers(l: LeaseRecord, v: View, priority: Int64, best: ApprovedExporter)
    requires ApprovedFor(l, v).Some? && best.policy.priority == priority
    ensures Reaches(best, Candidates(ApprovedFor(l, v).value, v.active))
       <==> forall e, p :: FreeOffer(l, v, e, p) ==> FitsInt64(priority - p.priority)
  {
    var s := Candidates(ApprovedFor(l, v).value, v.active);
    forall x
      ensures x in s && Free(x)
         <==> x == EntryOf(v, x.exporter, x.policy) && FreeOffer(l, v, x.exporter, x.policy)
    {
      CandidatesExact(l, v, x);
      LastHolderExact(v.active, x.exporter.key.name);
    }
    if Reaches(best, s) {
      forall e, p | FreeOffer(l, v, e, p) ensures FitsInt64(priority - p.priority) {
        var x := EntryOf(v, e, p);
        assert x in s && Free(x);
        var i :| 0 <= i < |s| && s[i] == x;
      }
    } else {
      var i :| 0 <= i < |s| && Free(s[i]) && !FitsInt64(priority - s[i].policy.priority);
      assert s[i] in s;
      assert FreeOffer(l, v, s[i].exporter, s[i].policy);
    }
  }

  /** The priorities of the offers that are unleased and without spot access can be subtracted. */
  ghost predicate FreeOffersClose(l: LeaseRecord, v: View) {
    forall e, p, e', p' ::
      FreeOffer(l, v, e, p) && FreeOffer(l, v, e', p') ==> FitsInt64(p.priority - p'.priority)
  }

  lemma LeastIsBestOffer(l: LeaseRecord, v: View, best: ApprovedExporter)
    requires ApprovedFor(l, v).Some? && Least(best, Candidates(ApprovedFor(l, v).value, v.active))
    ensures BestOffer(l, v, best.exporter, best.policy)
  {
    var e, p := best.exporter, best.policy;
    CandidatesExact(l, v, best);
    assert best == EntryOf(v, e, p);
    EntryOfOffer(l, v, e, p);
    forall e', p' | Offered(l, v, e', p') ensures NotAfter(OfferRank(v, e, p), OfferRank(v, e', p')) {
      EntryOfOffer(l, v, e', p');
    }
  }

  /** Where some offer is free, the best one is. */
  lemma SomeBestOffer(l: LeaseRecord, v: View) returns (e: Exporter, p: Policy)
    requires ApprovedFor(l, v).Some? && SomeFreeOffer(l, v)
    ensures BestOffer(l, v, e, p) && FreeOffer(l, v, e, p)
  {
    var s := Candidates(ApprovedFor(l, v).value, v.active);
    var e', p' :| FreeOffer(l, v, e', p');
    EntryOfOffer(l, v, e', p');
    var best := SomeLeast(s);
    LeastIsBestOffer(l, v, best);
    e, p := best.exporter, best.policy;
    assert NotAfter(OfferRank(v, e, p), OfferRank(v, e', p'));
  }

  /** Optimality: what gets recorded is the name and the priority of the best offer, which is unleased
      and without spot access. */
  lemma OptimalAssignment(l: LeaseRecord, v: View, now: Time, d: Decision) returns (e: Exporter, p: Policy)
    requires Decides(l, v, now, d) && FreeOffersClose(l, v)
    requires d.Chose? && d.choice.Assign?
    ensures BestOffer(l, v, e, p) && FreeOffer(l, v, e, p)
    ensures d.choice == Assign(e.key.name, p.priority, false)
  {
    assert Seeking(l, v, now);
    ExactOutcome(l, v, now, d);
    e, p := SomeBestOffer(l, v);
    BestAssignedExactlyWhen(l, v, now, e, p);
  }

  /** The best offer written out: among the offers that are unleased and without spot access none has a higher
      priority, and none of the same priority comes earlier in the dictionary. */
  lemma BestOfferWrittenOut(l: LeaseRecord, v: View, e: Exporter, p: Policy, e': Exporter, p': Policy)
    requires BestOffer(l, v, e, p) && FreeOffer(l, v, e, p) && FreeOffer(l, v, e', p')
    ensures p.priority >= p'.priority
    ensures p.priority == p'.priority ==>
              !(e'.key.name < e.key.name) && !exists i :: DecidesAt(e'.key.name, e.key.name, i)
  {
    assert NotAfter(OfferRank(v, e, p), OfferRank(v, e', p'));
    StringCompareTotal(e.key.name, e'.key.name);
    StringCompareIsLexicographic(e'.key.name, e.key.name);
  }

  /** No offer at all is needed for this: whatever the priorities, the assigned exporter is one that no
      listed lease holds. */
  lemma AssignedIsUnheld(l: LeaseRecord, v: View, now: Time, d: Decision)
    requires Decides(l, v, now, d) && d.Chose? && d.choice.Assign?
    ensures forall a :: a in v.active ==> !Holds(a, d.choice.name)
  {
    var s := Candidates(ApprovedFor(l, v).value, v.active);
    AssignedIsUnleased(s, d.choice);
    var x :| x in s && x.existingLease.None? && x.exporter.key.name == d.choice.name;
    CandidatesExact(l, v, x);
    LastHolderExact(v.active, d.choice.name);
  }

  /** An assignment is never under spot access. */
  lemma AssignedWithoutSpot(l: LeaseRecord, v: View, now: Time, d: Decision)
    requires Decides(l, v, now, d) && d.Chose? && d.choice.Assign?
    ensures !d.choice.spot
  {
    ExactVerdict(Candidates(ApprovedFor(l, v).value, v.active), d.choice);
  }

  // ---------------------------------------------------------------- order independence

  /** Two listings of the same objects, in any order and with any repetitions. */
  ghost predicate SameObjects(v: View, w: View) {
    && (forall e :: e in v.exporters <==> e in w.exporters)
    && (forall ap :: ap in v.policies <==> ap in w.policies)
    && (forall a :: a in v.active <==> a in w.active)
    && v.client == w.client
  }

  predicate NoSpotStatus(active: seq<LeaseRecord>) {
    forall i | 0 <= i < |active| :: !active[i].status.spotAccess
  }

  lemma SameEmptiness(v: View, w: View)
    requires SameObjects(v, w)
    ensures v.policies == [] <==> w.policies == []
  {
    assert v.policies != [] ==> v.policies[0] in w.policies;
    assert w.policies != [] ==> w.policies[0] in v.policies;
  }

  lemma SameReadable(l: LeaseRecord, v: View, w: View)
    requires SameObjects(v, w)
    ensures Readable(Selected(v.exporters, l.spec.selector), v.policies)
       <==> Readable(Selected(w.exporters, l.spec.selector), w.policies)
  {
    forall e
      ensures e in Selected(v.exporters, l.spec.selector) <==> e in Selected(w.exporters, l.spec.selector)
    {
      WithoutMembers(v.exporters, (e: Exporter) => !Matches(l.spec.selector, e.labels), e);
      WithoutMembers(w.exporters, (e: Exporter) => !Matches(l.spec.selector, e.labels), e);
    }
  }

  lemma OffersAgree(l: LeaseRecord, v: View, w: View, e: Exporter, p: Policy)
    requires SameObjects(v, w)
    ensures Approvable(l, v, e, p) <==> Approvable(l, w, e, p)
    ensures Offered(l, v, e, p) <==> Offered(l, w, e, p)
    ensures OfferRank(v, e, p) == OfferRank(w, e, p)
    ensures FreeOffer(l, v, e, p) <==> FreeOffer(l, w, e, p)
  {
    SameEmptiness(v, w);
  }

  lemma RanksAreOffers(l: LeaseRecord, v: View, r: Rank)
    requires ApprovedFor(l, v).Some?
    ensures r in RanksOf(Candidates(ApprovedFor(l, v).value, v.active))
       <==> exists e, p :: Offered(l, v, e, p) && OfferRank(v, e, p) == r
  {
    var s := Candidates(ApprovedFor(l, v).value, v.active);
    if r in RanksOf(s) {
      var x :| x in s && RankOf(x) == r;
      CandidatesExact(l, v, x);
      assert EntryOf(v, x.exporter, x.policy) == x;
      EntryOfOffer(l, v, x.exporter, x.policy);
    }
    if exists e, p :: Offered(l, v, e, p) && OfferRank(v, e, p) == r {
      var e, p :| Offered(l, v, e, p) && OfferRank(v, e, p) == r;
      EntryOfOffer(l, v, e, p);
    }
  }

  lemma RanksAgree(l: LeaseRecord, v: View, w: View)
    requires SameObjects(v, w) && ApprovedFor(l, v).Some? && ApprovedFor(l, w).Some?
    ensures RanksOf(Candidates(ApprovedFor(l, v).value, v.active))
            == RanksOf(Candidates(ApprovedFor(l, w).value, w.active))
  {
    forall r
      ensures r in RanksOf(Candidates(ApprovedFor(l, v).value, v.active))
         <==> r in RanksOf(Candidates(ApprovedFor(l, w).value, w.active))
    {
      RanksAreOffers(l, v, r);
      RanksAreOffers(l, w, r);
      forall e, p
        ensures Offered(l, v, e, p) <==> Offered(l, w, e, p)
        ensures OfferRank(v, e, p) == OfferRank(w, e, p)
      {
        OffersAgree(l, v, w, e, p);
      }
    }
  }

  lemma NoSpotCandidates(l: LeaseRecord, v: View)
    requires ApprovedFor(l, v).Some? && NoSpotStatus(v.active)
    ensures NoSpotLeases(Candidates(ApprovedFor(l, v).value, v.active))
  {
    var s := Candidates(ApprovedFor(l, v).value, v.active);
    forall i | 0 <= i < |s| && s[i].existingLease.Some? ensures !s[i].existingLease.value.status.spotAccess {
      CandidatesExact(l, v, s[i]);
      LastHolderExact(v.active, s[i].exporter.key.name);
    }
  }

  /** The two listings agree on what is decided before the choice. */
  lemma EarlyDecisionsAgree(l: LeaseRecord, v: View, w: View)
    requires SameObjects(v, w)
    ensures ApprovedFor(l, v).Some? <==> ApprovedFor(l, w).Some?
    ensures ApprovedFor(l, v).Some? ==>
              && (ApprovedFor(l, v).value == [] <==> ApprovedFor(l, w).value == [])
              && (Without(ApprovedFor(l, v).value, Offline) == [] <==> Without(ApprovedFor(l, w).value, Offline) == [])
  {
    SameEmptiness(v, w);
    SameReadable(l, v, w);
    if ApprovedFor(l, v).Some? {
      CandidatesReflectOffers(l, v);
      CandidatesReflectOffers(l, w);
      forall e, p
        ensures Approvable(l, v, e, p) <==> Approvable(l, w, e, p)
        ensures Offered(l, v, e, p) <==> Offered(l, w, e, p)
      {
        OffersAgree(l, v, w, e, p);
      }
    }
  }

  lemma OffersCloseAgree(l: LeaseRecord, v: View, w: View)
    requires SameObjects(v, w)
    ensures OffersClose(l, v) <==> OffersClose(l, w)
    ensures FreeOffersClose(l, v) <==> FreeOffersClose(l, w)
  {
    forall e, p
      ensures Offered(l, v, e, p) <==> Offered(l, w, e, p)
      ensures FreeOffer(l, v, e, p) <==> FreeOffer(l, w, e, p)
    {
      OffersAgree(l, v, w, e, p);
    }
    forall e ensures Leased(v, e) <==> Leased(w, e) {
    }
  }

  lemma ChoicesAgree(l: LeaseRecord, v: View, w: View, c: Choice, c': Choice)
    requires SameObjects(v, w) && OffersClose(l, v) && NoSpotStatus(v.active)
    requires ApprovedFor(l, v).Some? && ApprovedFor(l, w).Some?
    requires Chosen(Candidates(ApprovedFor(l, v).value, v.active), c)
    requires Chosen(Candidates(ApprovedFor(l, w).value, w.active), c')
    ensures c == c'
  {
    assert NoSpotStatus(w.active) by {
      assert forall i | 0 <= i < |w.active| :: w.active[i] in v.active;
    }
    OffersCloseAgree(l, v, w);
    CandidatesBounded(l, v);
    CandidatesBounded(l, w);
    NoSpotCandidates(l, v);
    NoSpotCandidates(l, w);
    RanksAgree(l, v, w);
    ChoiceIsOrderIndependent(Candidates(ApprovedFor(l, v).value, v.active), c,
                             Candidates(ApprovedFor(l, w).value, w.active), c');
  }

  lemma SameCases(l: LeaseRecord, v: View, w: View)
    requires SameObjects(v, w)
    ensures SomeOffered(l, v) <==> SomeOffered(l, w)
    ensures SomeFreeOffer(l, v) <==> SomeFreeOffer(l, w)
    ensures SomeUnleasedOffer(l, v) <==> SomeUnleasedOffer(l, w)
    ensures OnlySpotOffers(l, v) <==> OnlySpotOffers(l, w)
  {
    forall e, p
      ensures Offered(l, v, e, p) <==> Offered(l, w, e, p)
      ensures FreeOffer(l, v, e, p) <==> FreeOffer(l, w, e, p)
    {
      OffersAgree(l, v, w, e, p);
    }
    forall e ensures Leased(v, e) <==> Leased(w, e) {
    }
  }

  /** Any two listings of the same objects lead to the same verdict: the same refusal, wait or assignment,
      whatever the priorities. */
  lemma SameVerdict(l: LeaseRecord, v: View, w: View, now: Time, d: Decision, d': Decision)
    requires SameObjects(v, w) && Decides(l, v, now, d) && Decides(l, w, now, d')
    ensures !d.Chose? || !d'.Chose? ==> d == d'
    ensures d.Chose? && d'.Chose? ==>
              && (d.choice.Assign? <==> d'.choice.Assign?)
              && (d.choice.SpotOnly? <==> d'.choice.SpotOnly?)
  {
    EarlyDecisionsAgree(l, v, w);
    if d.Chose? && d'.Chose? {
      ExactOutcome(l, v, now, d);
      ExactOutcome(l, w, now, d');
      SameCases(l, v, w);
    }
  }

  /** Two listings of the same objects that lead to an assignment lead to the same one when the priorities of the
      free offers can be subtracted. */
  lemma SameAssignment(l: LeaseRecord, v: View, w: View, now: Time, d: Decision, d': Decision)
    requires SameObjects(v, w) && FreeOffersClose(l, v)
    requires Decides(l, v, now, d) && Decides(l, w, now, d') && d.Chose? && d.choice.Assign?
    ensures d == d'
  {
    EarlyDecisionsAgree(l, v, w);
    SameVerdict(l, v, w, now, d, d');
    OffersCloseAgree(l, v, w);
    var e, p := OptimalAssignment(l, v, now, d);
    var e', p' := OptimalAssignment(l, w, now, d');
    OffersAgree(l, v, w, e, p);
    OffersAgree(l, v, w, e', p');
    assert NotAfter(OfferRank(v, e, p), OfferRank(v, e', p')) && NotAfter(OfferRank(w, e', p'), OfferRank(w, e, p));
    NotAfterTotalOrder(OfferRank(v, e, p), OfferRank(v, e', p'), OfferRank(v, e, p));
  }

  /** Any two listings of the same objects lead to the same decision, whatever the unstable sort does
      with equal entries, when priorities that get compared can be subtracted and no listed lease is under spot
      access. */
  lemma OrderIndependent(l: LeaseRecord, v: View, w: View, now: Time, d: Decision, d': Decision)
    requires SameObjects(v, w) && OffersClose(l, v) && NoSpotStatus(v.active)
    requires Decides(l, v, now, d) && Decides(l, w, now, d')
    ensures d == d'
  {
    EarlyDecisionsAgree(l, v, w);
    if d.Chose? && d'.Chose? {
      ChoicesAgree(l, v, w, d.choice, d'.choice);
    }
  }

  // ---------------------------------------------------------------- when to come back

  /** Something the lease may use is there, but nothing of it can be had now. */
  ghost predicate MustWait(l: LeaseRecord, v: View) {
    && SomeApprovable(l, v)
    && (!SomeOffered(l, v) || (!SomeUnleasedOffer(l, v) && !OnlySpotOffers(l, v)))
  }

  /** The delay a reconcile of `l` has to ask for, when it makes the status `s`: a running lease is looked at again at
      start plus duration, a scheduled one at its begin, a pending one after a second, an ended one never, and
      nothing that has not ended is left alone but at the very instant of its expiry. */
  ghost predicate RightDelay(l: LeaseRecord, s: LeaseStatus, v: View, r: Readings, requeueAfter: Duration) {
    var t := l.spec.times;
    && (!s.ended && s.beginTime.Some? && Exact(t) ==>
          requeueAfter == Sub((if t.begin.Some? then t.begin.value else s.beginTime.value) + t.duration.value, r.ended))
    && (!l.status.ended && l.status.exporterRef.None? && t.begin.Some? && t.begin.value > r.decide ==>
          requeueAfter == Sub(t.begin.value, r.decide))
    && (Seeking(l, v, r.decide) && MustWait(l, v) ==> requeueAfter == 1_000_000_000)
    && (l.status.ended ==> requeueAfter == 0)
    && (!s.ended && !(s.beginTime.Some? && Expiration(t, s.beginTime.value) == r.ended) ==> requeueAfter > 0)
  }

  lemma RunningDelay(l: LeaseRecord, d: Decision, r: Readings)
    requires Coherent(l.status) && Timely(l, r.decide, d) && !IsError(d) && !NewStatus(l, d, r).ended
    ensures var s, t := NewStatus(l, d, r), l.spec.times;
            && (s.beginTime.Some? && Exact(t) ==>
                  NewRequeue(l, d, r)
                  == Sub((if t.begin.Some? then t.begin.value else s.beginTime.value) + t.duration.value, r.ended))
            && (!(s.beginTime.Some? && Expiration(t, s.beginTime.value) == r.ended) ==> NewRequeue(l, d, r) > 0)
  {
    NeverForgotten(l, d, r);
    if NewStatus(l, d, r).beginTime.Some? {
      EndsExactlyWhen(l, d, r);
      if Exact(l.spec.times) {
        ExpirationIsDeadline(l.spec.times, NewStatus(l, d, r).beginTime.value);
      }
    }
  }

  lemma WaitingDelay(l: LeaseRecord, d: Decision, r: Readings)
    requires Coherent(l.status) && Timely(l, r.decide, d)
    ensures l.status.ended ==> NewRequeue(l, d, r) == 0
    ensures d.Wait? ==> NewRequeue(l, d, r) == Sub(l.spec.times.begin.value, r.decide)
    ensures d.NoneOnline? || (d.Chose? && (d.choice.AllLeased? || d.choice.NeedsEviction?)) ==>
              NewRequeue(l, d, r) == 1_000_000_000
  {
  }

  /** Every reconcile that gets as far as a status asks for the right delay. */
  lemma DelayIsRight(l: LeaseRecord, v: View, d: Decision, r: Readings)
    requires Coherent(l.status) && Decides(l, v, r.decide, d) && !IsError(d)
    ensures RightDelay(l, NewStatus(l, d, r), v, r, NewRequeue(l, d, r))
  {
    DecidesTimely(l, v, r.decide, d);
    WaitingDelay(l, d, r);
    if !NewStatus(l, d, r).ended {
      RunningDelay(l, d, r);
    }
    if Seeking(l, v, r.decide) && MustWait(l, v) {
      ExactOutcome(l, v, r.decide, d);
    }
  }

  /** The reconcile cannot decide: it looks for an exporter, and the selector, the client or a policy selector that is
      met cannot be read. */
  ghost predicate CannotDecide(l: LeaseRecord, v: View, now: Time) {
    && !l.status.ended && l.status.exporterRef.None?
    && (l.spec.times.begin.Some? ==> l.spec.times.begin.value <= now)
    && (!Convertible(l.spec.selector)
        || (!Empty(l.spec.selector) && v.policies != []
            && (v.client.None? || !Readable(Selected(v.exporters, l.spec.selector), v.policies))))
  }

  lemma FailsExactlyWhen(l: LeaseRecord, v: View, now: Time, d: Decision)
    requires Decides(l, v, now, d)
    ensures IsError(d) <==> CannotDecide(l, v, now)
  {
  }
}
