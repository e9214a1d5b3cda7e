/**
 Choosing an exporter for a lease: policy approval, the offline filter, attaching the leases that
 hold the exporters, the in-place sort and the in-place filter over one backing array.
 */
module Scheduling {
  import opened Options
  import opened Identifiers
  import opened LabelSelectors
  import opened LeaseTimes
  import opened LeaseTypes

  /** An exporter a policy approves, with the lease that holds it, if any. */
  datatype ApprovedExporter = ApprovedExporter(exporter: Exporter, existingLease: Option<LeaseRecord>, policy: Policy)

  /** What a deleted slot of a slice is overwritten with. */
  const ZERO_ENTRY :=
    ApprovedExporter(Exporter(Key("", ""), map[], false, false, None), None, DEFAULT_POLICY)

  // ---------------------------------------------------------------- policy approval

  /** The duration a policy limit is compared with. */
  function RequestedDuration(t: Times): Duration {
    if t.duration.Some? then t.duration.value
    else if t.begin.Some? && t.end.Some? then Sub(t.end.value, t.begin.value)
    else 0
  }

  predicate WithinLimit(p: Policy, requested: Duration) {
    p.maximumDuration.Some? ==> requested <= p.maximumDuration.value
  }

  function FromApprovals(e: Exporter, p: Policy, from: seq<LabelSelector>, client: Labels,
                         requested: Duration): seq<ApprovedExporter>
  {
    if from == [] then []
    else
      FromApprovals(e, p, from[..|from| - 1], client, requested)
      + if Matches(from[|from| - 1], client) && WithinLimit(p, requested) then [ApprovedExporter(e, None, p)] else []
  }

  function PolicyApprovals(e: Exporter, ps: seq<Policy>, client: Labels, requested: Duration): seq<ApprovedExporter> {
    if ps == [] then []
    else
      PolicyApprovals(e, ps[..|ps| - 1], client, requested)
      + FromApprovals(e, ps[|ps| - 1], ps[|ps| - 1].from, client, requested)
  }

  function AccessApproval(e: Exporter, ap: AccessPolicy, client: Labels, requested: Duration): seq<ApprovedExporter> {
    if Matches(ap.exporterSelector, e.labels) then PolicyApprovals(e, ap.policies, client, requested) else []
  }

  function AccessApprovals(e: Exporter, aps: seq<AccessPolicy>, client: Labels,
                           requested: Duration): seq<ApprovedExporter>
  {
    if aps == [] then []
    else
      AccessApprovals(e, aps[..|aps| - 1], client, requested) + AccessApproval(e, aps[|aps| - 1], client, requested)
  }

  function Approvals(es: seq<Exporter>, aps: seq<AccessPolicy>, client: Labels,
                     requested: Duration): seq<ApprovedExporter>
  {
    if es == [] then []
    else
      Approvals(es[..|es| - 1], aps, client, requested)
      + AccessApprovals(es[|es| - 1], aps, client, requested)
  }

  function DefaultApprovals(es: seq<Exporter>): seq<ApprovedExporter> {
    seq(|es|, i requires 0 <= i < |es| => ApprovedExporter(es[i], None, DEFAULT_POLICY))
  }

  /** The selectors of an access policy that are converted for this exporter can be converted. */
  predicate ReadableFor(e: Exporter, ap: AccessPolicy) {
    && Convertible(ap.exporterSelector)
    && (Matches(ap.exporterSelector, e.labels) ==>
          forall i | 0 <= i < |ap.policies| :: ReadablePolicy(ap.policies[i]))
  }

  predicate ReadablePolicy(p: Policy) {
    forall i | 0 <= i < |p.from| :: Convertible(p.from[i])
  }

  predicate Readable(es: seq<Exporter>, aps: seq<AccessPolicy>) {
    forall e, ap | e in es && ap in aps :: ReadableFor(e, ap)
  }

  /** The approved entries in the order the loops append them; nothing when there are policies and the client
      is missing or a selector that is met cannot be converted. */
  function Approved(es: seq<Exporter>, aps: seq<AccessPolicy>, client: Option<Labels>, requested: Duration)
      : Option<seq<ApprovedExporter>>
  {
    if aps == [] then Some(DefaultApprovals(es))
    else if client.None? || !Readable(es, aps) then None
    else Some(Approvals(es, aps, client.value, requested))
  }

  /** The innermost loop: every client selector of one policy. */
  method AppendFrom(spec: LeaseSpec, start: seq<ApprovedExporter>, exporter: Exporter, p: Policy, client: Labels)
      returns (entries: Option<seq<ApprovedExporter>>)
    ensures entries.Some? <==> ReadablePolicy(p)
    ensures entries.Some? ==>
              entries.value == start + FromApprovals(exporter, p, p.from, client, RequestedDuration(spec.times))
  {
    var approved := start;
    for l := 0 to |p.from|
      invariant forall i | 0 <= i < l :: Convertible(p.from[i])
      invariant approved == start + FromApprovals(exporter, p, p.from[..l], client, RequestedDuration(spec.times))
    {
      assert p.from[..l + 1][..l] == p.from[..l];
      if !Convertible(p.from[l]) {
        return None;
      }
      if Matches(p.from[l], client) {
        if p.maximumDuration.Some? {
          // The requested duration, explicit or computed from the times.
          var requestedDuration: Duration := 0;
          if spec.times.duration.Some? {
            requestedDuration := spec.times.duration.value;
          } else if spec.times.begin.Some? && spec.times.end.Some? {
            requestedDuration := Sub(spec.times.end.value, spec.times.begin.value);
          }
          if requestedDuration > p.maximumDuration.value {
            continue;
          }
        }
        approved := approved + [ApprovedExporter(exporter, None, p)];
      }
    }
    assert p.from[..|p.from|] == p.from;
    entries := Some(approved);
  }

  /** The two inner loops: every policy of one access policy, every client selector of that policy. */
  method AppendPolicies(spec: LeaseSpec, start: seq<ApprovedExporter>, exporter: Exporter, policies: seq<Policy>,
                        client: Labels)
      returns (entries: Option<seq<ApprovedExporter>>)
    ensures entries.Some? <==> forall i | 0 <= i < |policies| :: ReadablePolicy(policies[i])
    ensures entries.Some? ==>
              entries.value == start + PolicyApprovals(exporter, policies, client, RequestedDuration(spec.times))
  {
    ghost var requested := RequestedDuration(spec.times);
    var approved := start;
    for k := 0 to |policies|
      invariant forall i | 0 <= i < k :: ReadablePolicy(policies[i])
      invariant approved == start + PolicyApprovals(exporter, policies[..k], client, requested)
    {
      assert policies[..k + 1][..k] == policies[..k];
      var longer := AppendFrom(spec, approved, exporter, policies[k], client);
      if longer.None? {
        return None;
      }
      approved := longer.value;
    }
    assert policies[..|policies|] == policies;
    entries := Some(approved);
  }

  lemma AccessApprovalsNext(start: seq<ApprovedExporter>, e: Exporter, aps: seq<AccessPolicy>, j: nat, client: Labels,
                            requested: Duration)
    requires j < |aps|
    ensures start + AccessApprovals(e, aps[..j], client, requested) + AccessApproval(e, aps[j], client, requested)
         == start + AccessApprovals(e, aps[..j + 1], client, requested)
  {
    assert aps[..j + 1][..j] == aps[..j];
  }

  /** One access policy for one exporter. */
  method AppendAccessPolicy(spec: LeaseSpec, start: seq<ApprovedExporter>, exporter: Exporter, policy: AccessPolicy,
                            client: Labels)
      returns (entries: Option<seq<ApprovedExporter>>)
    ensures entries.Some? <==> ReadableFor(exporter, policy)
    ensures entries.Some? ==>
              entries.value == start + AccessApproval(exporter, policy, client, RequestedDuration(spec.times))
  {
    if !Convertible(policy.exporterSelector) {
      return None;
    }
    entries := Some(start);
    if Matches(policy.exporterSelector, exporter.labels) {
      entries := AppendPolicies(spec, start, exporter, policy.policies, client);
    }
  }

  /** The selectors met in the first `n` access policies can be converted. */
  predicate ReadableUpTo(e: Exporter, aps: seq<AccessPolicy>, n: nat)
    requires n <= |aps|
  {
    n == 0 || (ReadableUpTo(e, aps, n - 1) && ReadableFor(e, aps[n - 1]))
  }

  lemma {:induction false} UnreadableStays(e: Exporter, aps: seq<AccessPolicy>, n: nat, m: nat)
    requires n <= m <= |aps| && !ReadableUpTo(e, aps, n)
    ensures !ReadableUpTo(e, aps, m)
    decreases m - n
  {
    if n < m {
      UnreadableStays(e, aps, n, m - 1);
    }
  }

  lemma {:induction false} ReadableUpToMeans(e: Exporter, aps: seq<AccessPolicy>, n: nat)
    requires n <= |aps|
    ensures ReadableUpTo(e, aps, n) <==> forall i | 0 <= i < n :: ReadableFor(e, aps[i])
  {
    if n > 0 {
      ReadableUpToMeans(e, aps, n - 1);
    }
  }

  /** The loop over the access policies for one exporter. */
  method AppendAccessPolicies(spec: LeaseSpec, start: seq<ApprovedExporter>, exporter: Exporter,
                              accessPolicies: seq<AccessPolicy>, client: Labels)
      returns (entries: Option<seq<ApprovedExporter>>)
    ensures entries.Some? <==> ReadableUpTo(exporter, accessPolicies, |accessPolicies|)
    ensures entries.Some? ==>
              entries.value == start + AccessApprovals(exporter, accessPolicies, client, RequestedDuration(spec.times))
  {
    var approved := start;
    for j := 0 to |accessPolicies|
      invariant ReadableUpTo(exporter, accessPolicies, j)
      invariant approved
             == start + AccessApprovals(exporter, accessPolicies[..j], client, RequestedDuration(spec.times))
    {
      var longer := AppendAccessPolicy(spec, approved, exporter, accessPolicies[j], client);
      AccessApprovalsNext(start, exporter, accessPolicies, j, client, RequestedDuration(spec.times));
      if longer.None? {
        UnreadableStays(exporter, accessPolicies, j + 1, |accessPolicies|);
        return None;
      }
      approved := longer.value;
    }
    assert accessPolicies[..|accessPolicies|] == accessPolicies;
    entries := Some(approved);
  }

  /** Appends an entry for every exporter, access policy, policy and client selector that agree. */
  method AttachMatchingPolicies(spec: LeaseSpec, exporters: seq<Exporter>, accessPolicies: seq<AccessPolicy>,
                                client: Option<Labels>)
      returns (approved: Option<seq<ApprovedExporter>>)
    ensures approved == Approved(exporters, accessPolicies, client, RequestedDuration(spec.times))
  {
    var entries: seq<ApprovedExporter> := [];
    if |accessPolicies| == 0 {
      for i := 0 to |exporters|
        invariant entries == DefaultApprovals(exporters)[..i]
      {
        entries := entries + [ApprovedExporter(exporters[i], None, DEFAULT_POLICY)];
      }
      assert entries == DefaultApprovals(exporters);
      return Some(entries);
    }
    if client.None? {
      return None;
    }
    ghost var requested := RequestedDuration(spec.times);
    for i := 0 to |exporters|
      invariant Readable(exporters[..i], accessPolicies)
      invariant entries == Approvals(exporters[..i], accessPolicies, client.value, requested)
    {
      assert exporters[..i + 1][..i] == exporters[..i];
      assert exporters[i] in exporters;
      var longer := AppendAccessPolicies(spec, entries, exporters[i], accessPolicies, client.value);
      ReadableUpToMeans(exporters[i], accessPolicies, |accessPolicies|);
      if longer.None? {
        assert !forall ap | ap in accessPolicies :: ReadableFor(exporters[i], ap);
        return None;
      }
      entries := longer.value;
    }
    assert exporters[..|exporters|] == exporters;
    return Some(entries);
  }

  /** The pairing rule in one line: some access policy selects the exporter, lists the policy, and the
      policy admits the client for the requested duration. */
  ghost predicate Admits(aps: seq<AccessPolicy>, e: Exporter, p: Policy, client: Labels, requested: Duration) {
    exists ap :: ap in aps && Matches(ap.exporterSelector, e.labels) && p in ap.policies
        && AdmitsClient(p, client, requested)
  }

  ghost predicate AdmitsClient(p: Policy, client: Labels, requested: Duration) {
    WithinLimit(p, requested) && exists selector :: selector in p.from && Matches(selector, client)
  }

  lemma {:induction false} FromApprovalsExact(e: Exporter, p: Policy, from: seq<LabelSelector>, client: Labels,
                                              requested: Duration, x: ApprovedExporter)
    ensures x in FromApprovals(e, p, from, client, requested)
       <==> && x == ApprovedExporter(e, None, p) && WithinLimit(p, requested)
            && exists selector :: selector in from && Matches(selector, client)
  {
    if from != [] {
      var init, last := from[..|from| - 1], from[|from| - 1];
      FromApprovalsExact(e, p, init, client, requested, x);
      assert from == init + [last];
    }
  }

  lemma {:induction false} PolicyApprovalsExact(e: Exporter, ps: seq<Policy>, client: Labels, requested: Duration,
                                                x: ApprovedExporter)
    ensures x in PolicyApprovals(e, ps, client, requested)
       <==> x == ApprovedExporter(e, None, x.policy) && x.policy in ps && AdmitsClient(x.policy, client, requested)
  {
    if ps != [] {
      var init, last := ps[..|ps| - 1], ps[|ps| - 1];
      PolicyApprovalsExact(e, init, client, requested, x);
      FromApprovalsExact(e, last, last.from, client, requested, x);
      assert ps == init + [last];
    }
  }

  lemma {:induction false} AccessApprovalsExact(e: Exporter, aps: seq<AccessPolicy>, client: Labels,
                                                requested: Duration, x: ApprovedExporter)
    ensures x in AccessApprovals(e, aps, client, requested)
       <==> x == ApprovedExporter(e, None, x.policy) && Admits(aps, e, x.policy, client, requested)
  {
    if aps != [] {
      var init, last := aps[..|aps| - 1], aps[|aps| - 1];
      AccessApprovalsExact(e, init, client, requested, x);
      PolicyApprovalsExact(e, last.policies, client, requested, x);
      assert aps == init + [last];
    }
  }

  /** The nested loops approve exactly the exporter and policy pairs that fit together. */
  lemma {:induction false} ApprovalsExact(es: seq<Exporter>, aps: seq<AccessPolicy>, client: Labels,
                                          requested: Duration, x: ApprovedExporter)
    ensures x in Approvals(es, aps, client, requested)
       <==> x.exporter in es && x.existingLease.None? && Admits(aps, x.exporter, x.policy, client, requested)
  {
    if es != [] {
      var init, last := es[..|es| - 1], es[|es| - 1];
      ApprovalsExact(init, aps, client, requested, x);
      AccessApprovalsExact(last, aps, client, requested, x);
      assert es == init + [last];
    }
  }

  /** What the duration limit of a policy is held against: an explicit duration first, else the distance of begin
      and end, which is capped at the largest duration, else nothing at all. */
  lemma LimitMeans(p: Policy, t: Times)
    ensures p.maximumDuration.None? ==> WithinLimit(p, RequestedDuration(t))
    ensures p.maximumDuration.Some? && t.duration.Some? ==>
              (WithinLimit(p, RequestedDuration(t)) <==> t.duration.value <= p.maximumDuration.value)
    ensures p.maximumDuration.Some? && t.duration.None? && t.begin.Some? && t.end.Some? ==>
              (WithinLimit(p, RequestedDuration(t))
               <==> t.end.value - t.begin.value <= p.maximumDuration.value || p.maximumDuration.value == MAX_INT64)
    ensures p.maximumDuration.Some? && t.duration.None? && (t.begin.None? || t.end.None?) ==>
              (WithinLimit(p, RequestedDuration(t)) <==> 0 <= p.maximumDuration.value)
  {
  }

  /** Some access policy selects the exporter and lists the policy, and the policy admits the client. */
  ghost predicate Pairs(aps: seq<AccessPolicy>, e: Exporter, p: Policy, client: Labels) {
    && (exists ap :: ap in aps && Matches(ap.exporterSelector, e.labels) && p in ap.policies)
    && (exists selector :: selector in p.from && Matches(selector, client))
  }

  /** With policies present, the approved entries are those of exporters and policies that pair up and whose duration
      limit holds, for each form a request for time can take. */
  lemma ApprovedWrittenOut(es: seq<Exporter>, aps: seq<AccessPolicy>, client: Labels, t: Times, x: ApprovedExporter)
    requires aps != [] && Approved(es, aps, Some(client), RequestedDuration(t)).Some?
    ensures var entries := Approved(es, aps, Some(client), RequestedDuration(t)).value;
            var pairs := x.existingLease.None? && x.exporter in es && Pairs(aps, x.exporter, x.policy, client);
            var limit := x.policy.maximumDuration;
            && (limit.None? ==> (x in entries <==> pairs))
            && (limit.Some? && t.duration.Some? ==> (x in entries <==> pairs && t.duration.value <= limit.value))
            && (limit.Some? && t.duration.None? && t.begin.Some? && t.end.Some? ==>
                  (x in entries
                   <==> pairs && (t.end.value - t.begin.value <= limit.value || limit.value == MAX_INT64)))
            && (limit.Some? && t.duration.None? && (t.begin.None? || t.end.None?) ==>
                  (x in entries <==> pairs && 0 <= limit.value))
  {
    ApprovalsExact(es, aps, client, RequestedDuration(t), x);
    LimitMeans(x.policy, t);
    AdmitsIsPairs(aps, x.exporter, x.policy, client, RequestedDuration(t));
  }

  lemma AdmitsIsPairs(aps: seq<AccessPolicy>, e: Exporter, p: Policy, client: Labels, requested: Duration)
    ensures Admits(aps, e, p, client, requested) <==> Pairs(aps, e, p, client) && WithinLimit(p, requested)
  {
    if Pairs(aps, e, p, client) && WithinLimit(p, requested) {
      var ap :| ap in aps && Matches(ap.exporterSelector, e.labels) && p in ap.policies;
      assert AdmitsClient(p, client, requested);
    }
  }

  /** Asking for less time never loses an approved pair. */
  lemma ShorterKeepsApproval(es: seq<Exporter>, aps: seq<AccessPolicy>, client: Option<Labels>, shorter: Duration,
                             longer: Duration)
    requires shorter <= longer && Approved(es, aps, client, longer).Some?
    ensures Approved(es, aps, client, shorter).Some?
    ensures forall x :: x in Approved(es, aps, client, longer).value ==> x in Approved(es, aps, client, shorter).value
  {
    if aps != [] {
      forall x | x in Approvals(es, aps, client.value, longer) ensures x in Approvals(es, aps, client.value, shorter) {
        ApprovalsExact(es, aps, client.value, longer, x);
        ApprovalsExact(es, aps, client.value, shorter, x);
        var ap :| ap in aps && Matches(ap.exporterSelector, x.exporter.labels) && x.policy in ap.policies
               && AdmitsClient(x.policy, client.value, longer);
        assert AdmitsClient(x.policy, client.value, shorter);
      }
    }
  }

  // ---------------------------------------------------------------- deleting in place

  /** `s` without the elements `del` selects. */
  function Without<T>(s: seq<T>, del: T -> bool): seq<T> {
    if s == [] then []
    else Without(s[..|s| - 1], del) + if del(s[|s| - 1]) then [] else [s[|s| - 1]]
  }

  lemma {:induction false} WithoutMembers<T>(s: seq<T>, del: T -> bool, x: T)
    ensures x in Without(s, del) <==> x in s && !del(x)
    ensures |Without(s, del)| <= |s|
  {
    if s != [] {
      WithoutMembers(s[..|s| - 1], del, x);
      assert s == s[..|s| - 1] + [s[|s| - 1]];
    }
  }

  lemma {:induction false} WithoutKeepsFirst<T>(s: seq<T>, del: T -> bool)
    requires s != [] && !del(s[0])
    ensures Without(s, del) != [] && Without(s, del)[0] == s[0]
  {
    if |s| > 1 {
      WithoutKeepsFirst(s[..|s| - 1], del);
    }
  }

  /** Deletes in place: the kept elements move to the front of the slice and the rest of the slice is
      overwritten with zero entries, so only the returned length is meaningful afterwards. */
  method DeleteFunc(a: array<ApprovedExporter>, n: nat, del: ApprovedExporter -> bool) returns (m: nat)
    requires n <= a.Length
    modifies a
    ensures m <= n && a[..m] == Without(old(a[..n]), del)
    ensures forall i | m <= i < n :: a[i] == ZERO_ENTRY
    ensures a[n..] == old(a[n..])
  {
    m := 0;
    for i := 0 to n
      invariant m <= i && a[..m] == Without(old(a[..i]), del)
      invariant a[i..] == old(a[i..])
    {
      var x := a[i];
      assert x == old(a[i..])[0];
      assert old(a[..i + 1])[..i] == old(a[..i]);
      assert a[i..][1..] == a[i + 1..] && old(a[i..])[1..] == old(a[i + 1..]);
      if !del(x) {
        a[m] := x;
        m := m + 1;
      }
    }
    for i := m to n
      invariant a[..m] == Without(old(a[..n]), del)
      invariant forall j | m <= j < i :: a[j] == ZERO_ENTRY
      invariant a[n..] == old(a[n..])
    {
      a[i] := ZERO_ENTRY;
    }
  }

  predicate Offline(ae: ApprovedExporter) {
    !ae.exporter.registered || !ae.exporter.online
  }

  /** Leased, and not by a spot lease this policy could evict. */
  predicate Blocked(ae: ApprovedExporter) {
    ae.existingLease.Some? && !(!ae.policy.spotAccess && ae.existingLease.value.status.spotAccess)
  }

  // ---------------------------------------------------------------- attaching existing leases

  predicate Holds(l: LeaseRecord, exporter: string) {
    l.status.exporterRef == Some(exporter)
  }

  /** The last listed lease that holds the exporter. */
  function LastHolder(active: seq<LeaseRecord>, exporter: string): Option<LeaseRecord> {
    if active == [] then None
    else if Holds(active[|active| - 1], exporter) then Some(active[|active| - 1])
    else LastHolder(active[..|active| - 1], exporter)
  }

  function Attach(ae: ApprovedExporter, active: seq<LeaseRecord>): ApprovedExporter {
    var holder := LastHolder(active, ae.exporter.key.name);
    if holder.Some? then ae.(existingLease := holder) else ae
  }

  function AttachAll(s: seq<ApprovedExporter>, active: seq<LeaseRecord>): seq<ApprovedExporter> {
    seq(|s|, i requires 0 <= i < |s| => Attach(s[i], active))
  }

  /** The lease at position `i` holds the exporter, and none listed after it does. */
  predicate IsLast(active: seq<LeaseRecord>, exporter: string, i: int) {
    0 <= i < |active| && Holds(active[i], exporter) && forall j | i < j < |active| :: !Holds(active[j], exporter)
  }

  /** Some listed lease holds the exporter exactly when one gets attached, and that is the last of these. */
  lemma {:induction false} LastHolderExact(active: seq<LeaseRecord>, exporter: string)
    ensures LastHolder(active, exporter).Some? <==> exists l :: l in active && Holds(l, exporter)
    ensures LastHolder(active, exporter).Some? ==>
              LastHolder(active, exporter).value in active && Holds(LastHolder(active, exporter).value, exporter)
    ensures forall i | IsLast(active, exporter, i) :: LastHolder(active, exporter) == Some(active[i])
  {
    if active != [] {
      var init, last := active[..|active| - 1], active[|active| - 1];
      LastHolderExact(init, exporter);
      forall i | IsLast(active, exporter, i) && !Holds(last, exporter) ensures IsLast(init, exporter, i) {
      }
      assert active == init + [last];
    }
  }

  /** Attaches the holding leases to the first `n` entries, in place. */
  method AttachExistingLeases(a: array<ApprovedExporter>, n: nat, active: seq<LeaseRecord>)
    requires n <= a.Length
    modifies a
    ensures a[..n] == AttachAll(old(a[..n]), active)
    ensures a[n..] == old(a[n..])
  {
    for i := 0 to n
      invariant a[..i] == AttachAll(old(a[..n]), active)[..i]
      invariant a[i..] == old(a[i..])
    {
      var name := a[i].exporter.key.name;
      assert a[i] == old(a[i..])[0];
      for j := 0 to |active|
        invariant a[..i] == AttachAll(old(a[..n]), active)[..i]
        invariant a[i] == Attach(old(a[i]), active[..j])
        invariant a[i + 1..] == old(a[i + 1..])
      {
        assert active[..j + 1][..j] == active[..j];
        if active[j].status.exporterRef == Some(name) {
          a[i] := a[i].(existingLease := Some(active[j]));
        }
      }
      assert active[..|active|] == active;
    }
  }

  // ---------------------------------------------------------------- ordering

  /** `strings.Compare` on names. */
  function StringCompare(a: string, b: string): (c: int)
    ensures -1 <= c <= 1
  {
    if a == "" && b == "" then 0
    else if a == "" then -1
    else if b == "" then 1
    else if a[0] < b[0] then -1
    else if a[0] > b[0] then 1
    else StringCompare(a[1..], b[1..])
  }

  /** 64-bit subtraction as the machine does it. */
  function WrapSub(x: Int64, y: Int64): Int64 {
    if x - y > MAX_INT64 then x - y - 0x1_0000_0000_0000_0000
    else if x - y < MIN_INT64 then x - y + 0x1_0000_0000_0000_0000
    else x - y
  }

  /** The comparison the sort uses. */
  function Compare(a: ApprovedExporter, b: ApprovedExporter): int {
    if a.existingLease.Some? && b.existingLease.None? then 1
    else if a.existingLease.None? && b.existingLease.Some? then -1
    else if a.policy.spotAccess != b.policy.spotAccess then if a.policy.spotAccess then 1 else -1
    else if a.policy.priority != b.policy.priority then WrapSub(b.policy.priority, a.policy.priority)
    else StringCompare(a.exporter.key.name, b.exporter.key.name)
  }

  /** What an entry is ranked by. */
  datatype Rank = Rank(leased: bool, spot: bool, priority: Int64, name: string)

  function RankOf(ae: ApprovedExporter): Rank {
    Rank(ae.existingLease.Some?, ae.policy.spotAccess, ae.policy.priority, ae.exporter.key.name)
  }

  /** The intended order: free before leased, without spot access before with, higher priority
      first, then by name. */
  predicate NotAfter(a: Rank, b: Rank) {
    if a.leased != b.leased then b.leased
    else if a.spot != b.spot then b.spot
    else if a.priority != b.priority then a.priority > b.priority
    else StringCompare(a.name, b.name) <= 0
  }

  predicate Comparable(a: ApprovedExporter, b: ApprovedExporter) {
    FitsInt64(a.policy.priority - b.policy.priority) && FitsInt64(b.policy.priority - a.policy.priority)
  }

  /** The comparison comes down to priority: both leased or both not, and under spot access alike. */
  predicate SameClass(a: ApprovedExporter, b: ApprovedExporter) {
    a.existingLease.Some? == b.existingLease.Some? && a.policy.spotAccess == b.policy.spotAccess
  }

  /** No two priorities that get compared are so far apart that their difference overflows. */
  predicate PrioritiesBounded(s: seq<ApprovedExporter>) {
    forall i, j | 0 <= i < |s| && 0 <= j < |s| && SameClass(s[i], s[j]) :: Comparable(s[i], s[j])
  }

  lemma {:induction false} StringCompareTotal(a: string, b: string)
    ensures StringCompare(a, b) == -StringCompare(b, a)
    ensures StringCompare(a, b) == 0 <==> a == b
  {
    if a != "" && b != "" {
      StringCompareTotal(a[1..], b[1..]);
      assert a == [a[0]] + a[1..] && b == [b[0]] + b[1..];
    }
  }

  /** Names are compared as in a dictionary: a prefix comes first, else the first character that differs decides. */
  lemma {:induction false} StringCompareIsLexicographic(a: string, b: string)
    ensures StringCompare(a, b) < 0 <==> a < b || exists i :: DecidesAt(a, b, i)
  {
    if a == "" || b == "" {
      assert a == "" && b != "" ==> a < b;
    } else if a[0] != b[0] {
      if a[0] < b[0] {
        assert DecidesAt(a, b, 0);
      }
    } else {
      StringCompareIsLexicographic(a[1..], b[1..]);
      assert a == [a[0]] + a[1..] && b == [b[0]] + b[1..];
      assert a[1..] < b[1..] <==> a < b;
      forall i | DecidesAt(a[1..], b[1..], i) ensures DecidesAt(a, b, i + 1) {
        assert a[..i + 1] == [a[0]] + a[1..][..i] && b[..i + 1] == [b[0]] + b[1..][..i];
      }
      forall i | DecidesAt(a, b, i) ensures i > 0 && DecidesAt(a[1..], b[1..], i - 1) {
        assert a[1..][..i - 1] == a[..i][1..] && b[1..][..i - 1] == b[..i][1..];
      }
    }
  }

  /** The two agree up to position `i`, where the first has the smaller character. */
  predicate DecidesAt(a: string, b: string, i: int) {
    0 <= i < |a| && i < |b| && a[..i] == b[..i] && a[i] < b[i]
  }

  lemma {:induction false} StringCompareTransitive(a: string, b: string, c: string)
    requires StringCompare(a, b) <= 0 && StringCompare(b, c) <= 0
    ensures StringCompare(a, c) <= 0
  {
    if a != "" && b != "" && c != "" && a[0] == b[0] == c[0] {
      StringCompareTransitive(a[1..], b[1..], c[1..]);
    }
  }

  /** The intended order is a total order on ranks. */
  lemma NotAfterTotalOrder(a: Rank, b: Rank, c: Rank)
    ensures NotAfter(a, b) || NotAfter(b, a)
    ensures NotAfter(a, b) && NotAfter(b, a) ==> a == b
    ensures NotAfter(a, b) && NotAfter(b, c) ==> NotAfter(a, c)
  {
    StringCompareTotal(a.name, b.name);
    if StringCompare(a.name, b.name) <= 0 && StringCompare(b.name, c.name) <= 0 {
      StringCompareTransitive(a.name, b.name, c.name);
    }
  }

  /** The comparison realises the intended order when priorities that get compared are comparable. */
  lemma CompareIsNotAfter(a: ApprovedExporter, b: ApprovedExporter)
    requires SameClass(a, b) ==> Comparable(a, b)
    ensures Compare(a, b) <= 0 <==> NotAfter(RankOf(a), RankOf(b))
    ensures Compare(a, b) >= 0 <==> NotAfter(RankOf(b), RankOf(a))
  {
    StringCompareTotal(a.exporter.key.name, b.exporter.key.name);
  }

  /** Between entries that priority alone separates, the comparison is right exactly when the
      difference does not overflow; beyond that it reverses them. */
  lemma PriorityOverflow(a: ApprovedExporter, b: ApprovedExporter)
    requires a.existingLease.Some? == b.existingLease.Some? && a.policy.spotAccess == b.policy.spotAccess
    requires a.policy.priority != b.policy.priority
    ensures (Compare(a, b) <= 0 <==> NotAfter(RankOf(a), RankOf(b)))
       <==> FitsInt64(b.policy.priority - a.policy.priority)
  {
  }

  predicate Sorted(s: seq<ApprovedExporter>) {
    forall i, j | 0 <= i < j < |s| :: NotAfter(RankOf(s[i]), RankOf(s[j]))
  }

  /** The part of the order that is decided before any subtraction: free before leased, then without spot
      access before with. */
  predicate ClassNotAfter(a: ApprovedExporter, b: ApprovedExporter) {
    if a.existingLease.Some? != b.existingLease.Some? then b.existingLease.Some?
    else a.policy.spotAccess ==> b.policy.spotAccess
  }

  predicate SortedByClass(s: seq<ApprovedExporter>) {
    forall i, j | 0 <= i < j < |s| :: ClassNotAfter(s[i], s[j])
  }

  /** What a sort by `Compare` may return. */
  ghost predicate IsSortOf(ordered: seq<ApprovedExporter>, s: seq<ApprovedExporter>) {
    IsSortBy(Compare, ordered, s)
  }

  /** The comparison puts every element of `s` in `low` below every one outside. */
  ghost predicate Separates<T(!new)>(cmp: (T, T) -> int, s: seq<T>, low: set<T>) {
    forall x, y | x in s && y in s && x in low && y !in low :: cmp(x, y) < 0 && cmp(y, x) >= 0
  }

  /** The elements in `low` come first. */
  predicate Apart<T(==)>(s: seq<T>, low: set<T>) {
    forall i, j | 0 <= i < j < |s| && s[j] in low :: s[i] in low
  }

  /** What is asked of a sort: a rearrangement, and wherever the comparison separates the elements into low
      and high ones, the low ones come first. Nothing is said about elements the comparison contradicts
      itself on. */
  ghost predicate IsSortBy<T(!new)>(cmp: (T, T) -> int, ordered: seq<T>, s: seq<T>) {
    multiset(ordered) == multiset(s) && forall low: set<T> :: Separates(cmp, s, low) ==> Apart(ordered, low)
  }

  /** `s` with its last element moved to position `j`. */
  function MoveLast<T>(s: seq<T>, j: nat): seq<T>
    requires j < |s|
  {
    s[..j] + [s[|s| - 1]] + s[j..|s| - 1]
  }

  /** The last element compares below everything from `j` on, and not below the one before `j`. */
  predicate InsertionPoint<T>(cmp: (T, T) -> int, s: seq<T>, j: nat) {
    && j < |s|
    && (forall k | j <= k < |s| - 1 :: cmp(s[|s| - 1], s[k]) < 0)
    && (j > 0 ==> cmp(s[|s| - 1], s[j - 1]) >= 0)
  }

  /** Moves `a[i]` down past every element it compares below. */
  method Insert<T>(a: array<T>, i: nat, cmp: (T, T) -> int) returns (j: nat)
    requires i < a.Length
    modifies a
    ensures InsertionPoint(cmp, old(a[..i + 1]), j) && a[..i + 1] == MoveLast(old(a[..i + 1]), j)
    ensures forall k | i < k < a.Length :: a[k] == old(a[k])
  {
    j := i;
    while j > 0 && cmp(a[j], a[j - 1]) < 0
      invariant 0 <= j <= i
      invariant a[j] == old(a[i])
      invariant forall k | 0 <= k < j :: a[k] == old(a[k])
      invariant forall k | j < k <= i :: a[k] == old(a[k - 1])
      invariant forall k | i < k < a.Length :: a[k] == old(a[k])
      invariant forall k | j <= k < i :: cmp(old(a[i]), old(a[k])) < 0
    {
      a[j - 1], a[j] := a[j], a[j - 1];
      j := j - 1;
    }
  }

  lemma InsertedApart<T(!new)>(cmp: (T, T) -> int, was: seq<T>, j: nat, low: set<T>)
    requires |was| > 0 && Apart(was[..|was| - 1], low) && InsertionPoint(cmp, was, j) && Separates(cmp, was, low)
    ensures Apart(MoveLast(was, j), low)
  {
    var now, i := MoveLast(was, j), |was| - 1;
    assert forall p, q | 0 <= p < q < i && was[q] in low :: was[p] in low by {
      forall p, q | 0 <= p < q < i && was[q] in low ensures was[p] in low {
        assert was[..i][p] == was[p] && was[..i][q] == was[q];
      }
    }
    if was[i] in low {
      assert forall p | 0 <= p < j :: was[p] in low;
    } else {
      assert forall p | j <= p < i :: was[p] !in low;
    }
    forall p, q | 0 <= p < q < |now| && now[q] in low ensures now[p] in low {
      var wasP := if p < j then p else if p == j then i else p - 1;
      var wasQ := if q < j then q else if q == j then i else q - 1;
      assert now[p] == was[wasP] && now[q] == was[wasQ];
    }
  }

  /** Sorts the first `n` elements in place. The stand-in for the library sort: its callers rely only
      on getting some rearrangement that keeps apart what the comparison separates. */
  method SortFunc<T(!new)>(a: array<T>, n: nat, cmp: (T, T) -> int)
    requires n <= a.Length
    modifies a
    ensures IsSortBy(cmp, a[..n], old(a[..n]))
    ensures forall k | n <= k < a.Length :: a[k] == old(a[k])
    decreases n
  {
    if n > 0 {
      ghost var was := a[..n];
      assert was[..n - 1] == a[..n - 1];
      SortFunc(a, n - 1, cmp);
      ghost var before := a[..n];
      assert before[..n - 1] == a[..n - 1];
      var j := Insert(a, n - 1, cmp);
      SortStep(cmp, was, before, j);
    }
  }

  lemma SortStep<T(!new)>(cmp: (T, T) -> int, was: seq<T>, before: seq<T>, j: nat)
    requires |before| == |was| > 0 && InsertionPoint(cmp, before, j)
    requires IsSortBy(cmp, before[..|was| - 1], was[..|was| - 1]) && before[|was| - 1] == was[|was| - 1]
    ensures IsSortBy(cmp, MoveLast(before, j), was)
  {
    var i := |was| - 1;
    MoveLastMembers(before, j);
    assert multiset(before) == multiset(was) by {
      assert before == before[..i] + [was[i]] && was == was[..i] + [was[i]];
    }
    SameMembers(before, was);
    forall low: set<T> | Separates(cmp, was, low) ensures Apart(MoveLast(before, j), low) {
      assert Separates(cmp, was[..i], low);
      InsertedApart(cmp, before, j, low);
    }
  }

  lemma SomeInsertionPoint<T>(cmp: (T, T) -> int, s: seq<T>, from: nat) returns (j: nat)
    requires from < |s| && forall k | from <= k < |s| - 1 :: cmp(s[|s| - 1], s[k]) < 0
    ensures InsertionPoint(cmp, s, j)
    decreases from
  {
    if from == 0 || cmp(s[|s| - 1], s[from - 1]) >= 0 {
      j := from;
    } else {
      j := SomeInsertionPoint(cmp, s, from - 1);
    }
  }

  /** Every list can be sorted, however the comparison behaves. */
  lemma SomeSort<T(!new)>(cmp: (T, T) -> int, s: seq<T>) returns (ordered: seq<T>)
    ensures IsSortBy(cmp, ordered, s)
  {
    ordered := s;
    if s != [] {
      var n := |s| - 1;
      var init := SomeSort(cmp, s[..n]);
      assert |init| == |multiset(init)| == |multiset(s[..n])| == n;
      var before := init + [s[n]];
      assert before[..n] == init;
      var j := SomeInsertionPoint(cmp, before, n);
      SortStep(cmp, s, before, j);
      ordered := MoveLast(before, j);
    }
  }

  lemma MoveLastMembers<T>(s: seq<T>, j: nat)
    requires j < |s|
    ensures multiset(MoveLast(s, j)) == multiset(s)
  {
    var n := |s| - 1;
    assert s == s[..j] + s[j..n] + [s[n]];
  }

  /** Whatever the priorities, leased and unleased entries and those with and without spot access stay apart. */
  lemma SortKeepsClasses(ordered: seq<ApprovedExporter>, s: seq<ApprovedExporter>)
    requires IsSortOf(ordered, s)
    ensures SortedByClass(ordered)
  {
    SameMembers(ordered, s);
    forall i, j | 0 <= i < j < |ordered| ensures ClassNotAfter(ordered[i], ordered[j]) {
      var low := set x | x in s && ClassNotAfter(x, ordered[j]);
      assert Separates(Compare, s, low);
      assert ordered[j] in low;
    }
  }

  /** With bounded priorities the comparison is a total preorder, and sorting by it gives the intended order. */
  lemma SortByCompare(ordered: seq<ApprovedExporter>, s: seq<ApprovedExporter>)
    requires IsSortOf(ordered, s) && PrioritiesBounded(s)
    ensures Sorted(ordered)
  {
    SameMembers(ordered, s);
    forall i, j | 0 <= i < j < |ordered| ensures NotAfter(RankOf(ordered[i]), RankOf(ordered[j])) {
      var low := set x | x in s && NotAfter(RankOf(x), RankOf(ordered[j]));
      assert ordered[j] in low by {
        NotAfterTotalOrder(RankOf(ordered[j]), RankOf(ordered[j]), RankOf(ordered[j]));
      }
      forall x, y | x in s && y in s && x in low && y !in low ensures Compare(x, y) < 0 && Compare(y, x) >= 0 {
        NotAfterTotalOrder(RankOf(y), RankOf(x), RankOf(ordered[j]));
        CompareIsNotAfter(x, y);
      }
      assert Separates(Compare, s, low);
    }
  }

  lemma SameMembers<T>(a: seq<T>, b: seq<T>)
    requires multiset(a) == multiset(b)
    ensures forall x :: x in a <==> x in b
  {
    forall x ensures x in a <==> x in b {
      assert x in a <==> x in multiset(a);
      assert x in b <==> x in multiset(b);
    }
  }

  /** Orders the first `n` entries in place. */
  method OrderApprovedExporters(a: array<ApprovedExporter>, n: nat)
    requires n <= a.Length
    modifies a
    ensures IsSortOf(a[..n], old(a[..n]))
  {
    SortFunc(a, n, Compare);
  }

  // ---------------------------------------------------------------- the choice

  datatype Choice =
    | SpotOnly(name: string)                                     // refused: the best entry needs spot access
    | AllLeased                                                  // nothing left after the filter
    | NeedsEviction(name: string)                                // only a spot lease stands in the way
    | Assign(name: string, priority: Int64, spot: bool)

  /** What the code concludes from the ordered entries. */
  function Choose(ordered: seq<ApprovedExporter>): Choice
    requires ordered != []
  {
    var available := Without(ordered, Blocked);
    if ordered[0].policy.spotAccess then SpotOnly(ordered[0].exporter.key.name)
    else if available == [] then AllLeased
    else if available[0].existingLease.Some? then NeedsEviction(available[0].exporter.key.name)
    else Assign(available[0].exporter.key.name, available[0].policy.priority, available[0].policy.spotAccess)
  }

  /** Some permitted order of the entries leads to this choice. */
  ghost predicate Chosen(s: seq<ApprovedExporter>, c: Choice) {
    exists ordered :: IsSortOf(ordered, s) && ordered != [] && c == Choose(ordered)
  }

  predicate Free(ae: ApprovedExporter) {
    ae.existingLease.None? && !ae.policy.spotAccess
  }

  ghost predicate Least(best: ApprovedExporter, s: seq<ApprovedExporter>) {
    best in s && forall x :: x in s ==> NotAfter(RankOf(best), RankOf(x))
  }

  /** The first entry is of the first class there is. */
  lemma FirstOfClass(ordered: seq<ApprovedExporter>, s: seq<ApprovedExporter>)
    requires IsSortOf(ordered, s) && ordered != []
    ensures ordered[0] in s && forall x :: x in s ==> ClassNotAfter(ordered[0], x)
  {
    SortKeepsClasses(ordered, s);
    SameMembers(ordered, s);
    forall x | x in s ensures ClassNotAfter(ordered[0], x) {
      var i :| 0 <= i < |ordered| && ordered[i] == x;
    }
  }

  lemma FirstIsLeast(ordered: seq<ApprovedExporter>, s: seq<ApprovedExporter>)
    requires IsSortOf(ordered, s) && ordered != [] && PrioritiesBounded(s)
    ensures Least(ordered[0], s)
  {
    SortByCompare(ordered, s);
    SameMembers(ordered, s);
    forall x | x in s ensures NotAfter(RankOf(ordered[0]), RankOf(x)) {
      var i :| 0 <= i < |ordered| && ordered[i] == x;
      NotAfterTotalOrder(RankOf(x), RankOf(x), RankOf(x));
    }
  }

  /** Some entry is least. */
  lemma SomeLeast(s: seq<ApprovedExporter>) returns (best: ApprovedExporter)
    requires s != []
    ensures Least(best, s)
  {
    var n := |s| - 1;
    best := s[n];
    NotAfterTotalOrder(RankOf(best), RankOf(best), RankOf(best));
    if n > 0 {
      var init := SomeLeast(s[..n]);
      if NotAfter(RankOf(init), RankOf(best)) {
        best := init;
      }
      forall x | x in s ensures NotAfter(RankOf(best), RankOf(x)) {
        NotAfterTotalOrder(RankOf(best), RankOf(init), RankOf(x));
        NotAfterTotalOrder(RankOf(s[n]), RankOf(init), RankOf(x));
        assert x in s[..n] || x == s[n];
      }
    }
  }

  /** How far the choice can be trusted: the priority of `best` can be subtracted from that of every other
      free entry. */
  predicate Reaches(best: ApprovedExporter, s: seq<ApprovedExporter>) {
    forall i | 0 <= i < |s| && Free(s[i]) :: FitsInt64(best.policy.priority - s[i].policy.priority)
  }

  /** When some entry is free, the best one is sure to come first exactly when its priority can be
      subtracted from those of the other free entries; priorities of entries that are leased or under spot
      access do not matter. */
  lemma BestFirstExactlyWhen(best: ApprovedExporter, s: seq<ApprovedExporter>)
    requires Least(best, s) && Free(best)
    ensures (forall ordered :: IsSortOf(ordered, s) && ordered != [] ==> RankOf(ordered[0]) == RankOf(best))
       <==> Reaches(best, s)
  {
    if Reaches(best, s) {
      forall ordered | IsSortOf(ordered, s) && ordered != [] ensures RankOf(ordered[0]) == RankOf(best) {
        BestComesFirst(best, s, ordered);
      }
    } else {
      var ordered := SomeSort(Compare, s);
      var other := BestMayComeLater(best, s, ordered);
    }
  }

  lemma BestComesFirst(best: ApprovedExporter, s: seq<ApprovedExporter>, ordered: seq<ApprovedExporter>)
    requires Least(best, s) && Free(best) && Reaches(best, s) && IsSortOf(ordered, s) && ordered != []
    ensures RankOf(ordered[0]) == RankOf(best)
  {
    SameMembers(ordered, s);
    var low := set x | x in s && RankOf(x) == RankOf(best);
    forall x, y | x in s && y in s && x in low && y !in low ensures Compare(x, y) < 0 && Compare(y, x) >= 0 {
      assert NotAfter(RankOf(best), RankOf(y));
      NotAfterTotalOrder(RankOf(best), RankOf(y), RankOf(y));
      if Free(y) {
        CompareIsNotAfter(x, y);
      }
    }
    assert Separates(Compare, s, low);
    var i :| 0 <= i < |ordered| && ordered[i] == best;
  }

  /** A sort may swap its first element with one the comparison does not put above it. */
  lemma SwapKeepsSort<T(!new)>(cmp: (T, T) -> int, ordered: seq<T>, s: seq<T>, k: nat)
    requires IsSortBy(cmp, ordered, s) && k < |ordered|
    requires !(cmp(ordered[0], ordered[k]) < 0 && cmp(ordered[k], ordered[0]) >= 0)
    ensures IsSortBy(cmp, Swapped(ordered, k), s)
  {
    SameMembers(ordered, s);
    var other := Swapped(ordered, k);
    assert ordered[0] in ordered && ordered[k] in ordered;
    forall low: set<T> | Separates(cmp, s, low) ensures Apart(other, low) {
      assert Apart(ordered, low);
      assert ordered[0] in low ==> ordered[k] in low;
    }
    assert multiset(other) == multiset(ordered);
  }

  function Swapped<T>(s: seq<T>, k: nat): seq<T>
    requires k < |s|
  {
    s[0 := s[k]][k := s[0]]
  }

  /** An order a sort may return with another entry than the best first. */
  lemma BestMayComeLater(best: ApprovedExporter, s: seq<ApprovedExporter>, ordered: seq<ApprovedExporter>)
      returns (other: seq<ApprovedExporter>)
    requires Least(best, s) && Free(best) && !Reaches(best, s) && IsSortOf(ordered, s)
    ensures IsSortOf(other, s) && other != [] && RankOf(other[0]) != RankOf(best)
  {
    var i :| 0 <= i < |s| && Free(s[i]) && !FitsInt64(best.policy.priority - s[i].policy.priority);
    var z := s[i];
    SameMembers(ordered, s);
    assert z in s;
    var k :| 0 <= k < |ordered| && ordered[k] == z;
    if RankOf(ordered[0]) == RankOf(best) {
      assert NotAfter(RankOf(best), RankOf(z));
      SwapKeepsSort(Compare, ordered, s, k);
      other := Swapped(ordered, k);
    } else {
      other := ordered;
    }
  }

  /** Whatever the order of the entries, even when priorities overflow: an assigned exporter is one no
      listed lease holds. */
  lemma AssignedIsUnleased(s: seq<ApprovedExporter>, c: Choice)
    requires Chosen(s, c) && c.Assign?
    ensures exists x :: x in s && x.existingLease.None? && x.exporter.key.name == c.name
                     && x.policy.priority == c.priority && x.policy.spotAccess == c.spot
  {
    var ordered :| IsSortOf(ordered, s) && ordered != [] && c == Choose(ordered);
    var first := Without(ordered, Blocked)[0];
    WithoutMembers(ordered, Blocked, first);
    SameMembers(ordered, s);
  }

  /** An assignment always takes the first entry of the order, and so one without spot access. */
  lemma AssignTakesFirst(ordered: seq<ApprovedExporter>)
    requires ordered != [] && SortedByClass(ordered) && Choose(ordered).Assign?
    ensures Free(ordered[0])
    ensures Choose(ordered) == Assign(ordered[0].exporter.key.name, ordered[0].policy.priority, false)
  {
    var first := Without(ordered, Blocked)[0];
    WithoutMembers(ordered, Blocked, first);
    var i :| 0 <= i < |ordered| && ordered[i] == first;
    assert i > 0 ==> ClassNotAfter(ordered[0], ordered[i]);
    WithoutKeepsFirst(ordered, Blocked);
  }

  ghost predicate AnyFree(s: seq<ApprovedExporter>) {
    exists x :: x in s && Free(x)
  }

  ghost predicate AnyUnleased(s: seq<ApprovedExporter>) {
    exists x :: x in s && x.existingLease.None?
  }

  ghost predicate AllSpot(s: seq<ApprovedExporter>) {
    forall x :: x in s ==> x.policy.spotAccess
  }

  /** Some entry is held by a lease under spot access and is itself without. */
  ghost predicate AnyEvictable(s: seq<ApprovedExporter>) {
    exists x :: x in s && Evictable(x)
  }

  predicate Evictable(ae: ApprovedExporter) {
    ae.existingLease.Some? && ae.existingLease.value.status.spotAccess && !ae.policy.spotAccess
  }

  /** The exact verdict, whatever the priorities. An exporter is assigned if and only if some entry is free
      of both a lease and spot access, and then such an entry; otherwise the other three outcomes split the
      remaining cases completely. */
  lemma ExactVerdict(s: seq<ApprovedExporter>, c: Choice)
    requires Chosen(s, c)
    ensures c.Assign? <==> AnyFree(s)
    ensures c.Assign? ==> exists x :: x in s && Free(x) && c == Assign(x.exporter.key.name, x.policy.priority, false)
    ensures c.SpotOnly? <==> !AnyFree(s) && (AnyUnleased(s) || AllSpot(s))
    ensures c.AllLeased? <==> !AnyUnleased(s) && !AllSpot(s) && !AnyEvictable(s)
    ensures c.NeedsEviction? <==> !AnyUnleased(s) && !AllSpot(s) && AnyEvictable(s)
  {
    var ordered :| IsSortOf(ordered, s) && ordered != [] && c == Choose(ordered);
    var first := ordered[0];
    FirstOfClass(ordered, s);
    SortKeepsClasses(ordered, s);
    SameMembers(ordered, s);
    forall x ensures x in Without(ordered, Blocked) <==> x in s && !Blocked(x) {
      WithoutMembers(ordered, Blocked, x);
    }
    if Free(first) {
      WithoutKeepsFirst(ordered, Blocked);
    } else {
      assert forall x :: x in s && Free(x) ==> ClassNotAfter(first, x);
      if Choose(ordered).Assign? {
        AssignTakesFirst(ordered);
      }
    }
    assert Without(ordered, Blocked) != [] ==> Without(ordered, Blocked)[0] in Without(ordered, Blocked);
  }

  /** Every choice assigns the best free entry exactly when its priority can be subtracted from those of the
      other free entries. */
  lemma OptimalExactlyWhen(s: seq<ApprovedExporter>, best: ApprovedExporter)
    requires Least(best, s) && Free(best)
    ensures (forall c :: Chosen(s, c) ==> c == Assign(best.exporter.key.name, best.policy.priority, false))
       <==> Reaches(best, s)
  {
    BestFirstExactlyWhen(best, s);
    forall ordered: seq<ApprovedExporter> | IsSortOf(ordered, s)
      ensures ordered != [] && Chosen(s, Choose(ordered))
      ensures Choose(ordered) == Assign(best.exporter.key.name, best.policy.priority, false)
         <==> RankOf(ordered[0]) == RankOf(best)
    {
      ChoiceOfFirstFree(ordered, s, best);
    }
  }

  lemma ChoiceOfFirstFree(ordered: seq<ApprovedExporter>, s: seq<ApprovedExporter>, best: ApprovedExporter)
    requires IsSortOf(ordered, s) && best in s && Free(best)
    ensures ordered != [] && Chosen(s, Choose(ordered))
    ensures Choose(ordered) == Assign(best.exporter.key.name, best.policy.priority, false)
       <==> RankOf(ordered[0]) == RankOf(best)
  {
    SameMembers(ordered, s);
    FirstOfClass(ordered, s);
    assert ClassNotAfter(ordered[0], best);
    WithoutKeepsFirst(ordered, Blocked);
  }

  /** Of two free entries the one that compares below the other is chosen. */
  lemma LowerOfTwoChosen(a: ApprovedExporter, b: ApprovedExporter, c: Choice)
    requires Free(b) && Compare(b, a) < 0 && Compare(a, b) >= 0 && Chosen([a, b], c)
    ensures c == Assign(b.exporter.key.name, b.policy.priority, false)
  {
    var s := [a, b];
    var ordered :| IsSortOf(ordered, s) && ordered != [] && c == Choose(ordered);
    assert b in s && forall x | x in s :: x == a || x == b;
    LowestComesFirst(Compare, ordered, s, b);
    WithoutKeepsFirst(ordered, Blocked);
  }

  /** Two free entries whose priorities are furthest apart: the worse one is chosen, for sure. */
  lemma OverflowChoosesWorse(good: string, bad: string, c: Choice)
    requires Chosen([Plain(good, MAX_INT64), Plain(bad, MIN_INT64)], c)
    ensures c == Assign(bad, MIN_INT64, false)
    ensures NotAfter(RankOf(Plain(good, MAX_INT64)), RankOf(Plain(bad, MIN_INT64)))
  {
    LowerOfTwoChosen(Plain(good, MAX_INT64), Plain(bad, MIN_INT64), c);
  }

  /** An element that the comparison puts below all others comes first. */
  lemma LowestComesFirst<T(!new)>(cmp: (T, T) -> int, ordered: seq<T>, s: seq<T>, x: T)
    requires IsSortBy(cmp, ordered, s) && x in s
    requires forall y | y in s && y != x :: cmp(x, y) < 0 && cmp(y, x) >= 0
    ensures ordered != [] && ordered[0] == x
  {
    SameMembers(ordered, s);
    assert Separates(cmp, s, {x});
    var i :| 0 <= i < |ordered| && ordered[i] == x;
    assert Apart(ordered, {x});
  }

  /** An unleased entry without spot access. */
  function Plain(name: string, priority: Int64): ApprovedExporter {
    ApprovedExporter(Exporter(Key("ns", name), map[], true, true, None), None, Policy(priority, [], None, false))
  }

  /** A refusal for spot access names the least entry. */
  lemma SpotOnlyNamesLeast(s: seq<ApprovedExporter>, c: Choice)
    requires Chosen(s, c) && c.SpotOnly?
    ensures exists x :: x in s && x.policy.spotAccess && c.name == x.exporter.key.name
    ensures PrioritiesBounded(s) ==> exists x :: Least(x, s) && x.policy.spotAccess && c.name == x.exporter.key.name
  {
    var ordered :| IsSortOf(ordered, s) && ordered != [] && c == Choose(ordered);
    FirstOfClass(ordered, s);
    if PrioritiesBounded(s) {
      FirstIsLeast(ordered, s);
    }
  }

  predicate NoSpotLeases(s: seq<ApprovedExporter>) {
    forall i | 0 <= i < |s| :: s[i].existingLease.Some? ==> !s[i].existingLease.value.status.spotAccess
  }

  /** The ranks present among the entries. */
  ghost function RanksOf(s: seq<ApprovedExporter>): set<Rank> {
    set x | x in s :: RankOf(x)
  }

  lemma LeastAgree(s: seq<ApprovedExporter>, t: seq<ApprovedExporter>, x: ApprovedExporter, y: ApprovedExporter)
    requires RanksOf(s) == RanksOf(t) && Least(x, s) && Least(y, t)
    ensures RankOf(x) == RankOf(y)
  {
    assert RankOf(x) in RanksOf(t) && RankOf(y) in RanksOf(s);
    NotAfterTotalOrder(RankOf(x), RankOf(y), RankOf(x));
  }

  /** The choice depends only on which ranks are present: not on the order of the entries, not on
      duplicates, not on how the unstable sort arranges equals. */
  lemma ChoiceIsOrderIndependent(s: seq<ApprovedExporter>, c: Choice, t: seq<ApprovedExporter>, d: Choice)
    requires Chosen(s, c) && Chosen(t, d)
    requires PrioritiesBounded(s) && PrioritiesBounded(t)
    requires NoSpotLeases(s) && NoSpotLeases(t) && RanksOf(s) == RanksOf(t)
    ensures c == d
  {
    var first :| IsSortOf(first, s) && first != [] && c == Choose(first);
    var second :| IsSortOf(second, t) && second != [] && d == Choose(second);
    FirstIsLeast(first, s);
    FirstIsLeast(second, t);
    LeastAgree(s, t, first[0], second[0]);
    ChoiceFromFirst(first, s);
    ChoiceFromFirst(second, t);
  }

  /** Without spot leases the choice is decided by the first entry alone. */
  lemma ChoiceFromFirst(ordered: seq<ApprovedExporter>, s: seq<ApprovedExporter>)
    requires IsSortOf(ordered, s) && ordered != [] && NoSpotLeases(s)
    ensures var r := RankOf(ordered[0]);
            Choose(ordered)
            == if r.spot then SpotOnly(r.name)
               else if r.leased then AllLeased
               else Assign(r.name, r.priority, false)
  {
    FirstOfClass(ordered, s);
    SameMembers(ordered, s);
    var available := Without(ordered, Blocked);
    if Free(ordered[0]) {
      WithoutKeepsFirst(ordered, Blocked);
    } else if !ordered[0].policy.spotAccess && available != [] {
      WithoutMembers(ordered, Blocked, available[0]);
    }
  }
}
