/** The stored objects the lease scheduler reads and writes. */
module LeaseTypes {
  import opened Options
  import opened Identifiers
  import opened LabelSelectors
  import opened LeaseTimes

  datatype LeaseSpec = LeaseSpec(clientRef: string, times: Times, selector: LabelSelector, release: bool)

  datatype ConditionType = Pending | Ready | Unsatisfiable | Invalid

  /** A condition: its truth, its reason, and the exporter its message names. */
  datatype Condition = Condition(status: bool, reason: string, exporterNamed: string)

  datatype LeaseStatus = LeaseStatus(
    beginTime: Option<Time>,
    endTime: Option<Time>,
    exporterRef: Option<string>,
    ended: bool,
    priority: Int64,
    spotAccess: bool,
    conditions: map<ConditionType, Condition>)

  const NEW_STATUS := LeaseStatus(None, None, None, false, 0, false, map[])

  /** A lease as the API server stores it. `endedLabel` is the label that takes a lease out of the
      active lists, `owner` the exporter that owns it, `version` its resource version. */
  datatype LeaseRecord = LeaseRecord(
    key: Key,
    spec: LeaseSpec,
    status: LeaseStatus,
    endedLabel: bool,
    owner: Option<string>,
    version: nat)

  datatype Exporter = Exporter(key: Key, labels: Labels, registered: bool, online: bool, leaseRef: Option<string>)

  datatype Policy = Policy(
    priority: Int64,
    from: seq<LabelSelector>,
    maximumDuration: Option<Duration>,
    spotAccess: bool)

  datatype AccessPolicy = AccessPolicy(key: Key, exporterSelector: LabelSelector, policies: seq<Policy>)

  /** The policy of every exporter when there are no access policies, and the zero value of one. */
  const DEFAULT_POLICY := Policy(0, [], None, false)

  predicate IsTrue(status: LeaseStatus, condition: ConditionType) {
    condition in status.conditions && status.conditions[condition].status
  }
}
