/**
 The operator's router objects: one deployment per replica, one service per replica, endpoint and
 enabled type, and the cleanup loops that sweep what a smaller specification no longer wants.
 */
module RouterServices {
  import opened ServiceNames

  const REPLICA_BOUND: nat := 100
  const ENDPOINT_BOUND: nat := 10

  /** The suffixes in the order the cleanup tries them. */
  const KINDS: seq<Kind> := [ClusterIP, LoadBalancer, NodePort]

  /** Which service types an endpoint enables. */
  datatype Endpoint = Endpoint(
    address: string,
    route: bool,
    ingress: bool,
    loadBalancer: bool,
    nodePort: bool,
    clusterIP: bool)

  /** A service: its type and the label of the pods it selects. */
  datatype Service = Service(kind: Kind, app: string)

  type Services = map<string, Service>

  // ---------------------------------------------------------------- endpoint defaults

  predicate HasType(ep: Endpoint) {
    ep.route || ep.ingress || ep.loadBalancer || ep.nodePort || ep.clusterIP
  }

  /** The types an endpoint enables. */
  datatype EndpointType = Route | Ingress | LoadBalanced | NodePorted | Clustered

  function TypesOf(ep: Endpoint): set<EndpointType> {
    (if ep.route then {Route} else {}) + (if ep.ingress then {Ingress} else {})
    + (if ep.loadBalancer then {LoadBalanced} else {}) + (if ep.nodePort then {NodePorted} else {})
    + (if ep.clusterIP then {Clustered} else {})
  }

  /** An endpoint that has a type is left alone; one that has none gets exactly one, the first that is
      available of a route, an ingress and a cluster service. */
  function WithType(ep: Endpoint, routeAvailable: bool, ingressAvailable: bool): (r: Endpoint)
    ensures HasType(r) && r.address == ep.address && (TypesOf(ep) != {} ==> r == ep)
    ensures TypesOf(ep) == {} && routeAvailable ==> TypesOf(r) == {Route}
    ensures TypesOf(ep) == {} && !routeAvailable && ingressAvailable ==> TypesOf(r) == {Ingress}
    ensures TypesOf(ep) == {} && !routeAvailable && !ingressAvailable ==> TypesOf(r) == {Clustered}
  {
    if HasType(ep) then ep
    else if routeAvailable then ep.(route := true)
    else if ingressAvailable then ep.(ingress := true)
    else ep.(clusterIP := true)
  }

  /** What the defaults make of a list of endpoints: a default one if there is none, and a type for each. */
  function Defaulted(eps: seq<Endpoint>, address: string, routeAvailable: bool, ingressAvailable: bool): seq<Endpoint> {
    var some := if eps == [] then [Endpoint(address, false, false, false, false, false)] else eps;
    seq(|some|, i requires 0 <= i < |some| => WithType(some[i], routeAvailable, ingressAvailable))
  }

  lemma DefaultedTyped(eps: seq<Endpoint>, address: string, routeAvailable: bool, ingressAvailable: bool)
    ensures var r := Defaulted(eps, address, routeAvailable, ingressAvailable);
            && AllTyped(r) && |r| == EndpointCount(eps)
            && Defaulted(r, address, routeAvailable, ingressAvailable) == r
            && (AllTyped(eps) ==> r == eps)
            && (eps == [] ==> r[0].address == address)
            && (forall i | 0 <= i < |eps| :: r[i].address == eps[i].address && (HasType(eps[i]) ==> r[i] == eps[i]))
            && (forall i | 0 <= i < |r| :: TypesOf(r[i]) != {})
  {
    var r := Defaulted(eps, address, routeAvailable, ingressAvailable);
    var some := if eps == [] then [Endpoint(address, false, false, false, false, false)] else eps;
    forall i | 0 <= i < |r|
      ensures HasType(r[i]) && TypesOf(r[i]) != {}
      ensures r[i].address == some[i].address && (HasType(some[i]) ==> r[i] == some[i])
    {
      assert r[i] == WithType(some[i], routeAvailable, ingressAvailable);
    }
    var again := Defaulted(r, address, routeAvailable, ingressAvailable);
    forall i | 0 <= i < |r| ensures again[i] == r[i] {
      assert again[i] == WithType(r[i], routeAvailable, ingressAvailable);
    }
  }

  /** The part of the specification the router objects depend on, and the endpoints of the controller. */
  class JumpstarterSpec {
    const name: string
    const baseDomain: string
    const replicas: nat
    var controllerEndpoints: array<Endpoint>
    var endpoints: array<Endpoint>

    constructor (name: string, baseDomain: string, replicas: nat, controllerEndpoints: array<Endpoint>,
                 endpoints: array<Endpoint>)
      ensures this.name == name && this.baseDomain == baseDomain && this.replicas == replicas
      ensures this.controllerEndpoints == controllerEndpoints && this.endpoints == endpoints
    {
      this.name, this.baseDomain, this.replicas := name, baseDomain, replicas;
      this.controllerEndpoints, this.endpoints := controllerEndpoints, endpoints;
    }

    /** Without a base domain nothing changes; with one both lists get their defaults, in place. */
    method ApplyEndpointDefaults(routeAvailable: bool, ingressAvailable: bool)
      requires controllerEndpoints != endpoints
      modifies this, controllerEndpoints, endpoints
      ensures baseDomain == "" ==> endpoints == old(endpoints) && endpoints[..] == old(endpoints[..])
      ensures baseDomain == "" ==>
                controllerEndpoints == old(controllerEndpoints)
                    && controllerEndpoints[..] == old(controllerEndpoints[..])
      ensures baseDomain != "" ==>
                endpoints[..] == Defaulted(old(endpoints[..]), "router-$(replica)." + baseDomain, routeAvailable,
                  ingressAvailable)
      ensures baseDomain != "" ==>
                controllerEndpoints[..]
                == Defaulted(old(controllerEndpoints[..]), "grpc." + baseDomain, routeAvailable, ingressAvailable)
      ensures endpoints == old(endpoints) || fresh(endpoints)
    {
      if baseDomain == "" {
        return;
      }
      if controllerEndpoints.Length == 0 {
        var ep := Endpoint("grpc." + baseDomain, false, false, false, false, false);
        controllerEndpoints := new Endpoint[] [WithType(ep, routeAvailable, ingressAvailable)];
      } else {
        EnsureTypes(controllerEndpoints, "grpc." + baseDomain, routeAvailable, ingressAvailable);
      }
      if endpoints.Length == 0 {
        var ep := Endpoint("router-$(replica)." + baseDomain, false, false, false, false, false);
        endpoints := new Endpoint[] [WithType(ep, routeAvailable, ingressAvailable)];
      } else {
        EnsureTypes(endpoints, "router-$(replica)." + baseDomain, routeAvailable, ingressAvailable);
      }
    }
  }

  /** Gives every endpoint of a list that is not empty a type. */
  method EnsureTypes(eps: array<Endpoint>, ghost address: string, routeAvailable: bool, ingressAvailable: bool)
    requires eps.Length > 0
    modifies eps
    ensures eps[..] == Defaulted(old(eps[..]), address, routeAvailable, ingressAvailable)
  {
    for i := 0 to eps.Length
      invariant forall j | 0 <= j < i :: eps[j] == WithType(old(eps[j]), routeAvailable, ingressAvailable)
      invariant forall j | i <= j < eps.Length :: eps[j] == old(eps[j])
    {
      eps[i] := WithType(eps[i], routeAvailable, ingressAvailable);
    }
  }

  // ---------------------------------------------------------------- what the loops compute

  predicate Wants(ep: Endpoint, kind: Kind) {
    match kind
    case LoadBalancer => ep.loadBalancer
    case NodePort => ep.nodePort
    case ClusterIP => ep.clusterIP || ep.ingress || ep.route
  }

  function CreateOne(s: Services, instance: string, slot: Slot, ep: Endpoint): Services {
    if Wants(ep, slot.kind)
    then s[Name(instance, slot) := Service(slot.kind, RouterName(instance, slot.replica))]
    else s
  }

  function CreateEndpoint(s: Services, instance: string, replica: nat, endpoint: nat, ep: Endpoint): Services {
    CreateOne(CreateOne(CreateOne(s, instance, Slot(replica, endpoint, LoadBalancer), ep),
                        instance, Slot(replica, endpoint, NodePort), ep),
              instance, Slot(replica, endpoint, ClusterIP), ep)
  }

  function CreateReplica(s: Services, instance: string, replica: nat, eps: seq<Endpoint>): Services {
    if eps == [] then s
    else CreateEndpoint(CreateReplica(s, instance, replica, eps[..|eps| - 1]), instance, replica, |eps| - 1,
      eps[|eps| - 1])
  }

  function CreateReplicas(s: Services, instance: string, replicas: nat, eps: seq<Endpoint>): Services {
    if replicas == 0 then s
    else CreateReplica(CreateReplicas(s, instance, replicas - 1, eps), instance, replicas - 1, eps)
  }

  /** The names of the first `n` types of one endpoint of one replica. */
  function KindNames(instance: string, replica: nat, endpoint: nat, n: nat): set<string>
    requires n <= |KINDS|
  {
    set k | 0 <= k < n :: Name(instance, Slot(replica, endpoint, KINDS[k]))
  }

  /** The names of the first `n` endpoints of one replica. */
  function ReplicaNames(instance: string, replica: nat, n: nat): set<string> {
    if n == 0 then {} else ReplicaNames(instance, replica, n - 1) + KindNames(instance, replica, n - 1, |KINDS|)
  }

  /** Sweeps the replicas from `replica` on, up to the first one without any service. */
  function SweepReplicas(s: Services, instance: string, replica: nat): Services
    decreases REPLICA_BOUND - replica
  {
    if replica >= REPLICA_BOUND then s
    else
      var names := ReplicaNames(instance, replica, ENDPOINT_BOUND);
      if s.Keys !! names then s else SweepReplicas(s - names, instance, replica + 1)
  }

  /** Sweeps the endpoints of one replica from `endpoint` on, up to the first one without any service. */
  function SweepEndpoints(s: Services, instance: string, replica: nat, endpoint: nat): Services
    decreases ENDPOINT_BOUND - endpoint
  {
    if endpoint >= ENDPOINT_BOUND then s
    else
      var names := KindNames(instance, replica, endpoint, |KINDS|);
      if s.Keys !! names then s else SweepEndpoints(s - names, instance, replica, endpoint + 1)
  }

  function SweepValidReplicas(s: Services, instance: string, replica: nat, replicas: nat, endpoints: nat): Services
    decreases replicas - replica
  {
    if replica >= replicas then s
    else SweepValidReplicas(SweepEndpoints(s, instance, replica, endpoints), instance, replica + 1, replicas, endpoints)
  }

  function EndpointCount(eps: seq<Endpoint>): nat {
    if eps == [] then 1 else |eps|
  }

  /** The services after one reconcile without error. */
  function Reconciled(s: Services, instance: string, replicas: nat, eps: seq<Endpoint>): Services {
    SweepValidReplicas(SweepReplicas(CreateReplicas(s, instance, replicas, eps), instance, replicas),
                       instance, 0, replicas, EndpointCount(eps))
  }

  // ---------------------------------------------------------------- the code

  /** The namespace the operator works in: the services, and the deployments that carry the label of
      the instance. */
  class Namespace {
    var services: Services
    var deployments: set<string>

    method CreateOrUpdateService(name: string, service: Service)
      modifies this`services
      ensures services == old(services)[name := service]
    {
      services := services[name := service];
    }

    method DeleteService(name: string) returns (found: bool)
      modifies this`services
      ensures found <==> name in old(services)
      ensures services == old(services) - {name}
    {
      found := name in services;
      services := services - {name};
    }

    /** One service for every enabled type of the endpoint. */
    method ReconcileRouterReplicaEndpoint(instance: string, replica: nat, endpoint: nat, ep: Endpoint,
                                          serviceName: string)
      requires serviceName == ServiceName(instance, replica, endpoint)
      modifies this`services
      ensures services == CreateEndpoint(old(services), instance, replica, endpoint, ep)
      ensures Updated(old(services), services, serviceName + "-lb", LoadBalancer, ep.loadBalancer)
      ensures Updated(old(services), services, serviceName + "-np", NodePort, ep.nodePort)
      ensures Updated(old(services), services, serviceName, ClusterIP, ep.clusterIP || ep.ingress || ep.route)
    {
      CreateEndpointByType(services, instance, replica, endpoint, ep);
      var app := RouterName(instance, replica);
      if ep.loadBalancer {
        CreateOrUpdateService(serviceName + "-lb", Service(LoadBalancer, app));
      }
      if ep.nodePort {
        CreateOrUpdateService(serviceName + "-np", Service(NodePort, app));
      }
      if ep.clusterIP || ep.ingress || ep.route {
        CreateOrUpdateService(serviceName + "", Service(ClusterIP, app));
      }
    }

    /** Creates what the specification wants, then sweeps what it does not. Without endpoints the
        default endpoint has no type enabled, and no service comes of it. */
    method ReconcileServices(spec: JumpstarterSpec)
      modifies this`services
      ensures services == Reconciled(old(services), spec.name, spec.replicas, spec.endpoints[..])
    {
      ghost var eps := spec.endpoints[..];
      for i := 0 to spec.replicas
        invariant services == CreateReplicas(old(services), spec.name, i, eps)
      {
        ghost var before := services;
        if spec.endpoints.Length > 0 {
          for e := 0 to spec.endpoints.Length
            invariant services == CreateReplica(before, spec.name, i, eps[..e])
          {
            assert eps[..e + 1][..e] == eps[..e];
            var serviceName := ServiceName(spec.name, i, e);
            ReconcileRouterReplicaEndpoint(spec.name, i, e, spec.endpoints[e], serviceName);
          }
          assert eps[..spec.endpoints.Length] == eps;
        } else {
          var ep := Endpoint("router-" + Decimal(i) + "." + spec.baseDomain, false, false, false, false, false);
          ReconcileRouterReplicaEndpoint(spec.name, i, 0, ep, ServiceName(spec.name, i, 0));
        }
      }
      CleanupExcessRouterServices(spec);
    }

    /** Tries to delete the services of all types of one endpoint. */
    method DeleteEndpointServices(instance: string, replica: nat, endpoint: nat) returns (foundAny: bool)
      modifies this`services
      ensures foundAny <==> !(old(services).Keys !! KindNames(instance, replica, endpoint, |KINDS|))
      ensures services == old(services) - KindNames(instance, replica, endpoint, |KINDS|)
    {
      foundAny := false;
      for k := 0 to |KINDS|
        invariant foundAny <==> !(old(services).Keys !! KindNames(instance, replica, endpoint, k))
        invariant services == old(services) - KindNames(instance, replica, endpoint, k)
      {
        var serviceName := ServiceName(instance, replica, endpoint) + Suffix(KINDS[k]);
        assert KindNames(instance, replica, endpoint, k + 1)
                == KindNames(instance, replica, endpoint, k) + {serviceName};
        var found := DeleteService(serviceName);
        if found {
          foundAny := true;
        }
      }
    }

    /** Tries to delete the services of every endpoint and type of one replica. */
    method DeleteReplicaServices(instance: string, replica: nat) returns (foundAny: bool)
      modifies this`services
      ensures foundAny <==> !(old(services).Keys !! ReplicaNames(instance, replica, ENDPOINT_BOUND))
      ensures services == old(services) - ReplicaNames(instance, replica, ENDPOINT_BOUND)
    {
      foundAny := false;
      for endpointIdx := 0 to ENDPOINT_BOUND
        invariant foundAny <==> !(old(services).Keys !! ReplicaNames(instance, replica, endpointIdx))
        invariant services == old(services) - ReplicaNames(instance, replica, endpointIdx)
      {
        var found := DeleteEndpointServices(instance, replica, endpointIdx);
        foundAny := foundAny || found;
      }
    }

    /** Sweeps the replicas beyond the count, stopping at the first without any service. */
    method CleanupExcessReplicas(instance: string, replicas: nat)
      modifies this`services
      ensures services == SweepReplicas(old(services), instance, replicas)
    {
      var idx := replicas;
      while idx < REPLICA_BOUND
        invariant SweepReplicas(services, instance, idx) == SweepReplicas(old(services), instance, replicas)
      {
        ghost var before := services;
        var foundAny := DeleteReplicaServices(instance, idx);
        if !foundAny {
          assert services == before;
          break;
        }
        idx := idx + 1;
      }
    }

    /** Sweeps the endpoints beyond the count of one valid replica, stopping likewise. */
    method CleanupExcessEndpoints(instance: string, replica: nat, endpoints: nat)
      modifies this`services
      ensures services == SweepEndpoints(old(services), instance, replica, endpoints)
    {
      var endpointIdx := endpoints;
      while endpointIdx < ENDPOINT_BOUND
        invariant SweepEndpoints(services, instance, replica, endpointIdx)
                == SweepEndpoints(old(services), instance, replica, endpoints)
      {
        ghost var before := services;
        var foundAny := DeleteEndpointServices(instance, replica, endpointIdx);
        if !foundAny {
          assert services == before;
          break;
        }
        endpointIdx := endpointIdx + 1;
      }
    }

    method CleanupExcessRouterServices(spec: JumpstarterSpec)
      modifies this`services
      ensures services == SweepValidReplicas(SweepReplicas(old(services), spec.name, spec.replicas),
                                             spec.name, 0, spec.replicas, EndpointCount(spec.endpoints[..]))
    {
      CleanupExcessReplicas(spec.name, spec.replicas);
      var numEndpoints := spec.endpoints.Length;
      if numEndpoints == 0 {
        numEndpoints := 1;
      }
      ghost var swept := services;
      for replicaIdx := 0 to spec.replicas
        invariant SweepValidReplicas(services, spec.name, replicaIdx, spec.replicas, numEndpoints)
               == SweepValidReplicas(swept, spec.name, 0, spec.replicas, numEndpoints)
      {
        CleanupExcessEndpoints(spec.name, replicaIdx, numEndpoints);
      }
    }

    /** One deployment per replica; the listed ones beyond the replica count are deleted by name. */
    method ReconcileRouterDeployment(spec: JumpstarterSpec)
      modifies this`deployments
      ensures deployments == KeptDeployments(old(deployments) + DeploymentNames(spec.name, 0, spec.replicas),
        spec.name, spec.replicas)
    {
      for i := 0 to spec.replicas
        invariant deployments == old(deployments) + DeploymentNames(spec.name, 0, i)
      {
        deployments := deployments + {RouterName(spec.name, i)};
      }
      ghost var all := deployments;
      var listed := deployments;
      while listed != {}
        invariant listed <= all
        invariant deployments == listed + KeptDeployments(all - listed, spec.name, spec.replicas)
        decreases listed
      {
        var d :| d in listed;
        ghost var seen := all - listed;
        listed := listed - {d};
        assert all - listed == seen + {d};
        var idx := spec.replicas;
        var excess := false;
        while idx < REPLICA_BOUND
          invariant spec.replicas <= idx
          invariant forall i | spec.replicas <= i < idx :: d != RouterName(spec.name, i)
          invariant !excess
        {
          var excessName := RouterName(spec.name, idx);
          if d == excessName {
            deployments := deployments - {d};
            excess := true;
            break;
          }
          idx := idx + 1;
        }
        assert Excess(d, spec.name, spec.replicas) <==> excess;
      }
    }

    /** One reconcile without error: defaults, deployments, services. With a base domain, a namespace in
        which the pairs that own a service form a rectangle within the bounds ends up with exactly the
        wanted rectangle, and with exactly the wanted deployments. */
    method Reconcile(spec: JumpstarterSpec, routeAvailable: bool, ingressAvailable: bool)
      requires spec.controllerEndpoints != spec.endpoints
      modifies this, spec, spec.controllerEndpoints, spec.endpoints
      ensures Objects(services, deployments)
           == ReconciledObjects(Objects(old(services), old(deployments)), spec.name, spec.replicas, spec.endpoints[..])
      ensures spec.baseDomain != "" ==> AllTyped(spec.endpoints[..])
      ensures forall wasR, wasE | IsRectangle(old(services), spec.name, wasR, wasE) && (wasR > 0 ==> wasE > 0)
                && spec.baseDomain != "" && WithinBounds(wasR, wasE, spec.replicas, spec.endpoints.Length) ::
                IsRectangle(services, spec.name, spec.replicas, spec.endpoints.Length)
      ensures old(deployments) <= DeploymentNames(spec.name, 0, REPLICA_BOUND) ==>
                deployments == DeploymentNames(spec.name, 0, spec.replicas)
    {
      spec.ApplyEndpointDefaults(routeAvailable, ingressAvailable);
      if spec.baseDomain != "" {
        DefaultedTyped(old(spec.endpoints[..]), "router-$(replica)." + spec.baseDomain, routeAvailable,
          ingressAvailable);
      }
      ReconcileRouterDeployment(spec);
      ReconcileServices(spec);
      if old(deployments) <= DeploymentNames(spec.name, 0, REPLICA_BOUND) {
        DeploymentsConverge(old(deployments), spec.name, spec.replicas);
      }
      ghost var eps := spec.endpoints[..];
      forall wasR, wasE | IsRectangle(old(services), spec.name, wasR, wasE) && (wasR > 0 ==> wasE > 0)
                && spec.baseDomain != "" && WithinBounds(wasR, wasE, spec.replicas, spec.endpoints.Length)
        ensures IsRectangle(services, spec.name, spec.replicas, spec.endpoints.Length)
      {
        ConvergesIffWithinBounds(old(services), spec.name, wasR, wasE, spec.replicas, eps);
      }
    }
  }

  function DeploymentNames(instance: string, lo: nat, hi: nat): set<string> {
    set i | lo <= i < hi :: RouterName(instance, i)
  }

  predicate Excess(name: string, instance: string, replicas: nat) {
    exists i | replicas <= i < REPLICA_BOUND :: name == RouterName(instance, i)
  }

  function KeptDeployments(ds: set<string>, instance: string, replicas: nat): set<string> {
    set d | d in ds && !Excess(d, instance, replicas)
  }

  /** The objects of a namespace that the operator keeps for its routers. */
  datatype Objects = Objects(services: Services, deployments: set<string>)

  /** The objects after one reconcile without error. */
  function ReconciledObjects(o: Objects, instance: string, replicas: nat, eps: seq<Endpoint>): Objects {
    Objects(Reconciled(o.services, instance, replicas, eps),
            KeptDeployments(o.deployments + DeploymentNames(instance, 0, replicas), instance, replicas))
  }

  // ---------------------------------------------------------------- what creation adds

  predicate Has(s: Services, instance: string, slot: Slot) {
    Name(instance, slot) in s
  }

  predicate Desired(slot: Slot, replicas: nat, eps: seq<Endpoint>) {
    slot.replica < replicas && slot.endpoint < |eps| && Wants(eps[slot.endpoint], slot.kind)
  }

  /** The service of this slot selects the pods of its replica. */
  predicate Selects(s: Services, instance: string, slot: Slot) {
    Has(s, instance, slot) && s[Name(instance, slot)] == Service(slot.kind, RouterName(instance, slot.replica))
  }

  lemma CreateOneExact(s: Services, instance: string, made: Slot, ep: Endpoint, slot: Slot)
    ensures var t := CreateOne(s, instance, made, ep);
            && (Has(t, instance, slot) <==> Has(s, instance, slot) || (slot == made && Wants(ep, made.kind)))
            && (slot == made && Wants(ep, made.kind) ==> Selects(t, instance, slot))
            && (slot != made ==> (Selects(t, instance, slot) <==> Selects(s, instance, slot)))
            && (Selects(s, instance, slot) ==> Selects(t, instance, slot))
  {
    NameInjective(instance, made, slot);
  }

  lemma CreateEndpointExact(s: Services, instance: string, replica: nat, endpoint: nat, ep: Endpoint, slot: Slot)
    ensures var t := CreateEndpoint(s, instance, replica, endpoint, ep);
            var made := slot.replica == replica && slot.endpoint == endpoint && Wants(ep, slot.kind);
            && (Has(t, instance, slot) <==> Has(s, instance, slot) || made)
            && (made || Selects(s, instance, slot) ==> Selects(t, instance, slot))
  {
    var one := CreateOne(s, instance, Slot(replica, endpoint, LoadBalancer), ep);
    var two := CreateOne(one, instance, Slot(replica, endpoint, NodePort), ep);
    CreateOneExact(s, instance, Slot(replica, endpoint, LoadBalancer), ep, slot);
    CreateOneExact(one, instance, Slot(replica, endpoint, NodePort), ep, slot);
    CreateOneExact(two, instance, Slot(replica, endpoint, ClusterIP), ep, slot);
  }

  lemma {:induction false} CreateReplicaExact(s: Services, instance: string, replica: nat, eps: seq<Endpoint>,
                                              slot: Slot)
    ensures var t := CreateReplica(s, instance, replica, eps);
            var made := slot.replica == replica && slot.endpoint < |eps| && Wants(eps[slot.endpoint], slot.kind);
            && (Has(t, instance, slot) <==> Has(s, instance, slot) || made)
            && (made || Selects(s, instance, slot) ==> Selects(t, instance, slot))
  {
    if eps != [] {
      var n := |eps| - 1;
      CreateReplicaExact(s, instance, replica, eps[..n], slot);
      CreateEndpointExact(CreateReplica(s, instance, replica, eps[..n]), instance, replica, n, eps[n], slot);
    }
  }

  /** Creation adds exactly the wanted services, each selecting the pods of its own replica. */
  lemma {:induction false} CreateExact(s: Services, instance: string, replicas: nat, eps: seq<Endpoint>, slot: Slot)
    ensures var t := CreateReplicas(s, instance, replicas, eps);
            && (Has(t, instance, slot) <==> Has(s, instance, slot) || Desired(slot, replicas, eps))
            && (Desired(slot, replicas, eps) || Selects(s, instance, slot) ==> Selects(t, instance, slot))
  {
    if replicas > 0 {
      CreateExact(s, instance, replicas - 1, eps, slot);
      CreateReplicaExact(CreateReplicas(s, instance, replicas - 1, eps), instance, replicas - 1, eps, slot);
    }
  }

  // ---------------------------------------------------------------- what the sweeps remove

  /** A pair owns a service of some type. */
  predicate Owns(s: Services, instance: string, replica: nat, endpoint: nat) {
    || Has(s, instance, Slot(replica, endpoint, ClusterIP))
    || Has(s, instance, Slot(replica, endpoint, LoadBalancer))
    || Has(s, instance, Slot(replica, endpoint, NodePort))
  }

  /** The replica owns a service the sweep would look for. */
  predicate Occupied(s: Services, instance: string, replica: nat) {
    exists e: nat | e < ENDPOINT_BOUND :: Owns(s, instance, replica, e)
  }

  lemma KindNamesExact(instance: string, replica: nat, endpoint: nat, slot: Slot)
    ensures Name(instance, slot) in KindNames(instance, replica, endpoint, |KINDS|)
       <==> slot.replica == replica && slot.endpoint == endpoint
  {
    forall k | 0 <= k < |KINDS|
      ensures Name(instance, slot) == Name(instance, Slot(replica, endpoint, KINDS[k]))
         <==> slot == Slot(replica, endpoint, KINDS[k])
    {
      NameInjective(instance, slot, Slot(replica, endpoint, KINDS[k]));
    }
    assert KINDS[0] == ClusterIP && KINDS[1] == LoadBalancer && KINDS[2] == NodePort;
    if slot.replica == replica && slot.endpoint == endpoint {
      var k := match slot.kind case ClusterIP => 0 case LoadBalancer => 1 case NodePort => 2;
      assert slot == Slot(replica, endpoint, KINDS[k]);
    }
  }

  lemma {:induction false} ReplicaNamesExact(instance: string, replica: nat, n: nat, slot: Slot)
    ensures Name(instance, slot) in ReplicaNames(instance, replica, n) <==> slot.replica == replica && slot.endpoint < n
  {
    if n > 0 {
      ReplicaNamesExact(instance, replica, n - 1, slot);
      KindNamesExact(instance, replica, n - 1, slot);
    }
  }

  lemma OwnsIsNames(s: Services, instance: string, replica: nat, endpoint: nat)
    ensures s.Keys !! KindNames(instance, replica, endpoint, |KINDS|) <==> !Owns(s, instance, replica, endpoint)
  {
    var names := KindNames(instance, replica, endpoint, |KINDS|);
    assert KINDS[0] == ClusterIP && KINDS[1] == LoadBalancer && KINDS[2] == NodePort;
    forall kind ensures Name(instance, Slot(replica, endpoint, kind)) in names {
      KindNamesExact(instance, replica, endpoint, Slot(replica, endpoint, kind));
    }
    if !(s.Keys !! names) {
      var name :| name in s.Keys && name in names;
      var k :| 0 <= k < |KINDS| && name == Name(instance, Slot(replica, endpoint, KINDS[k]));
      assert Has(s, instance, Slot(replica, endpoint, KINDS[k]));
    }
  }

  lemma {:induction false} OwnsUpTo(s: Services, instance: string, replica: nat, n: nat)
    ensures s.Keys !! ReplicaNames(instance, replica, n) <==> forall e: nat | e < n :: !Owns(s, instance, replica, e)
  {
    if n > 0 {
      OwnsUpTo(s, instance, replica, n - 1);
      OwnsIsNames(s, instance, replica, n - 1);
      assert (forall e: nat | e < n :: !Owns(s, instance, replica, e))
        <==> (forall e: nat | e < n - 1 :: !Owns(s, instance, replica, e)) && !Owns(s, instance, replica, n - 1);
    }
  }

  lemma WithoutReplica(s: Services, instance: string, replica: nat, slot: Slot)
    ensures Has(s - ReplicaNames(instance, replica, ENDPOINT_BOUND), instance, slot)
       <==> Has(s, instance, slot) && !(slot.replica == replica && slot.endpoint < ENDPOINT_BOUND)
  {
    ReplicaNamesExact(instance, replica, ENDPOINT_BOUND, slot);
  }

  /** The sweep of replicas takes everything up to the first replica that owns nothing, and nothing
      from there on. */
  lemma {:induction false} SweepReplicasGap(s: Services, instance: string, replica: nat) returns (gap: nat)
    ensures replica <= gap && (gap <= REPLICA_BOUND || gap == replica)
    ensures forall i | replica <= i < gap :: Occupied(s, instance, i)
    ensures gap < REPLICA_BOUND ==> !Occupied(s, instance, gap)
    ensures forall slot :: Has(SweepReplicas(s, instance, replica), instance, slot) <==>
              Has(s, instance, slot) && !(replica <= slot.replica < gap && slot.endpoint < ENDPOINT_BOUND)
    decreases REPLICA_BOUND - replica
  {
    gap := replica;
    if replica < REPLICA_BOUND {
      OwnsUpTo(s, instance, replica, ENDPOINT_BOUND);
      if Occupied(s, instance, replica) {
        var t := s - ReplicaNames(instance, replica, ENDPOINT_BOUND);
        gap := SweepReplicasGap(t, instance, replica + 1);
        forall slot
          ensures Has(t, instance, slot)
             <==> Has(s, instance, slot) && !(slot.replica == replica && slot.endpoint < ENDPOINT_BOUND)
        {
          WithoutReplica(s, instance, replica, slot);
        }
        forall i: nat | i > replica ensures Occupied(t, instance, i) <==> Occupied(s, instance, i) {
          assert forall e: nat :: Owns(t, instance, i, e) <==> Owns(s, instance, i, e);
        }
      }
    }
  }

  lemma {:induction false} SweepEndpointsGap(s: Services, instance: string, replica: nat, endpoint: nat)
      returns (gap: nat)
    ensures endpoint <= gap && (gap <= ENDPOINT_BOUND || gap == endpoint)
    ensures forall e | endpoint <= e < gap :: Owns(s, instance, replica, e)
    ensures gap < ENDPOINT_BOUND ==> !Owns(s, instance, replica, gap)
    ensures forall slot :: Has(SweepEndpoints(s, instance, replica, endpoint), instance, slot) <==>
              Has(s, instance, slot) && !(slot.replica == replica && endpoint <= slot.endpoint < gap)
    decreases ENDPOINT_BOUND - endpoint
  {
    gap := endpoint;
    if endpoint < ENDPOINT_BOUND {
      OwnsIsNames(s, instance, replica, endpoint);
      if Owns(s, instance, replica, endpoint) {
        var t := s - KindNames(instance, replica, endpoint, |KINDS|);
        gap := SweepEndpointsGap(t, instance, replica, endpoint + 1);
        forall slot
          ensures Has(t, instance, slot)
             <==> Has(s, instance, slot) && !(slot.replica == replica && slot.endpoint == endpoint)
        {
          KindNamesExact(instance, replica, endpoint, slot);
        }
        assert forall e: nat | e > endpoint :: Owns(t, instance, replica, e) <==> Owns(s, instance, replica, e);
      }
    }
  }

  /** The early stop is exact: the sweep leaves no service behind below its bounds exactly when the
      excess replicas that own services have no gap before them. */
  lemma SweepCompleteIffContiguous(s: Services, instance: string, replica: nat)
    ensures (forall i | replica <= i < REPLICA_BOUND :: !Occupied(SweepReplicas(s, instance, replica), instance, i))
       <==> (forall i, j | replica <= i < j < REPLICA_BOUND && Occupied(s, instance, j) :: Occupied(s, instance, i))
  {
    var t := SweepReplicas(s, instance, replica);
    var gap := SweepReplicasGap(s, instance, replica);
    forall i | replica <= i < REPLICA_BOUND ensures Occupied(t, instance, i) <==> gap <= i && Occupied(s, instance, i) {
      assert forall e: nat | e < ENDPOINT_BOUND :: Owns(t, instance, i, e) <==> gap <= i && Owns(s, instance, i, e);
    }
    if gap < REPLICA_BOUND {
      assert !Occupied(s, instance, gap);
    }
  }

  // ---------------------------------------------------------------- the rectangle

  /** The pairs that own a service are exactly the first `replicas` by the first `endpoints`. */
  ghost predicate IsRectangle(s: Services, instance: string, replicas: nat, endpoints: nat) {
    forall i: nat, e: nat :: Owns(s, instance, i, e) <==> i < replicas && e < endpoints
  }

  predicate AllTyped(eps: seq<Endpoint>) {
    eps != [] && forall i | 0 <= i < |eps| :: HasType(eps[i])
  }

  /** What a reconcile cannot reach of a former rectangle: replicas or endpoints beyond its bounds. */
  predicate Leftover(wasReplicas: nat, wasEndpoints: nat, replicas: nat, endpoints: nat, i: nat, e: nat) {
    && i < wasReplicas && e < wasEndpoints
    && if i >= replicas then i >= REPLICA_BOUND || e >= ENDPOINT_BOUND
       else e >= endpoints && e >= ENDPOINT_BOUND
  }

  lemma CreatedOwns(s: Services, instance: string, replicas: nat, eps: seq<Endpoint>, i: nat, e: nat)
    requires AllTyped(eps)
    ensures Owns(CreateReplicas(s, instance, replicas, eps), instance, i, e)
       <==> Owns(s, instance, i, e) || (i < replicas && e < |eps|)
  {
    CreateExact(s, instance, replicas, eps, Slot(i, e, ClusterIP));
    CreateExact(s, instance, replicas, eps, Slot(i, e, LoadBalancer));
    CreateExact(s, instance, replicas, eps, Slot(i, e, NodePort));
  }

  /** The endpoint sweeps of the valid replicas, when each of them owns a stretch of endpoints. */
  lemma {:induction false} SweepValidExact(s: Services, instance: string, replica: nat, replicas: nat, endpoints: nat,
                                           wasReplicas: nat, wasEndpoints: nat, i: nat, e: nat)
    requires forall r: nat, f: nat | replica <= r < replicas && f >= endpoints ::
               Owns(s, instance, r, f) <==> r < wasReplicas && f < wasEndpoints
    ensures Owns(SweepValidReplicas(s, instance, replica, replicas, endpoints), instance, i, e)
       <==> Owns(s, instance, i, e) && !(replica <= i < replicas && endpoints <= e < ENDPOINT_BOUND)
    decreases replicas - replica
  {
    if replica < replicas {
      var t := SweepEndpoints(s, instance, replica, endpoints);
      var gap := SweepEndpointsGap(s, instance, replica, endpoints);
      forall r: nat, f: nat
        ensures Owns(t, instance, r, f)
           <==> Owns(s, instance, r, f) && !(r == replica && endpoints <= f < ENDPOINT_BOUND)
      {
        assert Owns(t, instance, r, f) <==> Owns(s, instance, r, f) && !(r == replica && endpoints <= f < gap);
        if r == replica && gap <= f < ENDPOINT_BOUND && endpoints <= f {
          assert !Owns(s, instance, replica, gap);
        }
      }
      SweepValidExact(t, instance, replica + 1, replicas, endpoints, wasReplicas, wasEndpoints, i, e);
    }
  }

  /** One reconcile, exactly: starting from a rectangle, the pairs that own a service afterwards are
      the wanted rectangle and what lies beyond the bounds of the sweeps. */
  lemma ReconciledExact(s: Services, instance: string, wasReplicas: nat, wasEndpoints: nat, replicas: nat,
                        eps: seq<Endpoint>, i: nat, e: nat)
    requires IsRectangle(s, instance, wasReplicas, wasEndpoints) && AllTyped(eps)
    requires wasReplicas > 0 ==> wasEndpoints > 0
    ensures Owns(Reconciled(s, instance, replicas, eps), instance, i, e)
       <==> (i < replicas && e < |eps|) || Leftover(wasReplicas, wasEndpoints, replicas, |eps|, i, e)
  {
    var created := CreateReplicas(s, instance, replicas, eps);
    forall r: nat, f: nat
      ensures Owns(created, instance, r, f) <==> (r < wasReplicas && f < wasEndpoints) || (r < replicas && f < |eps|)
    {
      CreatedOwns(s, instance, replicas, eps, r, f);
    }
    var swept := SweepReplicas(created, instance, replicas);
    var gap := SweepReplicasGap(created, instance, replicas);
    forall r | r >= replicas ensures Occupied(created, instance, r) <==> r < wasReplicas {
      if r < wasReplicas {
        assert Owns(created, instance, r, 0);
      }
    }
    forall r: nat, f: nat
      ensures Owns(swept, instance, r, f)
         <==> Owns(created, instance, r, f) && !(replicas <= r < REPLICA_BOUND && f < ENDPOINT_BOUND)
    {
      assert Owns(swept, instance, r, f)
        <==> Owns(created, instance, r, f) && !(replicas <= r < gap && f < ENDPOINT_BOUND);
      if gap < REPLICA_BOUND {
        assert !Occupied(created, instance, gap);
      }
    }
    SweepValidExact(swept, instance, 0, replicas, |eps|, wasReplicas, wasEndpoints, i, e);
  }

  /** Nothing lies beyond the bounds. */
  predicate WithinBounds(wasReplicas: nat, wasEndpoints: nat, replicas: nat, endpoints: nat) {
    && (wasReplicas <= replicas || (wasReplicas <= REPLICA_BOUND && wasEndpoints <= ENDPOINT_BOUND))
    && (wasEndpoints <= endpoints || wasEndpoints <= ENDPOINT_BOUND || wasReplicas == 0 || replicas == 0)
  }

  /** The exact condition for convergence in one reconcile: the wanted rectangle results if and only if
      what has to go lies below a hundred replicas and ten endpoints. */
  lemma ConvergesIffWithinBounds(s: Services, instance: string, wasReplicas: nat, wasEndpoints: nat, replicas: nat,
                                 eps: seq<Endpoint>)
    requires IsRectangle(s, instance, wasReplicas, wasEndpoints) && AllTyped(eps)
    requires wasReplicas > 0 ==> wasEndpoints > 0
    ensures IsRectangle(Reconciled(s, instance, replicas, eps), instance, replicas, |eps|)
       <==> WithinBounds(wasReplicas, wasEndpoints, replicas, |eps|)
  {
    var t := Reconciled(s, instance, replicas, eps);
    forall i: nat, e: nat
      ensures Owns(t, instance, i, e)
         <==> (i < replicas && e < |eps|) || Leftover(wasReplicas, wasEndpoints, replicas, |eps|, i, e)
    {
      ReconciledExact(s, instance, wasReplicas, wasEndpoints, replicas, eps, i, e);
    }
    if !WithinBounds(wasReplicas, wasEndpoints, replicas, |eps|) {
      // A pair that the sweeps leave behind.
      var i: nat :=
        if wasReplicas > replicas && (wasReplicas > REPLICA_BOUND || wasEndpoints > ENDPOINT_BOUND)
            then wasReplicas - 1 else 0;
      var e: nat := wasEndpoints - 1;
      assert Leftover(wasReplicas, wasEndpoints, replicas, |eps|, i, e);
    }
  }

  // ---------------------------------------------------------------- whole runs

  /** A specification the operator reconciles, after the endpoint defaults. */
  datatype Wanted = Wanted(replicas: nat, eps: seq<Endpoint>)

  predicate Reasonable(w: Wanted) {
    w.replicas <= REPLICA_BOUND && |w.eps| <= ENDPOINT_BOUND && AllTyped(w.eps)
  }

  /** The objects after reconciling one specification after the other, from an empty namespace. */
  function AfterAll(instance: string, ws: seq<Wanted>): Objects {
    if ws == [] then Objects(map[], {})
    else ReconciledObjects(AfterAll(instance, ws[..|ws| - 1]), instance, ws[|ws| - 1].replicas, ws[|ws| - 1].eps)
  }

  /** Convergence over every run: however the specification grew and shrank before, after each
      reconcile without error the pairs that own a service are exactly those wanted last, and the deployments
      are exactly those of the replicas wanted last. */
  lemma {:induction false} RunConverges(instance: string, ws: seq<Wanted>)
    requires ws != [] && forall i | 0 <= i < |ws| :: Reasonable(ws[i])
    ensures IsRectangle(AfterAll(instance, ws).services, instance, ws[|ws| - 1].replicas, |ws[|ws| - 1].eps|)
    ensures AfterAll(instance, ws).deployments == DeploymentNames(instance, 0, ws[|ws| - 1].replicas)
  {
    var n := |ws| - 1;
    var last := ws[n];
    var before := AfterAll(instance, ws[..n]);
    if n == 0 {
      assert before == Objects(map[], {});
      ConvergesIffWithinBounds(map[], instance, 0, 0, last.replicas, last.eps);
    } else {
      RunConverges(instance, ws[..n]);
      assert ws[..n][n - 1] == ws[n - 1] && Reasonable(ws[n - 1]);
      ConvergesIffWithinBounds(before.services, instance, ws[n - 1].replicas, |ws[n - 1].eps|, last.replicas, last.eps);
    }
    DeploymentsConverge(before.deployments, instance, last.replicas);
  }

  lemma {:induction false} SweepReplicasSubset(s: Services, instance: string, replica: nat)
    ensures SweepReplicas(s, instance, replica).Keys <= s.Keys
    ensures forall n :: n in SweepReplicas(s, instance, replica) ==> SweepReplicas(s, instance, replica)[n] == s[n]
    decreases REPLICA_BOUND - replica
  {
    if replica < REPLICA_BOUND {
      SweepReplicasSubset(s - ReplicaNames(instance, replica, ENDPOINT_BOUND), instance, replica + 1);
    }
  }

  lemma {:induction false} SweepEndpointsSubset(s: Services, instance: string, replica: nat, endpoint: nat)
    ensures SweepEndpoints(s, instance, replica, endpoint).Keys <= s.Keys
    ensures forall n :: n in SweepEndpoints(s, instance, replica, endpoint) ==>
              SweepEndpoints(s, instance, replica, endpoint)[n] == s[n]
    decreases ENDPOINT_BOUND - endpoint
  {
    if endpoint < ENDPOINT_BOUND {
      SweepEndpointsSubset(s - KindNames(instance, replica, endpoint, |KINDS|), instance, replica, endpoint + 1);
    }
  }

  /** The endpoint sweeps touch no slot of the wanted rectangle. */
  lemma {:induction false} SweepValidKeeps(s: Services, instance: string, replica: nat, replicas: nat, endpoints: nat,
                                           slot: Slot)
    requires slot.endpoint < endpoints
    ensures var t := SweepValidReplicas(s, instance, replica, replicas, endpoints);
            && (Has(t, instance, slot) <==> Has(s, instance, slot))
            && (Has(t, instance, slot) ==> t[Name(instance, slot)] == s[Name(instance, slot)])
    decreases replicas - replica
  {
    if replica < replicas {
      var t := SweepEndpoints(s, instance, replica, endpoints);
      var gap := SweepEndpointsGap(s, instance, replica, endpoints);
      SweepEndpointsSubset(s, instance, replica, endpoints);
      assert Has(t, instance, slot) <==> Has(s, instance, slot);
      SweepValidKeeps(t, instance, replica + 1, replicas, endpoints, slot);
    }
  }

  /** Live services are never deleted, whatever was there before: every wanted service is there after
      the reconcile and selects the pods of its own replica, and of the wanted pairs no service that
      existed is lost. */
  lemma LiveServicesSurvive(s: Services, instance: string, replicas: nat, eps: seq<Endpoint>, slot: Slot)
    requires slot.replica < replicas && slot.endpoint < |eps|
    ensures var t := Reconciled(s, instance, replicas, eps);
            && (Has(t, instance, slot) <==> Has(s, instance, slot) || Wants(eps[slot.endpoint], slot.kind))
            && (Wants(eps[slot.endpoint], slot.kind) ==> Selects(t, instance, slot))
  {
    var created := CreateReplicas(s, instance, replicas, eps);
    CreateExact(s, instance, replicas, eps, slot);
    var swept := SweepReplicas(created, instance, replicas);
    var gap := SweepReplicasGap(created, instance, replicas);
    SweepReplicasSubset(created, instance, replicas);
    assert Has(swept, instance, slot) <==> Has(created, instance, slot);
    SweepValidKeeps(swept, instance, 0, replicas, |eps|, slot);
  }

  /** Without endpoints nothing is created, although a default endpoint is reconciled for each replica. */
  lemma {:induction false} NoEndpointsNoServices(s: Services, instance: string, replicas: nat)
    ensures CreateReplicas(s, instance, replicas, []) == s
  {
    if replicas > 0 {
      NoEndpointsNoServices(s, instance, replicas - 1);
    }
  }

  /** The services of a replica beyond a swept one: out of reach of every later sweep. */
  predicate Stranded(s: Services, instance: string, replicas: nat, beyond: nat) {
    beyond > replicas && !Occupied(s, instance, replicas) && Owns(s, instance, beyond, 0)
  }

  lemma {:induction false} SweepValidSparesOthers(s: Services, instance: string, replica: nat, replicas: nat,
                                                  endpoints: nat, slot: Slot)
    requires slot.replica >= replicas
    ensures Has(SweepValidReplicas(s, instance, replica, replicas, endpoints), instance, slot)
       <==> Has(s, instance, slot)
    decreases replicas - replica
  {
    if replica < replicas {
      var gap := SweepEndpointsGap(s, instance, replica, endpoints);
      SweepValidSparesOthers(SweepEndpoints(s, instance, replica, endpoints), instance, replica + 1, replicas,
        endpoints, slot);
    }
  }

  /** What a reconcile does to the slots of replicas that are not wanted, when the first of these is empty:
      nothing. */
  lemma SparesBeyondGap(s: Services, instance: string, replicas: nat, eps: seq<Endpoint>, slot: Slot)
    requires !Occupied(s, instance, replicas) && slot.replica >= replicas
    ensures Has(Reconciled(s, instance, replicas, eps), instance, slot) <==> Has(s, instance, slot)
  {
    var created := CreateReplicas(s, instance, replicas, eps);
    forall other: Slot | other.replica >= replicas ensures Has(created, instance, other) <==> Has(s, instance, other) {
      CreateExact(s, instance, replicas, eps, other);
    }
    assert !Occupied(created, instance, replicas) by {
      forall e: nat | e < ENDPOINT_BOUND ensures !Owns(created, instance, replicas, e) {
        assert !Owns(s, instance, replicas, e);
        assert forall kind :: Has(created, instance, Slot(replicas, e, kind))
                <==> Has(s, instance, Slot(replicas, e, kind));
      }
    }
    var gap := SweepReplicasGap(created, instance, replicas);
    var swept := SweepReplicas(created, instance, replicas);
    SweepValidSparesOthers(swept, instance, 0, replicas, EndpointCount(eps), slot);
  }

  /** Stranded services stay stranded, however often the same number of replicas is reconciled. */
  lemma StrandedForGood(s: Services, instance: string, replicas: nat, eps: seq<Endpoint>, beyond: nat)
    requires Stranded(s, instance, replicas, beyond)
    ensures Stranded(Reconciled(s, instance, replicas, eps), instance, replicas, beyond)
  {
    var t := Reconciled(s, instance, replicas, eps);
    forall i: nat, e: nat | i >= replicas ensures Owns(t, instance, i, e) <==> Owns(s, instance, i, e) {
      forall kind ensures Has(t, instance, Slot(i, e, kind)) <==> Has(s, instance, Slot(i, e, kind)) {
        SparesBeyondGap(s, instance, replicas, eps, Slot(i, e, kind));
      }
    }
  }

  /** An interrupted reconcile can leave services no later one removes: scale down from at least two more
      replicas, let the sweep stop after the first excess replica, and those of the next are stranded. */
  lemma InterruptedSweepLeaks(s: Services, instance: string, wasReplicas: nat, wasEndpoints: nat, replicas: nat,
                              eps: seq<Endpoint>)
    requires IsRectangle(s, instance, wasReplicas, wasEndpoints) && wasEndpoints > 0 && wasReplicas >= replicas + 2
    ensures var created := CreateReplicas(s, instance, replicas, eps);
            var interrupted := created - ReplicaNames(instance, replicas, ENDPOINT_BOUND);
            Stranded(interrupted, instance, replicas, replicas + 1)
  {
    var created := CreateReplicas(s, instance, replicas, eps);
    var interrupted := created - ReplicaNames(instance, replicas, ENDPOINT_BOUND);
    forall i: nat, e: nat | i >= replicas && e < ENDPOINT_BOUND
      ensures Owns(interrupted, instance, i, e) <==> i > replicas && Owns(s, instance, i, e)
    {
      forall kind
        ensures Has(interrupted, instance, Slot(i, e, kind)) <==> i > replicas && Has(s, instance, Slot(i, e, kind))
      {
        CreateExact(s, instance, replicas, eps, Slot(i, e, kind));
        WithoutReplica(created, instance, replicas, Slot(i, e, kind));
      }
    }
    assert Owns(s, instance, replicas + 1, 0);
  }

  // ---------------------------------------------------------------- services by type

  /** The service of this name is there with this type if it is wanted, and as it was before if not. */
  predicate Updated(before: Services, after: Services, name: string, kind: Kind, wanted: bool) {
    if wanted then name in after && after[name].kind == kind
    else (name in after <==> name in before) && (name in after ==> after[name] == before[name])
  }

  /** The name of the services of one endpoint of one replica, without the suffix of the type. */
  function BaseName(instance: string, replica: nat, endpoint: nat): string {
    if endpoint == 0 then instance + "-router-" + Decimal(replica)
    else instance + "-router-" + Decimal(replica) + "-" + Decimal(endpoint)
  }

  lemma NamesByType(instance: string, replica: nat, endpoint: nat)
    ensures Name(instance, Slot(replica, endpoint, ClusterIP)) == BaseName(instance, replica, endpoint)
    ensures Name(instance, Slot(replica, endpoint, LoadBalancer)) == BaseName(instance, replica, endpoint) + "-lb"
    ensures Name(instance, Slot(replica, endpoint, NodePort)) == BaseName(instance, replica, endpoint) + "-np"
    ensures ServiceName(instance, replica, endpoint) == BaseName(instance, replica, endpoint)
  {
    var base := ServiceName(instance, replica, endpoint);
    assert base + "" == base;
  }

  lemma CreateEndpointByType(s: Services, instance: string, replica: nat, endpoint: nat, ep: Endpoint)
    ensures var t, base := CreateEndpoint(s, instance, replica, endpoint, ep), ServiceName(instance, replica, endpoint);
            && Updated(s, t, base + "-lb", LoadBalancer, ep.loadBalancer)
            && Updated(s, t, base + "-np", NodePort, ep.nodePort)
            && Updated(s, t, base, ClusterIP, ep.clusterIP || ep.ingress || ep.route)
  {
    NamesByType(instance, replica, endpoint);
    var lb, np, ip := Slot(replica, endpoint, LoadBalancer), Slot(replica, endpoint, NodePort),
      Slot(replica, endpoint, ClusterIP);
    NameInjective(instance, lb, np);
    NameInjective(instance, lb, ip);
    NameInjective(instance, np, ip);
  }

  /** After a reconcile of any namespace, each wanted endpoint of each wanted replica has a load balancer service with
      suffix `-lb`, a node port service with suffix `-np` and a cluster service without suffix exactly as it
      enables them; a service of a type it does not enable is left as it was. */
  lemma ServicesByType(s: Services, instance: string, replicas: nat, eps: seq<Endpoint>, i: nat, e: nat)
    requires i < replicas && e < |eps|
    ensures var t, base, ep := Reconciled(s, instance, replicas, eps), BaseName(instance, i, e), eps[e];
            && Made(s, t, base + "-lb", LoadBalancer, ep.loadBalancer)
            && Made(s, t, base + "-np", NodePort, ep.nodePort)
            && Made(s, t, base, ClusterIP, ep.clusterIP || ep.ingress || ep.route)
  {
    NamesByType(instance, i, e);
    LiveServicesSurvive(s, instance, replicas, eps, Slot(i, e, LoadBalancer));
    LiveServicesSurvive(s, instance, replicas, eps, Slot(i, e, NodePort));
    LiveServicesSurvive(s, instance, replicas, eps, Slot(i, e, ClusterIP));
  }

  /** The service of this name is there if it is wanted or was there, and of this type if it is wanted. */
  predicate Made(before: Services, after: Services, name: string, kind: Kind, wanted: bool) {
    (name in after <==> name in before || wanted) && (wanted ==> after[name].kind == kind)
  }

  /** From an empty namespace the services of a wanted endpoint are exactly those of the types it enables. */
  lemma ServicesFromNothing(instance: string, replicas: nat, eps: seq<Endpoint>, i: nat, e: nat)
    requires i < replicas && e < |eps|
    ensures var t, base, ep := Reconciled(map[], instance, replicas, eps), BaseName(instance, i, e), eps[e];
            && (base + "-lb" in t && t[base + "-lb"].kind == LoadBalancer <==> ep.loadBalancer)
            && (base + "-np" in t && t[base + "-np"].kind == NodePort <==> ep.nodePort)
            && (base in t && t[base].kind == ClusterIP <==> ep.clusterIP || ep.ingress || ep.route)
  {
    ServicesByType(map[], instance, replicas, eps, i, e);
  }

  /** Over every run the services that the last specification wants are there with their types. */
  lemma RunServicesByType(instance: string, ws: seq<Wanted>, i: nat, e: nat)
    requires ws != [] && i < ws[|ws| - 1].replicas && e < |ws[|ws| - 1].eps|
    ensures var t, base, ep := AfterAll(instance, ws).services, BaseName(instance, i, e), ws[|ws| - 1].eps[e];
            && (ep.loadBalancer ==> base + "-lb" in t && t[base + "-lb"].kind == LoadBalancer)
            && (ep.nodePort ==> base + "-np" in t && t[base + "-np"].kind == NodePort)
            && (ep.clusterIP || ep.ingress || ep.route ==> base in t && t[base].kind == ClusterIP)
  {
    var before, last := AfterAll(instance, ws[..|ws| - 1]), ws[|ws| - 1];
    ServicesByType(before.services, instance, last.replicas, last.eps, i, e);
  }

  /** The reach of the sweeps in numbers: a hundred replicas of ten endpoints can be scaled down to anything, a
      hundred and one replicas or eleven endpoints cannot. */
  lemma ReachOfSweeps(s: Services, instance: string, wasReplicas: nat, wasEndpoints: nat, replicas: nat,
                      eps: seq<Endpoint>)
    requires IsRectangle(s, instance, wasReplicas, wasEndpoints) && AllTyped(eps) && wasEndpoints > 0
    requires 0 < replicas < wasReplicas && |eps| < wasEndpoints
    ensures IsRectangle(Reconciled(s, instance, replicas, eps), instance, replicas, |eps|)
       <==> wasReplicas <= 100 && wasEndpoints <= 10
  {
    ConvergesIffWithinBounds(s, instance, wasReplicas, wasEndpoints, replicas, eps);
  }

  // ---------------------------------------------------------------- other instances

  /** No service of the instance has this name. */
  ghost predicate Foreign(instance: string, name: string) {
    forall slot: Slot :: name != Name(instance, slot)
  }

  predicate SameAt(s: Services, t: Services, name: string) {
    (name in s <==> name in t) && (name in s ==> s[name] == t[name])
  }

  lemma {:induction false} CreateReplicaForeign(s: Services, instance: string, replica: nat, eps: seq<Endpoint>,
                                                name: string)
    requires Foreign(instance, name)
    ensures SameAt(s, CreateReplica(s, instance, replica, eps), name)
  {
    if eps != [] {
      CreateReplicaForeign(s, instance, replica, eps[..|eps| - 1], name);
    }
  }

  lemma {:induction false} CreateForeign(s: Services, instance: string, replicas: nat, eps: seq<Endpoint>, name: string)
    requires Foreign(instance, name)
    ensures SameAt(s, CreateReplicas(s, instance, replicas, eps), name)
  {
    if replicas > 0 {
      CreateForeign(s, instance, replicas - 1, eps, name);
      CreateReplicaForeign(CreateReplicas(s, instance, replicas - 1, eps), instance, replicas - 1, eps, name);
    }
  }

  lemma {:induction false} ReplicaNamesForeign(instance: string, replica: nat, n: nat, name: string)
    requires Foreign(instance, name)
    ensures name !in ReplicaNames(instance, replica, n)
  {
    if n > 0 {
      ReplicaNamesForeign(instance, replica, n - 1, name);
    }
  }

  lemma {:induction false} SweepReplicasForeign(s: Services, instance: string, replica: nat, name: string)
    requires Foreign(instance, name)
    ensures SameAt(s, SweepReplicas(s, instance, replica), name)
    decreases REPLICA_BOUND - replica
  {
    if replica < REPLICA_BOUND {
      ReplicaNamesForeign(instance, replica, ENDPOINT_BOUND, name);
      SweepReplicasForeign(s - ReplicaNames(instance, replica, ENDPOINT_BOUND), instance, replica + 1, name);
    }
  }

  lemma {:induction false} SweepEndpointsForeign(s: Services, instance: string, replica: nat, endpoint: nat,
                                                 name: string)
    requires Foreign(instance, name)
    ensures SameAt(s, SweepEndpoints(s, instance, replica, endpoint), name)
    decreases ENDPOINT_BOUND - endpoint
  {
    if endpoint < ENDPOINT_BOUND {
      SweepEndpointsForeign(s - KindNames(instance, replica, endpoint, |KINDS|), instance, replica, endpoint + 1, name);
    }
  }

  lemma {:induction false} SweepValidForeign(s: Services, instance: string, replica: nat, replicas: nat, endpoints: nat,
                                             name: string)
    requires Foreign(instance, name)
    ensures SameAt(s, SweepValidReplicas(s, instance, replica, replicas, endpoints), name)
    decreases replicas - replica
  {
    if replica < replicas {
      SweepEndpointsForeign(s, instance, replica, endpoints, name);
      var swept := SweepEndpoints(s, instance, replica, endpoints);
      SweepValidForeign(swept, instance, replica + 1, replicas, endpoints, name);
    }
  }

  /** Without endpoints the services of the first endpoint of each wanted replica stay as they were: the sweep of
      endpoints starts after the default one. */
  lemma NoEndpointsKeepFirst(s: Services, instance: string, replicas: nat, replica: nat, kind: Kind)
    requires replica < replicas
    ensures SameAt(s, Reconciled(s, instance, replicas, []), Name(instance, Slot(replica, 0, kind)))
  {
    var slot := Slot(replica, 0, kind);
    NoEndpointsNoServices(s, instance, replicas);
    var swept := SweepReplicas(s, instance, replicas);
    var gap := SweepReplicasGap(s, instance, replicas);
    SweepReplicasSubset(s, instance, replicas);
    assert Has(swept, instance, slot) <==> Has(s, instance, slot);
    SweepValidKeeps(swept, instance, 0, replicas, 1, slot);
  }

  /** A reconcile touches no service that is not named as one of its instance. */
  lemma ForeignServicesUntouched(s: Services, instance: string, replicas: nat, eps: seq<Endpoint>, name: string)
    requires Foreign(instance, name)
    ensures SameAt(s, Reconciled(s, instance, replicas, eps), name)
  {
    var created := CreateReplicas(s, instance, replicas, eps);
    var swept := SweepReplicas(created, instance, replicas);
    CreateForeign(s, instance, replicas, eps, name);
    SweepReplicasForeign(created, instance, replicas, name);
    SweepValidForeign(swept, instance, 0, replicas, EndpointCount(eps), name);
  }

  /** So a reconcile of one instance touches no router service of another one in the same namespace, whatever the two
      are called. */
  lemma OtherInstancesUntouched(s: Services, instance: string, replicas: nat, eps: seq<Endpoint>, other: string,
                                slot: Slot)
    requires other != instance
    ensures SameAt(s, Reconciled(s, instance, replicas, eps), Name(other, slot))
  {
    forall mine: Slot ensures Name(other, slot) != Name(instance, mine) {
      NamesOfInstancesDiffer(other, slot, instance, mine);
    }
    ForeignServicesUntouched(s, instance, replicas, eps, Name(other, slot));
  }

  // ---------------------------------------------------------------- deployments

  /** The deployments after a reconcile are exactly those of the wanted replicas, if the labelled ones
      before were router deployments below the bound. */
  lemma DeploymentsConverge(ds: set<string>, instance: string, replicas: nat)
    requires ds <= DeploymentNames(instance, 0, REPLICA_BOUND)
    ensures KeptDeployments(ds + DeploymentNames(instance, 0, replicas), instance, replicas)
            == DeploymentNames(instance, 0, replicas)
  {
    var all := ds + DeploymentNames(instance, 0, replicas);
    forall d ensures d in KeptDeployments(all, instance, replicas) <==> d in DeploymentNames(instance, 0, replicas) {
      if d in DeploymentNames(instance, 0, replicas) {
        var i :| 0 <= i < replicas && d == RouterName(instance, i);
        forall j | replicas <= j < REPLICA_BOUND ensures d != RouterName(instance, j) {
          RouterNameInjective(instance, i, j);
        }
      } else if d in ds {
        var i :| 0 <= i < REPLICA_BOUND && d == RouterName(instance, i);
        assert i >= replicas;
        assert Excess(d, instance, replicas);
      }
    }
  }
}
