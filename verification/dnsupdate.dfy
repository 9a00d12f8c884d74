/** The DNS endpoint builder of the Gslb controller: it reads the local
    ingress IPs, asks every peer cluster's DNS server for that cluster's
    targets, merges the two per the Gslb strategy, and builds the DNSEndpoint
    object that is then created or overwritten in the cluster store.

    What lies outside the controller comes in as values: the result of each
    Kubernetes `Get`, the service health map, the DNS exchange with a peer
    (an oracle from query to answer), the environment variables, and the
    order in which Go happens to iterate the health map. */
module DnsUpdate {
  import opened Outcomes
  import Strings

  type IP = string

  const RecordTTL: int := 30
  const RecordTypeA: string := "A"
  const HealthyStatus: string := "Healthy"
  const RoundRobinStrategy: string := "roundRobin"

  /** The Gslb resource fields the builder reads. */
  datatype Gslb = Gslb(name: string, namespace: string, strategy: string)

  /** One load-balancer entry in an ingress status; entries assigned a
      hostname rather than an IP carry the empty IP. */
  datatype LoadBalancerIngress = LoadBalancerIngress(ip: string, hostname: string)
  datatype Ingress = Ingress(loadBalancer: seq<LoadBalancerIngress>)

  /** The two environment variables the builder reads. */
  datatype Env = Env(dnsZone: string, extGslbClusters: string)

  /** An A-record query sent to a peer cluster's nameserver. */
  datatype Query = Query(qname: string, server: string)

  /** What a DNS exchange yields: the A records of the answer, or a transport
      failure. The API server's NotFound and AlreadyExists cannot come from
      DNS. */
  type DnsAnswer = a: Result<seq<IP>, ApiError> | a.Ok? || a.error.Failed? witness Ok([])

  /** The DNS exchange with a peer. */
  type Exchange = Query -> DnsAnswer

  datatype Endpoint = Endpoint(dnsName: string, recordTTL: int, recordType: string, targets: seq<IP>)

  /** `owner` is the controlling Gslb set by the controller reference. */
  datatype ObjectMeta = ObjectMeta(name: string, namespace: string, owner: Option<string>)
  datatype DnsEndpointSpec = DnsEndpointSpec(endpoints: seq<Endpoint>)
  datatype DnsEndpoint = DnsEndpoint(meta: ObjectMeta, spec: DnsEndpointSpec)

  // ---------------------------------------------------------------------------
  // Local targets

  /** The IPs of the Gslb's own ingress: one per load-balancer entry, in the
      same order, or the lookup error (NotFound included) unchanged. */
  function GslbIngressIPs(ingress: Result<Ingress, ApiError>): (r: Result<seq<IP>, ApiError>)
    ensures r.Err? <==> ingress.Err?
    ensures r.Err? ==> r.error == ingress.error
    ensures r.Ok? ==> |r.value| == |ingress.value.loadBalancer|
    ensures r.Ok? ==> forall k :: 0 <= k < |r.value| ==> r.value[k] == ingress.value.loadBalancer[k].ip
  {
    match ingress
    case Err(e) => Err(e)
    case Ok(ing) => Ok(seq(|ing.loadBalancer|, k requires 0 <= k < |ing.loadBalancer| => ing.loadBalancer[k].ip))
  }

  // ---------------------------------------------------------------------------
  // External targets

  /** The name of the record that advertises a Gslb's targets in `zone`. */
  function HostszName(gslbName: string, zone: string): string
  {
    "hostsz." + gslbName + "." + zone
  }

  /** The query sent to a peer cluster: its fully qualified hostsz name, to
      port 53 of the cluster name itself. */
  function HostszQuery(gslbName: string, cluster: string): (q: Query)
    ensures q.qname == HostszName(gslbName, cluster) + "."
    ensures q.server == cluster + ":53"
  {
    Query(HostszName(gslbName, cluster) + ".", cluster + ":53")
  }

  predicate Fails(gslbName: string, cluster: string, exchange: Exchange)
  {
    exchange(HostszQuery(gslbName, cluster)).Err?
  }

  /** The targets a peer cluster answers with (nothing when it fails). */
  function AnswerOf(gslbName: string, cluster: string, exchange: Exchange): seq<IP>
  {
    match exchange(HostszQuery(gslbName, cluster))
    case Ok(ips) => ips
    case Err(_) => []
  }

  /** Each cluster's answer, in cluster order. */
  function Answers(gslbName: string, clusters: seq<string>, exchange: Exchange): (r: seq<seq<IP>>)
    ensures |r| == |clusters|
    ensures forall k :: 0 <= k < |r| ==> r[k] == AnswerOf(gslbName, clusters[k], exchange)
    decreases |clusters|
  {
    if |clusters| == 0 then []
    else [AnswerOf(gslbName, clusters[0], exchange)] + Answers(gslbName, clusters[1..], exchange)
  }

  /** The concatenation of a sequence of sequences, first to last. */
  function Flatten<T>(xss: seq<seq<T>>): seq<T>
    decreases |xss|
  {
    if |xss| == 0 then [] else xss[0] + Flatten(xss[1..])
  }

  lemma {:induction false} FlattenAppend<T>(xss: seq<seq<T>>, xs: seq<T>)
    ensures Flatten(xss + [xs]) == Flatten(xss) + xs
    decreases |xss|
  {
    if |xss| == 0 {
      assert xss + [xs] == [xs];
    } else {
      assert (xss + [xs])[1..] == xss[1..] + [xs];
      FlattenAppend(xss[1..], xs);
    }
  }

  /** Some cluster of `clusters` fails to answer. */
  predicate AnyFails(gslbName: string, clusters: seq<string>, exchange: Exchange)
  {
    exists k :: 0 <= k < |clusters| && Fails(gslbName, clusters[k], exchange)
  }

  /** Queries the clusters one after the other, appending each answer to the
      targets gathered so far; any failing cluster aborts the whole fold. */
  function CollectTargets(gslbName: string, clusters: seq<string>, exchange: Exchange): (r: Result<seq<IP>, ApiError>)
    ensures r.Err? <==> AnyFails(gslbName, clusters, exchange)
    ensures r.Ok? ==> r.value == Flatten(Answers(gslbName, clusters, exchange))
    decreases |clusters|
  {
    if |clusters| == 0 then Ok([])
    else
      var n := |clusters| - 1;
      var prefix := clusters[..n];
      var last := clusters[n];
      PrefixFails(gslbName, clusters, exchange);
      match CollectTargets(gslbName, prefix, exchange)
      case Err(e) => Err(e)
      case Ok(acc) =>
        match exchange(HostszQuery(gslbName, last))
        case Err(e) => Err(e)
        case Ok(ips) =>
          assert AnswerOf(gslbName, last, exchange) == ips;
          AnswersSnoc(gslbName, clusters, exchange);
          FlattenAppend(Answers(gslbName, prefix, exchange), ips);
          Ok(acc + ips)
  }

  lemma PrefixFails(gslbName: string, clusters: seq<string>, exchange: Exchange)
    requires |clusters| > 0
    ensures AnyFails(gslbName, clusters, exchange) <==>
      AnyFails(gslbName, clusters[..|clusters| - 1], exchange) || Fails(gslbName, clusters[|clusters| - 1], exchange)
  {
  }

  lemma AnswersSnoc(gslbName: string, clusters: seq<string>, exchange: Exchange)
    requires |clusters| > 0
    ensures Answers(gslbName, clusters, exchange)
         == Answers(gslbName, clusters[..|clusters| - 1], exchange) + [AnswerOf(gslbName, clusters[|clusters| - 1], exchange)]
  {
  }

  /** The error a failed fold returns is the one of the first cluster, in
      configured order, whose exchange failed. */
  lemma {:induction false} CollectTargetsFirstFailure(gslbName: string, clusters: seq<string>, exchange: Exchange)
    requires CollectTargets(gslbName, clusters, exchange).Err?
    ensures exists k :: 0 <= k < |clusters| && Fails(gslbName, clusters[k], exchange)
               && !AnyFails(gslbName, clusters[..k], exchange)
               && CollectTargets(gslbName, clusters, exchange).error == exchange(HostszQuery(gslbName, clusters[k])).error
    decreases |clusters|
  {
    var n := |clusters| - 1;
    var prefix := clusters[..n];
    PrefixFails(gslbName, clusters, exchange);
    if CollectTargets(gslbName, prefix, exchange).Err? {
      CollectTargetsFirstFailure(gslbName, prefix, exchange);
      var k :| 0 <= k < |prefix| && Fails(gslbName, prefix[k], exchange)
               && !AnyFails(gslbName, prefix[..k], exchange)
               && CollectTargets(gslbName, prefix, exchange).error == exchange(HostszQuery(gslbName, prefix[k])).error;
      assert prefix[k] == clusters[k];
      assert prefix[..k] == clusters[..k];
    } else {
      assert clusters[..n] == prefix;
    }
  }

  /** The targets advertised by the peer clusters listed, comma separated, in
      `extGslbClusters`. An empty list means the cluster works standalone:
      no targets and no error. Otherwise the answers are concatenated in
      cluster order, and the first failing cluster's error aborts the call. */
  function ExternalTargets(gslbName: string, extGslbClusters: string, exchange: Exchange): (r: Result<seq<IP>, ApiError>)
    ensures extGslbClusters == "" ==> r == Ok([])
    ensures extGslbClusters != "" ==>
      var clusters := Strings.Split(extGslbClusters, ',');
      && (r.Err? <==> AnyFails(gslbName, clusters, exchange))
      && (r.Ok? ==> r.value == Flatten(Answers(gslbName, clusters, exchange)))
  {
    if extGslbClusters == "" then Ok([])
    else CollectTargets(gslbName, Strings.Split(extGslbClusters, ','), exchange)
  }

  // ---------------------------------------------------------------------------
  // Strategy and records

  /** Whether the public records also carry the peers' targets. */
  predicate MergesExternal(strategy: string, external: seq<IP>)
  {
    |external| > 0 && strategy == RoundRobinStrategy
  }

  /** The targets of the public records: the local targets first, in order,
      followed, under round robin and only when peers answered, by every
      external target in order. Nothing is deduplicated. */
  function PublicTargets(strategy: string, local: seq<IP>, external: seq<IP>): (r: seq<IP>)
    ensures |r| >= |local| && r[..|local|] == local
    ensures MergesExternal(strategy, external) ==> r[|local|..] == external
    ensures r == local <==> !MergesExternal(strategy, external)
    ensures multiset(r) == multiset(local) + (if MergesExternal(strategy, external) then multiset(external) else multiset{})
  {
    if MergesExternal(strategy, external) then local + external else local
  }

  predicate Distinct<T(==)>(s: seq<T>)
  {
    forall i, j :: 0 <= i < j < |s| ==> s[i] != s[j]
  }

  /** `order` lists every key of `m` exactly once: one run of Go's map
      iteration. */
  predicate EnumeratesKeys(order: seq<string>, m: map<string, string>)
  {
    && Distinct(order)
    && (forall h :: h in order ==> h in m)
    && (forall h :: h in m ==> h in order)
  }

  /** The hosts whose service health is exactly `Healthy`. */
  function HealthyHosts(serviceHealth: map<string, string>): set<string>
  {
    set h | h in serviceHealth && serviceHealth[h] == HealthyStatus
  }

  function Names(eps: seq<Endpoint>): set<string>
  {
    set e | e in eps :: e.dnsName
  }

  /** One public A record per `Healthy` host, visited in `order`. */
  function HostRecords(order: seq<string>, serviceHealth: map<string, string>, targets: seq<IP>): (r: seq<Endpoint>)
    requires forall h :: h in order ==> h in serviceHealth
    ensures forall k :: 0 <= k < |r| ==>
      && r[k].recordTTL == RecordTTL && r[k].recordType == RecordTypeA && r[k].targets == targets
    ensures Names(r) == HealthyIn(order, serviceHealth)
    ensures Distinct(order) ==> forall i, j :: 0 <= i < j < |r| ==> r[i].dnsName != r[j].dnsName
    decreases |order|
  {
    if |order| == 0 then []
    else
      var rest := HostRecords(order[1..], serviceHealth, targets);
      HealthyInCons(order, serviceHealth);
      if serviceHealth[order[0]] == HealthyStatus then
        var head := Endpoint(order[0], RecordTTL, RecordTypeA, targets);
        NamesCons(head, rest);
        [head] + rest
      else rest
  }

  /** The hosts of `order` whose health is exactly `Healthy`. */
  function HealthyIn(order: seq<string>, serviceHealth: map<string, string>): set<string>
    requires forall h :: h in order ==> h in serviceHealth
  {
    set h | h in order && serviceHealth[h] == HealthyStatus
  }

  lemma HealthyInCons(order: seq<string>, serviceHealth: map<string, string>)
    requires |order| > 0
    requires forall h :: h in order ==> h in serviceHealth
    ensures HealthyIn(order, serviceHealth) ==
      (if serviceHealth[order[0]] == HealthyStatus then {order[0]} else {}) + HealthyIn(order[1..], serviceHealth)
  {
  }

  lemma NamesCons(e: Endpoint, eps: seq<Endpoint>)
    ensures Names([e] + eps) == {e.dnsName} + Names(eps)
  {
  }

  /** Distinct names over a sequence of records: as many names as records. */
  lemma {:induction false} DistinctNamesCard(eps: seq<Endpoint>)
    requires forall i, j :: 0 <= i < j < |eps| ==> eps[i].dnsName != eps[j].dnsName
    ensures |Names(eps)| == |eps|
    decreases |eps|
  {
    if |eps| > 0 {
      DistinctNamesCard(eps[1..]);
      assert Names(eps) == {eps[0].dnsName} + Names(eps[1..]);
      assert eps[0].dnsName !in Names(eps[1..]);
    }
  }

  /** Builds the DNSEndpoint of a Gslb. Its first record is always
      `hostsz.<gslb>.<zone>` with the local ingress IPs, whatever the strategy
      or the hosts' health; it is followed by one public record per `Healthy`
      host, all with the strategy's public targets. The first failing lookup
      (health, ingress, external targets, controller reference) is returned
      and no endpoint is built. */
  function GslbDnsEndpoint(
    gslb: Gslb,
    env: Env,
    serviceHealth: Result<map<string, string>, ApiError>,
    ingress: Result<Ingress, ApiError>,
    exchange: Exchange,
    ownerFault: Option<ApiError>,
    hostOrder: seq<string>): (r: Result<DnsEndpoint, ApiError>)
    requires serviceHealth.Ok? ==> EnumeratesKeys(hostOrder, serviceHealth.value)
    ensures serviceHealth.Err? ==> r == Err(serviceHealth.error)
    ensures serviceHealth.Ok? && ingress.Err? ==> r == Err(ingress.error)
    ensures (serviceHealth.Ok? && ingress.Ok? && ExternalTargets(gslb.name, env.extGslbClusters, exchange).Err?)
              ==> r == Err(ExternalTargets(gslb.name, env.extGslbClusters, exchange).error)
    ensures r.Ok? <==> && serviceHealth.Ok? && ingress.Ok?
                       && ExternalTargets(gslb.name, env.extGslbClusters, exchange).Ok?
                       && ownerFault.None?
    ensures (serviceHealth.Ok? && ingress.Ok? && ExternalTargets(gslb.name, env.extGslbClusters, exchange).Ok?
             && ownerFault.Some?) ==> r == Err(ownerFault.value)
    ensures r.Ok? ==> r.value.meta == ObjectMeta(gslb.name, gslb.namespace, Some(gslb.name))
    ensures r.Ok? ==>
      var eps := r.value.spec.endpoints;
      var local := GslbIngressIPs(ingress).value;
      var public := PublicTargets(gslb.strategy, local, ExternalTargets(gslb.name, env.extGslbClusters, exchange).value);
      && |eps| == 1 + |HealthyHosts(serviceHealth.value)|
      && eps[0] == Endpoint(HostszName(gslb.name, env.dnsZone), RecordTTL, RecordTypeA, local)
      && Names(eps[1..]) == HealthyHosts(serviceHealth.value)
      && forall k :: 1 <= k < |eps| ==>
           eps[k].recordTTL == RecordTTL && eps[k].recordType == RecordTypeA && eps[k].targets == public
  {
    match serviceHealth
    case Err(e) => Err(e)
    case Ok(health) =>
      match GslbIngressIPs(ingress)
      case Err(e) => Err(e)
      case Ok(targets) =>
        var serviceRecord := Endpoint(HostszName(gslb.name, env.dnsZone), RecordTTL, RecordTypeA, targets);
        match ExternalTargets(gslb.name, env.extGslbClusters, exchange)
        case Err(e) => Err(e)
        case Ok(external) =>
          var hosts := HostRecords(hostOrder, health, PublicTargets(gslb.strategy, targets, external));
          var eps := [serviceRecord] + hosts;
          assert eps[1..] == hosts;
          assert HealthyIn(hostOrder, health) == HealthyHosts(health);
          DistinctNamesCard(hosts);
          if ownerFault.Some? then Err(ownerFault.value)
          else Ok(DnsEndpoint(ObjectMeta(gslb.name, gslb.namespace, Some(gslb.name)), DnsEndpointSpec(eps)))
  }

  /** A load-balancer entry that carries only a hostname contributes the empty
      string as a target, and that empty target is published both in the
      hostsz record and in every public record. */
  lemma HostnameOnlyEntryPublishesEmptyTarget(
    gslb: Gslb, env: Env, serviceHealth: Result<map<string, string>, ApiError>,
    ingress: Result<Ingress, ApiError>, exchange: Exchange, ownerFault: Option<ApiError>,
    hostOrder: seq<string>, k: nat)
    requires serviceHealth.Ok? ==> EnumeratesKeys(hostOrder, serviceHealth.value)
    requires ingress.Ok? && k < |ingress.value.loadBalancer| && ingress.value.loadBalancer[k].ip == ""
    requires GslbDnsEndpoint(gslb, env, serviceHealth, ingress, exchange, ownerFault, hostOrder).Ok?
    ensures
      var eps := GslbDnsEndpoint(gslb, env, serviceHealth, ingress, exchange, ownerFault, hostOrder).value.spec.endpoints;
      && "" in GslbIngressIPs(ingress).value
      && forall j :: 0 <= j < |eps| ==> "" in eps[j].targets
  {
  }

  /** Go's map iteration order is not fixed, but it only permutes the public
      records: any two iteration orders give the same error, or the same
      first record and the same set of records. */
  lemma IterationOrderIrrelevant(
    gslb: Gslb, env: Env, serviceHealth: Result<map<string, string>, ApiError>,
    ingress: Result<Ingress, ApiError>, exchange: Exchange, ownerFault: Option<ApiError>,
    order1: seq<string>, order2: seq<string>)
    requires serviceHealth.Ok? ==> EnumeratesKeys(order1, serviceHealth.value)
    requires serviceHealth.Ok? ==> EnumeratesKeys(order2, serviceHealth.value)
    ensures GslbDnsEndpoint(gslb, env, serviceHealth, ingress, exchange, ownerFault, order1).Ok?
        <==> GslbDnsEndpoint(gslb, env, serviceHealth, ingress, exchange, ownerFault, order2).Ok?
    ensures
      var r1 := GslbDnsEndpoint(gslb, env, serviceHealth, ingress, exchange, ownerFault, order1);
      var r2 := GslbDnsEndpoint(gslb, env, serviceHealth, ingress, exchange, ownerFault, order2);
      && (r1.Err? ==> r1 == r2)
      && (r1.Ok? ==>
            && r1.value.meta == r2.value.meta
            && r1.value.spec.endpoints[0] == r2.value.spec.endpoints[0]
            && (set e | e in r1.value.spec.endpoints) == (set e | e in r2.value.spec.endpoints))
  {
    var r1 := GslbDnsEndpoint(gslb, env, serviceHealth, ingress, exchange, ownerFault, order1);
    var r2 := GslbDnsEndpoint(gslb, env, serviceHealth, ingress, exchange, ownerFault, order2);
    if r1.Ok? {
      var e1, e2 := r1.value.spec.endpoints, r2.value.spec.endpoints;
      SameShapeSameRecords(e1, e2);
    }
  }

  /** Two record lists with the same head, the same name set after the head,
      and identical TTL, type and targets after the head hold the same records. */
  lemma SameShapeSameRecords(e1: seq<Endpoint>, e2: seq<Endpoint>)
    requires |e1| > 0 && |e2| > 0 && e1[0] == e2[0]
    requires Names(e1[1..]) == Names(e2[1..])
    requires forall k :: 1 <= k < |e1| ==> e1[k] == Endpoint(e1[k].dnsName, RecordTTL, RecordTypeA, e1[k].targets)
    requires forall k :: 1 <= k < |e2| ==> e2[k] == Endpoint(e2[k].dnsName, RecordTTL, RecordTypeA, e2[k].targets)
    requires forall k, j :: 1 <= k < |e1| && 1 <= j < |e2| ==> e1[k].targets == e2[j].targets
    ensures (set e | e in e1) == (set e | e in e2)
  {
    forall e | e in e1 ensures e in e2 {
      SameShapeMember(e1, e2, e);
    }
    forall e | e in e2 ensures e in e1 {
      SameShapeMember(e2, e1, e);
    }
  }

  lemma SameShapeMember(e1: seq<Endpoint>, e2: seq<Endpoint>, e: Endpoint)
    requires |e1| > 0 && |e2| > 0 && e1[0] == e2[0]
    requires Names(e1[1..]) == Names(e2[1..])
    requires forall k :: 1 <= k < |e1| ==> e1[k] == Endpoint(e1[k].dnsName, RecordTTL, RecordTypeA, e1[k].targets)
    requires forall k :: 1 <= k < |e2| ==> e2[k] == Endpoint(e2[k].dnsName, RecordTTL, RecordTypeA, e2[k].targets)
    requires forall k, j :: 1 <= k < |e1| && 1 <= j < |e2| ==> e1[k].targets == e2[j].targets
    requires e in e1
    ensures e in e2
  {
    var k :| 0 <= k < |e1| && e1[k] == e;
    if k > 0 {
      assert e1[1..][k - 1] == e;
      assert e.dnsName in Names(e2[1..]);
      var f :| f in e2[1..] && f.dnsName == e.dnsName;
      var j :| 0 <= j < |e2[1..]| && e2[1..][j] == f;
      assert e2[j + 1] == f;
    }
  }

  // ---------------------------------------------------------------------------
  // Create-or-overwrite in the cluster store

  datatype ObjectKey = ObjectKey(namespace: string, name: string)

  /** The cluster's DNSEndpoint objects by namespace and name. */
  type Store = map<ObjectKey, DnsEndpoint>

  function KeyOf(meta: ObjectMeta): ObjectKey
  {
    ObjectKey(meta.namespace, meta.name)
  }

  /** Every object is stored under its own namespace and name, as in the API
      server. */
  predicate WellKeyed(store: Store)
  {
    forall k :: k in store ==> KeyOf(store[k].meta) == k
  }

  /** The store after the call, and the error the call returned (if any). */
  datatype Ensured = Ensured(store: Store, err: Option<ApiError>)

  /** Reads an object; `fault` is a failure of the read itself. */
  function Get(store: Store, key: ObjectKey, fault: Option<ApiError>): (r: Result<DnsEndpoint, ApiError>)
    ensures fault.None? ==> (r.Ok? <==> key in store)
    ensures fault.None? && r.Ok? ==> r.value == store[key]
    ensures fault.Some? ==> r == Err(fault.value)
  {
    if fault.Some? then Err(fault.value)
    else if key in store then Ok(store[key])
    else Err(NotFound)
  }

  /** Creates an object under its own key; refused if the key is taken. */
  function Create(store: Store, obj: DnsEndpoint, fault: Option<ApiError>): (r: Ensured)
    ensures r.err.None? <==> fault.None? && KeyOf(obj.meta) !in store
    ensures r.err.None? ==> r.store == store[KeyOf(obj.meta) := obj]
    ensures r.err.Some? ==> r.store == store
  {
    if fault.Some? then Ensured(store, fault)
    else if KeyOf(obj.meta) in store then Ensured(store, Some(AlreadyExists))
    else Ensured(store[KeyOf(obj.meta) := obj], None)
  }

  /** Overwrites an existing object under its own key. */
  function Update(store: Store, obj: DnsEndpoint, fault: Option<ApiError>): (r: Ensured)
    ensures r.err.None? <==> fault.None? && KeyOf(obj.meta) in store
    ensures r.err.None? ==> r.store == store[KeyOf(obj.meta) := obj]
    ensures r.err.Some? ==> r.store == store
  {
    if fault.Some? then Ensured(store, fault)
    else if KeyOf(obj.meta) !in store then Ensured(store, Some(NotFound))
    else Ensured(store[KeyOf(obj.meta) := obj], None)
  }

  /** Creates the Gslb's DNSEndpoint if the store has none, otherwise replaces
      the stored object's spec wholesale and keeps its metadata. A read
      failure other than NotFound is returned without writing anything. */
  function EnsureDnsEndpoint(store: Store, instance: Gslb, desired: DnsEndpoint,
                             getFault: Option<ApiError>, writeFault: Option<ApiError>): (r: Ensured)
    ensures getFault.Some? && getFault.value != NotFound ==> r == Ensured(store, getFault)
    ensures writeFault.Some? ==> r.store == store && r.err.Some?
    ensures (getFault.None? || getFault == Some(NotFound)) && writeFault.Some? ==> r == Ensured(store, writeFault)
    ensures (getFault.None? && ObjectKey(instance.namespace, instance.name) !in store
             && writeFault.None? && KeyOf(desired.meta) !in store)
              ==> r == Ensured(store[KeyOf(desired.meta) := desired], None)
    ensures (WellKeyed(store) && getFault.None? && writeFault.None?
             && ObjectKey(instance.namespace, instance.name) in store)
              ==> var key := ObjectKey(instance.namespace, instance.name);
                  r == Ensured(store[key := DnsEndpoint(store[key].meta, desired.spec)], None)
    ensures WellKeyed(store) ==> WellKeyed(r.store)
    ensures r.err.None? && WellKeyed(store) && KeyOf(desired.meta) == ObjectKey(instance.namespace, instance.name) ==>
      var key := KeyOf(desired.meta);
      && key in r.store && r.store[key].spec == desired.spec
      && r.store.Keys == store.Keys + {key}
      && forall k :: k in store && k != key ==> r.store[k] == store[k]
  {
    var key := ObjectKey(instance.namespace, instance.name);
    match Get(store, key, getFault)
    case Err(NotFound) => Create(store, desired, writeFault)
    case Err(e) => Ensured(store, Some(e))
    case Ok(found) => Update(store, found.(spec := desired.spec), writeFault)
  }

  /** Ensuring the same desired object a second time changes nothing more:
      the store-level effect of the upsert is idempotent. */
  lemma EnsureIdempotent(store: Store, instance: Gslb, desired: DnsEndpoint)
    requires WellKeyed(store)
    requires KeyOf(desired.meta) == ObjectKey(instance.namespace, instance.name)
    ensures
      var once := EnsureDnsEndpoint(store, instance, desired, None, None);
      var twice := EnsureDnsEndpoint(once.store, instance, desired, None, None);
      once.err.None? && twice == once
  {
  }
}
