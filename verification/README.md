# Gslb controller decision logic, in Dafny

A model of three pieces of the k8gb (formerly ohmyglb) Gslb controller:

- **DNS endpoint construction** (`pkg/controller/gslb/dnsupdate.go`): the
  controller reads the load-balancer IPs of the Gslb's own ingress. It asks
  each peer cluster listed in `EXT_GSLB_CLUSTERS` for the A records of
  `hostsz.<gslb>.<cluster>.` and merges the answers into the public targets
  according to the Gslb strategy. It then builds a DNSEndpoint object. The
  first record is always `hostsz.<gslb>.<DNS_ZONE>` with the local IPs. It is
  followed by one record per host whose service health is exactly `Healthy`.
  The object is then created, or its spec overwritten, in the cluster store.
- **Infoblox delegation helpers**
  (`controllers/providers/dns/infoblox-ibclient.go`): the exact-match check
  of the delegated zone, and the in-place removal of every nameserver entry
  carrying a given FQDN.
- **Provider selection** (`controllers/providers/dns/factory.go`): the
  factory constructor's nil checks, where a later check overwrites an earlier
  error, and the closed case split from edge DNS type to provider variant.

Files:

- `outcomes.dfy`: module `Outcomes`, holding `Option`, `Result` and the API error kinds.
- `strings.dfy`: module `Strings`, holding Go's `strings.Split` and its inverse `Join`.
- `dnsupdate.dfy`: module `DnsUpdate`.
- `infoblox.dfy`: module `InfobloxClient`.
- `factory.dfy`: module `ProviderFactory`.

Everything outside the controller becomes an explicit input:

- the result of each Kubernetes `Get`;
- the service-health map;
- the DNS exchange with a peer, an oracle `Query -> DnsAnswer`, which yields the answer's IPs or a transport failure;
- the two environment variables;
- the failure, if any, of setting the controller reference;
- the order in which Go iterates the health map.

The cluster store is a `map` from namespace/name to DNSEndpoint. Reads and
writes can be made to fail through injected faults.

Three facts about this version of the code shape the model:

- Round robin concatenates local and peer targets. It does not deduplicate.
- There is no failover branch and no heartbeat check before a peer is queried.
- One failing peer aborts the whole external-target lookup. It is not skipped.

## Model

| member | source | states |
|---|---|---|
| `DnsUpdate.GslbIngressIPs` | pkg/controller/gslb/dnsupdate.go:21-44 | One IP per load-balancer entry of the ingress, in the same order; a failed ingress lookup (NotFound or other) yields no IPs and the same error. |
| `DnsUpdate.HostszQuery` | pkg/controller/gslb/dnsupdate.go:62-64 | The peer query asks for `hostsz.<gslb>.<cluster>.` (the hostsz name plus a trailing dot) at `<cluster>:53`. |
| `DnsUpdate.CollectTargets` | pkg/controller/gslb/dnsupdate.go:55-81 | The fold over the cluster list fails iff some cluster's exchange fails; on success it returns the clusters' answers concatenated in configured order. |
| `DnsUpdate.CollectTargetsFirstFailure` | pkg/controller/gslb/dnsupdate.go:59-68 | A failed fold returns the error of the first cluster, in list order, whose exchange failed; no earlier cluster failed. |
| `DnsUpdate.ExternalTargets` | pkg/controller/gslb/dnsupdate.go:46-82 | An empty `EXT_GSLB_CLUSTERS` gives no targets and no error (standalone); otherwise the comma-split list is folded as above. |
| `DnsUpdate.FlattenAppend` | pkg/controller/gslb/dnsupdate.go:75-77 | Appending one cluster's answer to the gathered targets extends the in-order concatenation by that answer. |
| `DnsUpdate.PublicTargets` | pkg/controller/gslb/dnsupdate.go:113-118 | The public targets start with the local targets in order; they are followed by the external targets exactly when the strategy is `roundRobin` and peers returned targets. Nothing is deduplicated: the multiset is the sum of the two. Otherwise they equal the local targets. |
| `DnsUpdate.HostRecords` | pkg/controller/gslb/dnsupdate.go:120-130 | A host gets a record iff its health is exactly `Healthy`. Every such record has TTL 30, type `A` and the public targets. A distinct host order gives distinct record names. |
| `DnsUpdate.GslbDnsEndpoint` | pkg/controller/gslb/dnsupdate.go:84-148 | The health, ingress and external-target lookups, then setting the controller reference, are tried in that order; the first error is returned with no endpoint. On success the first record is `hostsz.<gslb>.<zone>` (TTL 30, `A`) with exactly the local IPs, whatever the strategy or health. The records after it are named exactly by the Healthy hosts. The count is 1 + the number of Healthy hosts. The object is named after the Gslb and owned by it. |
| `DnsUpdate.HostnameOnlyEntryPublishesEmptyTarget` | pkg/controller/gslb/dnsupdate.go:39-41 | A load-balancer entry with only a hostname gives the empty string as a local target. That empty target then appears in the hostsz record and in every public record. |
| `DnsUpdate.IterationOrderIrrelevant` | pkg/controller/gslb/dnsupdate.go:120-130 | Two iterations of the health map in different orders give the same result when it is an error; when it succeeds, they give the same metadata, the same first record and the same set of records. |
| `DnsUpdate.EnsureDnsEndpoint` | pkg/controller/gslb/dnsupdate.go:150-189 | Absent object → create. Present → replace its spec, keep its metadata. A non-NotFound read error is returned and nothing is written. A failed write returns its error and leaves the store unchanged. On success the new spec is stored under the Gslb's key and no other key changes. |
| `DnsUpdate.EnsureIdempotent` | pkg/controller/gslb/dnsupdate.go:154-188 | Ensuring the same desired object twice leaves the store as ensuring it once. |
| `Strings.Split` | pkg/controller/gslb/dnsupdate.go:55 | Splitting on `,` gives at least one piece, no piece contains a comma, and joining the pieces gives back the input. |
| `Strings.SplitJoin` | pkg/controller/gslb/dnsupdate.go:55 | Split inverts Join on comma-free pieces. |
| `Strings.SplitCount` | pkg/controller/gslb/dnsupdate.go:55 | The number of clusters is the number of commas plus one. |
| `InfobloxClient.CheckZoneDelegated` | controllers/providers/dns/infoblox-ibclient.go:83-88 | Error iff the returned zone FQDN differs from the configured zone, by exact string comparison. The error names both zones. |
| `InfobloxClient.TrailingDotRejected` | controllers/providers/dns/infoblox-ibclient.go:84-85 | For every zone, a returned FQDN that differs from it only by a trailing dot is rejected with the mismatch error. |
| `InfobloxClient.CaseDifferenceRejected` | controllers/providers/dns/infoblox-ibclient.go:84-85 | A returned FQDN that differs from the zone only by the case of one letter is rejected with the mismatch error. |
| `InfobloxClient.FilterOutDelegateTo` | controllers/providers/dns/infoblox-ibclient.go:90-98 | The in-place loop with its index step-back returns exactly the reference filter `Without`. No entry in the result carries the FQDN, so consecutive matches are all removed. |
| `InfobloxClient.Without` | controllers/providers/dns/infoblox-ibclient.go:90-98 | The reference filter: no survivor carries the FQDN, and the result is no longer than the input. |
| `InfobloxClient.WithoutCounts` | controllers/providers/dns/infoblox-ibclient.go:90-98 | Length = input length − number of matches. Every non-matching entry keeps its multiplicity; matching entries have none. |
| `InfobloxClient.WithoutIsSubsequence` | controllers/providers/dns/infoblox-ibclient.go:90-98 | The survivors appear in their original relative order. |
| `InfobloxClient.WithoutNoMatch` | controllers/providers/dns/infoblox-ibclient.go:90-98 | With no matching entry the output equals the input. |
| `InfobloxClient.WithoutIdempotent` | controllers/providers/dns/infoblox-ibclient.go:90-98 | Filtering twice equals filtering once. |
| `InfobloxClient.WithoutConcat` | controllers/providers/dns/infoblox-ibclient.go:92-95 | Filtering distributes over concatenation. This is why cutting out one matching entry and re-examining the same index keeps the final filter unchanged. |
| `InfobloxClient.FilterExample` | pkg/controller/gslb/gslb_controller_test.go:452-475 | The test's list of three `eu` and three `za` nameservers, filtered by the `za` name, leaves the three `eu` entries in order. |
| `ProviderFactory.NewDnsProviderFactory` | controllers/providers/dns/factory.go:36-49 | An error is reported iff the client or the metrics is nil. With both nil it is the metrics error, because the later check overwrites the earlier. The factory always holds the given config, client and metrics. |
| `ProviderFactory.ConstructedFactoryProvider` | controllers/providers/dns/factory.go:36-62 | The factory is built even when the constructor reports an error. The provider it selects carries the given config and client, nil included, and is chosen by the configured edge DNS type. |
| `ProviderFactory.ProviderOf` | controllers/providers/dns/factory.go:52-63 | NS1 → external(NS1), Route53 → external(Route53), Infoblox → Infoblox provider, any other type → empty provider (each an iff). Every variant carries the factory's config and an assistant built from its client, namespace and edge DNS server and port. |
| `ProviderFactory.SameTypeSameVariant` | controllers/providers/dns/factory.go:54-62 | The chosen variant depends only on the configured edge DNS type. |

## Left out

- Real DNS exchange (`dns.Exchange`) and parsing of the answer text (`strings.Split(A.String(), "\t")[4]`): a cluster's answer is the abstract `Exchange` oracle, which returns the answer's IPs or an error. A reply that arrives without a transport error but carries an error code is whatever the oracle says.
- `getServiceHealthStatus` is not part of this model. Its result, the host → health map or an error, is an input.
- Kubernetes client calls are inputs or operations on an abstract map store with injected faults: `Get` of the ingress, `Get`/`Create`/`Update` of the DNSEndpoint. `Create` of a taken key and `Update` of a missing key fail as the API server would.
- `SetControllerReference`: modelled only as a possible failure plus the Gslb's name recorded as the owner. The owner-reference fields and the scheme lookup are not modelled.
- `os.Getenv`: `DNS_ZONE` and `EXT_GSLB_CLUSTERS` are passed in as `Env`.
- Go map iteration order in `gslbDNSEndpoint` is nondeterministic. It is the explicit `hostOrder` argument, required to list each host of the health map once. Properties of the host records are stated as sets; only the first record's position is fixed.
- The DNS exchange is a pure function of the query. If a cluster is listed twice in `EXT_GSLB_CLUSTERS` (say `za,za`), both listings get the same answer, or both fail. The source makes two independent `dns.Exchange` calls, which could differ.
- Go's distinction between a nil and an empty slice is not modelled. Both are the empty sequence.
- EnsureDnsEndpoint: the `*reconcile.Result` it returns (`&reconcile.Result{}` on error, nil on success) is reduced to the error alone.
- Logging, `prettyPrint` and the JSON encoding of objects.
- Go slice aliasing in `filterOutDelegateTo`: the in-place `append` mutates the caller's backing array. The model takes the list as a value.
- Infoblox `login`/`logout`, the fake connector and all other SDK and network I/O.
- `NewGslbAssistant`, `NewExternalDNS`, `NewInfobloxDNS` and `NewEmptyDNS` are not part of this model. The assistant is the record of its constructor's arguments, and each provider is a variant carrying its config and assistant.
- The spelling of the `EdgeDNSType` constants is not part of this model. The three recognised types are named variants, and every other value is `Other`.
- controllers/logging/logr.go (logging adapter), controllers/providers/metrics/singleton.go (once-initialised global metrics) and the terratest integration suites are outside the modelled core.
- The controller tests also expect behaviour that this version of `dnsupdate.go` does not have. It is not modelled:
  - `localtargets.*` records and the `dnstype=local` annotation;
  - failover selection;
  - heartbeat freshness (`checkAliveFromTXT`);
  - `getExternalClusterFQDNs`;
  - Prometheus metric counts.
