/** Selection of the edge DNS provider: the factory's constructor with its
    argument validation, and the closed case split from the configured edge
    DNS type to a provider variant. */
module ProviderFactory {
  import opened Outcomes

  /** Opaque handles standing for the Kubernetes client and the metrics sink;
      `None` plays the part of Go's nil interface value. */
  datatype Client = Client(id: nat)
  datatype Metrics = Metrics(id: nat)

  /** The configured edge DNS type. The three named constants are the ones the
      factory recognises; every other configured value is `Other`. */
  datatype EdgeDnsType = DnsTypeNS1 | DnsTypeRoute53 | DnsTypeInfoblox | Other(raw: string)

  /** The slice of the operator configuration the factory reads. */
  datatype Config = Config(
    edgeDnsType: EdgeDnsType,
    k8gbNamespace: string,
    edgeDnsServer: string,
    edgeDnsServerPort: int,
    dnsZone: string)

  /** The helper every provider is built with: the client plus where the edge
      DNS server lives. */
  datatype GslbAssistant = GslbAssistant(
    client: Option<Client>,
    namespace: string,
    edgeDnsServer: string,
    edgeDnsServerPort: int)

  datatype ExternalDnsKind = ExternalDnsNS1 | ExternalDnsRoute53

  /** The provider variants; exactly one is chosen per factory. */
  datatype Provider =
    | ExternalDns(kind: ExternalDnsKind, config: Config, assistant: GslbAssistant)
    | InfobloxDns(config: Config, assistant: GslbAssistant)
    | EmptyDns(config: Config, assistant: GslbAssistant)

  datatype Factory = Factory(config: Config, client: Option<Client>, metrics: Option<Metrics>)

  datatype FactoryError = NilClient | NilMetrics

  /** What the constructor hands back: a factory (always) and an error
      (possibly). */
  datatype Construction = Construction(factory: Factory, err: Option<FactoryError>)

  /** The constructor checks the client, then the metrics sink, each check
      overwriting the error of the one before, so when both are nil the
      metrics error is the one reported. The factory is built whatever the
      checks found. */
  function NewDnsProviderFactory(client: Option<Client>, config: Config, metrics: Option<Metrics>): (r: Construction)
    ensures r.err.Some? <==> client.None? || metrics.None?
    ensures metrics.None? ==> r.err == Some(NilMetrics)
    ensures client.None? && metrics.Some? ==> r.err == Some(NilClient)
    ensures r.factory.config == config && r.factory.client == client && r.factory.metrics == metrics
  {
    var err := if client.None? then Some(NilClient) else None;
    var err := if metrics.None? then Some(NilMetrics) else err;
    Construction(Factory(config, client, metrics), err)
  }

  /** The assistant a factory builds for its provider. */
  function AssistantFor(f: Factory): GslbAssistant
  {
    GslbAssistant(f.client, f.config.k8gbNamespace, f.config.edgeDnsServer, f.config.edgeDnsServerPort)
  }

  /** Chooses the provider variant from the configured edge DNS type alone;
      any unrecognised type falls through to the no-op provider. Every
      variant carries the factory's configuration and its assistant. */
  function ProviderOf(f: Factory): (p: Provider)
    ensures p.ExternalDns? && p.kind == ExternalDnsNS1 <==> f.config.edgeDnsType == DnsTypeNS1
    ensures p.ExternalDns? && p.kind == ExternalDnsRoute53 <==> f.config.edgeDnsType == DnsTypeRoute53
    ensures p.InfobloxDns? <==> f.config.edgeDnsType == DnsTypeInfoblox
    ensures p.EmptyDns? <==> f.config.edgeDnsType.Other?
    ensures p.config == f.config
    ensures p.assistant.client == f.client && p.assistant.namespace == f.config.k8gbNamespace
    ensures p.assistant.edgeDnsServer == f.config.edgeDnsServer
    ensures p.assistant.edgeDnsServerPort == f.config.edgeDnsServerPort
  {
    var a := AssistantFor(f);
    match f.config.edgeDnsType
    case DnsTypeNS1 => ExternalDns(ExternalDnsNS1, f.config, a)
    case DnsTypeRoute53 => ExternalDns(ExternalDnsRoute53, f.config, a)
    case DnsTypeInfoblox => InfobloxDns(f.config, a)
    case Other(_) => EmptyDns(f.config, a)
  }

  /** The four provider variants, without what they carry. */
  datatype Variant = NS1 | Route53 | Infoblox | Empty

  /** Which variant a provider is, forgetting what it carries. */
  function VariantOf(p: Provider): Variant
  {
    match p
    case ExternalDns(ExternalDnsNS1, _, _) => NS1
    case ExternalDns(ExternalDnsRoute53, _, _) => Route53
    case InfobloxDns(_, _) => Infoblox
    case EmptyDns(_, _) => Empty
  }

  /** Two factories configured with the same edge DNS type choose the same
      variant, whatever their other settings, client or metrics. */
  lemma SameTypeSameVariant(f: Factory, g: Factory)
    requires f.config.edgeDnsType == g.config.edgeDnsType
    ensures VariantOf(ProviderOf(f)) == VariantOf(ProviderOf(g))
  {
  }

  /** The factory is built even when the constructor reports an error, and the
      provider it then selects carries the given configuration and client
      (nil included) and is chosen by the configured edge DNS type. */
  lemma ConstructedFactoryProvider(client: Option<Client>, config: Config, metrics: Option<Metrics>)
    ensures
      var p := ProviderOf(NewDnsProviderFactory(client, config, metrics).factory);
      && p.config == config
      && p.assistant.client == client
      && (p.InfobloxDns? <==> config.edgeDnsType == DnsTypeInfoblox)
      && (p.EmptyDns? <==> config.edgeDnsType.Other?)
  {
  }
}
