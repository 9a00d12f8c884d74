/** The two pure helpers of the Infoblox delegation client: the check that the
    delegated zone returned by Infoblox is the configured zone, and the removal
    of this cluster's own nameservers from a delegation list. */
module InfobloxClient {
  import opened Outcomes

  /** One entry of an Infoblox zone delegation's `delegate_to` list. */
  datatype NameServer = NameServer(address: string, name: string)

  /** The part of a delegated-zone object the client inspects. */
  datatype ZoneDelegated = ZoneDelegated(fqdn: string)

  /** Configuration error raised when Infoblox hands back another zone than
      the one requested. */
  datatype ZoneError = ZoneMismatch(returned: string, requested: string)

  /** Succeeds exactly when the returned zone's FQDN equals the configured
      zone, compared as raw strings: no case folding and no trailing-dot
      normalisation. */
  function CheckZoneDelegated(findZone: ZoneDelegated, dnsZone: string): (r: Option<ZoneError>)
    ensures r.None? <==> findZone.fqdn == dnsZone
    ensures r.Some? ==> r.value.returned == findZone.fqdn && r.value.requested == dnsZone
  {
    if findZone.fqdn != dnsZone then Some(ZoneMismatch(findZone.fqdn, dnsZone)) else None
  }

  /** No normalisation: a returned FQDN that differs from the configured zone
      only by a trailing dot is rejected. */
  lemma TrailingDotRejected(dnsZone: string)
    ensures CheckZoneDelegated(ZoneDelegated(dnsZone + "."), dnsZone) == Some(ZoneMismatch(dnsZone + ".", dnsZone))
  {
  }

  /** No case folding: a returned FQDN that differs from the configured zone
      only by the case of one letter is rejected. */
  lemma CaseDifferenceRejected(dnsZone: string, i: nat)
    requires i < |dnsZone| && 'a' <= dnsZone[i] <= 'z'
    ensures
      var upper := dnsZone[i := (dnsZone[i] as int - 32) as char];
      CheckZoneDelegated(ZoneDelegated(upper), dnsZone) == Some(ZoneMismatch(upper, dnsZone))
  {
  }

  /** Reference definition: `delegateTo` with every entry named `fqdn` dropped,
      the others kept in order. */
  function Without(delegateTo: seq<NameServer>, fqdn: string): (r: seq<NameServer>)
    ensures forall k :: 0 <= k < |r| ==> r[k].name != fqdn
    ensures |r| <= |delegateTo|
    decreases |delegateTo|
  {
    if |delegateTo| == 0 then []
    else if delegateTo[0].name == fqdn then Without(delegateTo[1..], fqdn)
    else [delegateTo[0]] + Without(delegateTo[1..], fqdn)
  }

  /** Number of entries named `fqdn`. */
  function Matches(delegateTo: seq<NameServer>, fqdn: string): (n: nat)
    ensures n <= |delegateTo|
    decreases |delegateTo|
  {
    if |delegateTo| == 0 then 0
    else (if delegateTo[0].name == fqdn then 1 else 0) + Matches(delegateTo[1..], fqdn)
  }

  /** `sub` can be obtained from `s` by deleting entries. */
  ghost predicate SubsequenceOf<T>(sub: seq<T>, s: seq<T>)
    decreases |s|
  {
    if |sub| == 0 then true
    else if |s| == 0 then false
    else if sub[0] == s[0] then SubsequenceOf(sub[1..], s[1..])
    else SubsequenceOf(sub, s[1..])
  }

  lemma {:induction false} WithoutConcat(a: seq<NameServer>, b: seq<NameServer>, fqdn: string)
    ensures Without(a + b, fqdn) == Without(a, fqdn) + Without(b, fqdn)
    decreases |a|
  {
    if |a| > 0 {
      assert (a + b)[1..] == a[1..] + b;
      WithoutConcat(a[1..], b, fqdn);
    } else {
      assert a + b == b;
    }
  }

  /** A list with no entry named `fqdn` passes through unchanged. */
  lemma {:induction false} WithoutNoMatch(delegateTo: seq<NameServer>, fqdn: string)
    requires forall k :: 0 <= k < |delegateTo| ==> delegateTo[k].name != fqdn
    ensures Without(delegateTo, fqdn) == delegateTo
    decreases |delegateTo|
  {
    if |delegateTo| > 0 {
      WithoutNoMatch(delegateTo[1..], fqdn);
      assert [delegateTo[0]] + delegateTo[1..] == delegateTo;
    }
  }

  /** Filtering twice is filtering once. */
  lemma {:induction false} WithoutIdempotent(delegateTo: seq<NameServer>, fqdn: string)
    ensures Without(Without(delegateTo, fqdn), fqdn) == Without(delegateTo, fqdn)
  {
    WithoutNoMatch(Without(delegateTo, fqdn), fqdn);
  }

  /** Exactly the matching entries are removed, and only those. */
  lemma {:induction false} WithoutCounts(delegateTo: seq<NameServer>, fqdn: string)
    ensures |Without(delegateTo, fqdn)| == |delegateTo| - Matches(delegateTo, fqdn)
    ensures forall ns :: multiset(Without(delegateTo, fqdn))[ns] ==
                         if ns.name == fqdn then 0 else multiset(delegateTo)[ns]
    decreases |delegateTo|
  {
    if |delegateTo| > 0 {
      WithoutCounts(delegateTo[1..], fqdn);
      assert delegateTo == [delegateTo[0]] + delegateTo[1..];
      assert multiset(delegateTo) == multiset{delegateTo[0]} + multiset(delegateTo[1..]);
    }
  }

  /** The survivors keep their relative order. */
  lemma {:induction false} WithoutIsSubsequence(delegateTo: seq<NameServer>, fqdn: string)
    ensures SubsequenceOf(Without(delegateTo, fqdn), delegateTo)
    decreases |delegateTo|
  {
    if |delegateTo| > 0 {
      var rest := Without(delegateTo[1..], fqdn);
      WithoutIsSubsequence(delegateTo[1..], fqdn);
      if delegateTo[0].name == fqdn {
        SubsequenceSkip(rest, delegateTo);
      } else {
        assert ([delegateTo[0]] + rest)[1..] == rest;
      }
    }
  }

  lemma {:induction false} SubsequenceSkip<T>(sub: seq<T>, s: seq<T>)
    requires |s| > 0
    requires SubsequenceOf(sub, s[1..])
    ensures SubsequenceOf(sub, s)
    decreases |s|, 1
  {
    if |sub| > 0 && sub[0] == s[0] {
      // Keeping s[0] instead of skipping it: sub[1..] is then needed in s[1..].
      SubsequenceTail(sub, s[1..]);
    }
  }

  lemma {:induction false} SubsequenceTail<T>(sub: seq<T>, s: seq<T>)
    requires |sub| > 0
    requires SubsequenceOf(sub, s)
    ensures SubsequenceOf(sub[1..], s)
    decreases |s|, 2
  {
    if |s| > 0 && sub[0] != s[0] {
      SubsequenceTail(sub, s[1..]);
      SubsequenceSkip(sub[1..], s);
    } else if |s| > 0 {
      SubsequenceSkip(sub[1..], s);
    }
  }

  /** Removes every entry named `fqdn` from the delegation list, by the
      source's in-place loop: on a match the entry is cut out and the index
      steps back, so the entry shifted into its place is examined too and
      runs of consecutive matches all go. */
  method FilterOutDelegateTo(delegateTo: seq<NameServer>, fqdn: string) returns (r: seq<NameServer>)
    ensures r == Without(delegateTo, fqdn)
    ensures forall k :: 0 <= k < |r| ==> r[k].name != fqdn
  {
    r := delegateTo;
    var i: int := 0;
    while i < |r|
      invariant 0 <= i <= |r|
      invariant forall k :: 0 <= k < i ==> r[k].name != fqdn
      invariant Without(r, fqdn) == Without(delegateTo, fqdn)
      decreases |r| - i
    {
      if r[i].name == fqdn {
        var before, hit, after := r[..i], r[i], r[i + 1..];
        assert r == before + [hit] + after;
        WithoutConcat(before + [hit], after, fqdn);
        WithoutConcat(before, [hit], fqdn);
        WithoutConcat(before, after, fqdn);
        r := before + after;
        i := i - 1;
      }
      i := i + 1;
    }
    WithoutNoMatch(r, fqdn);
  }

  /** The delegation list of the controller test: three entries for this
      cluster's nameserver, three for the peer's; filtering out the peer's
      name leaves the three local entries in order. */
  lemma FilterExample()
    ensures
      var eu := "test-gslb-ns-eu.example.com";
      var za := "test-gslb-ns-za.example.com";
      Without([NameServer("10.0.0.1", eu), NameServer("10.0.0.2", eu), NameServer("10.0.0.3", eu),
               NameServer("10.1.0.1", za), NameServer("10.1.0.2", za), NameServer("10.1.0.3", za)], za)
        == [NameServer("10.0.0.1", eu), NameServer("10.0.0.2", eu), NameServer("10.0.0.3", eu)]
  {
    var eu := "test-gslb-ns-eu.example.com";
    var za := "test-gslb-ns-za.example.com";
    assert eu != za by { assert eu[13] == 'e' && za[13] == 'z'; }
    var local := [NameServer("10.0.0.1", eu), NameServer("10.0.0.2", eu), NameServer("10.0.0.3", eu)];
    var peer := [NameServer("10.1.0.1", za), NameServer("10.1.0.2", za), NameServer("10.1.0.3", za)];
    WithoutConcat(local, peer, za);
    WithoutNoMatch(local, za);
    assert Without(peer[2..], za) == [];
    assert Without(peer[1..], za) == [];
    assert local + peer == [NameServer("10.0.0.1", eu), NameServer("10.0.0.2", eu), NameServer("10.0.0.3", eu),
               NameServer("10.1.0.1", za), NameServer("10.1.0.2", za), NameServer("10.1.0.3", za)];
  }
}
