/**
 * The scanner's own pipeline in src/main.rs: every input token is expanded into candidates
 * (IPv4 blocks in full, IPv6 blocks by a 500-address sample or in full), each candidate is
 * probed with curl for a 200 answer on its trace page, and the hosts that answered are
 * stripped of IPv6 brackets and sorted with the address-first comparator.
 */
module MainFlow {
  import opened Wrappers
  import opened Collections
  import opened Text
  import opened IpModel
  import opened Sorting
  import opened NetworkHosts
  import opened Curl
  import opened Common

  /** How many addresses main.rs samples from an IPv6 block below prefix 119. */
  const Ipv6SampleSize := 500

  /** Rendering an offset of block n as the address `network + offset`. */
  function HostAt(n: Network): nat -> IpAddr {
    (d: nat) => HostAddr(n, d)
  }

  /** `generate_random_ipv6_in_cidr` of main.rs: draws in `network..=broadcast` until `count`
      distinct addresses are collected. The `lower <= upper` check never fails. */
  method GenerateRandomIpv6InCidr(n: Network, count: nat, draws: seq<nat>) returns (r: Option<seq<IpAddr>>)
    requires n.ip.family == V6 && DrawsBelow(draws, Size(n))
    ensures r.Some? ==> |r.value| == count && NoDups(r.value)
    ensures r.Some? ==> forall a :: a in r.value ==>
      ValidAddr(a) && a.family == V6 && NetworkBits(n) <= a.bits <= BroadcastBits(n)
    ensures r.None? <==> |Rendered(draws, HostAt(n))| < count
  {
    var lower, upper := NetworkBits(n), BroadcastBits(n);
    if lower <= upper {
      r := SampleDistinct(count, draws, HostAt(n));
      forall a | r.Some? && a in r.value
        ensures ValidAddr(a) && a.family == V6 && NetworkBits(n) <= a.bits <= BroadcastBits(n)
      {
        var d :| d in draws && a == HostAt(n)(d);
        HostAddrInNetwork(n, d);
      }
    } else {
      assert false;
    }
  }

  /** Printing a list of addresses, one `to_string` per element. */
  method ShowAll(p: Parsers, addrs: seq<IpAddr>) returns (out: seq<string>)
    ensures |out| == |addrs|
    ensures forall i :: 0 <= i < |addrs| ==> out[i] == p.show(addrs[i])
  {
    out := [];
    for i := 0 to |addrs|
      invariant |out| == i
      invariant forall k :: 0 <= k < i ==> out[k] == p.show(addrs[k])
    {
      out := out + [p.show(addrs[i])];
    }
  }

  /** `generate_ip_and_check_ip_type` of main.rs. */
  method GenerateForScan(p: Parsers, token: string, draws: seq<nat>) returns (r: Option<seq<string>>)
    requires DrawsFit(p, token, draws)
    ensures p.parseNetwork(token).None? ==> r == Some(PassThrough(p, token))
    ensures p.parseNetwork(token).Some? ==>
      var n := p.parseNetwork(token).value;
      (n.ip.family == V4 || n.prefix >= 119) ==> r == Some(Enumerate(p, n))
    ensures p.parseNetwork(token).Some? ==>
      var n := p.parseNetwork(token).value;
      n.ip.family == V6 && n.prefix < 119 ==>
        && (r.None? <==> |Rendered(draws, HostAt(n))| < Ipv6SampleSize)
        && (r.Some? ==> |r.value| == Ipv6SampleSize && AllInBlock(p, n, r.value))
        && (r.Some? && ShowRoundTrips(p) ==> NoDups(r.value))
  {
    match p.parseNetwork(token)
    case Some(n) =>
      if n.ip.family == V6 {
        if n.prefix < 119 {
          var generated := GenerateRandomIpv6InCidr(n, Ipv6SampleSize, draws);
          if generated.None? {
            return None;
          }
          var addresses := ShowAll(p, generated.value);
          ShownSampleInBlock(p, n, generated.value, addresses);
          r := Some(addresses);
        } else {
          r := Some(Enumerate(p, n));
        }
      } else {
        r := Some(Enumerate(p, n));
      }
    case None =>
      r := Some(PassThrough(p, token));
  }

  lemma ShownSampleInBlock(p: Parsers, n: Network, addrs: seq<IpAddr>, out: seq<string>)
    requires NoDups(addrs) && |out| == |addrs|
    requires forall i :: 0 <= i < |addrs| ==> out[i] == p.show(addrs[i])
    requires forall a :: a in addrs ==>
      ValidAddr(a) && a.family == n.ip.family && NetworkBits(n) <= a.bits <= BroadcastBits(n)
    ensures AllInBlock(p, n, out)
    ensures ShowRoundTrips(p) ==> NoDups(out)
  {
    forall s | s in out ensures InBlock(p, n, s) {
      var i :| 0 <= i < |out| && out[i] == s;
      ContainsRange(n, addrs[i]);
      assert ValidAddr(addrs[i]) && Contains(n, addrs[i]) && s == p.show(addrs[i]);
    }
    if ShowRoundTrips(p) {
      forall i, j | 0 <= i < j < |out| ensures out[i] != out[j] {
        assert addrs[i] in addrs && addrs[j] in addrs;
        assert p.parseAddr(out[i]) == Some(addrs[i]);
        assert p.parseAddr(out[j]) == Some(addrs[j]);
      }
    }
  }

  // ----- is_ip_reachable -----

  /** The trace URL of a formatted host: a host that is already a URL gets the path
      appended, anything else is put behind `http://`. */
  function ScanUrl(formatted: string): (url: string)
    ensures IsHttpUrl(url) && EndsWith(url, TracePath)
    ensures IsHttpUrl(formatted) ==> url[..|url| - |TracePath|] == formatted
    ensures !IsHttpUrl(formatted) ==> url[..|url| - |TracePath|] == "http://" + formatted
  {
    var url := if IsHttpUrl(formatted) then formatted + TracePath else "http://" + formatted + TracePath;
    assert url[..|url| - |TracePath|] == if IsHttpUrl(formatted) then formatted else "http://" + formatted;
    assert IsHttpUrl(formatted) ==> url[..|formatted|] == formatted;
    assert !IsHttpUrl(formatted) ==> url[..7] == "http://";
    StartsWithSlice(url, "http://");
    StartsWithSlice(url, "https://");
    StartsWithSlice(formatted, "http://");
    StartsWithSlice(formatted, "https://");
    url
  }

  /** `is_ip_reachable` with curl's answer as a parameter: None when curl could not be run.
      On success it reports the URL's host and whether the answer, trimmed, is "200". */
  function IsIpReachable(p: Parsers, ip: string, curl: string -> Option<string>): (r: Result<(string, bool), ProbeError>)
    ensures var url := ScanUrl(FormatHost(p, ip));
      r.Ok? <==> curl(url).Some? && p.urlHost(url).Some?
    ensures var url := ScanUrl(FormatHost(p, ip));
      r.Ok? ==> Some(r.value.0) == p.urlHost(url) && (r.value.1 <==> Trim(curl(url).value) == "200")
  {
    var url := ScanUrl(FormatHost(p, ip));
    match curl(url)
    case None => Err(UnknownError)
    case Some(output) =>
      match p.urlHost(url)
      case None => Err(UrlParsePanic)
      case Some(host) => Ok((host, Trim(output) == "200"))
  }

  /** An answer counts as reachable exactly when its trimmed text is "200": surrounding
      whitespace and line breaks do not matter. */
  lemma VerdictIgnoresWhitespace(p: Parsers, ip: string, curl: string -> Option<string>, pre: string, post: string)
    requires forall k :: 0 <= k < |pre| ==> IsWhitespace(pre[k])
    requires forall k :: 0 <= k < |post| ==> IsWhitespace(post[k])
    requires var url := ScanUrl(FormatHost(p, ip));
      curl(url) == Some(pre + "200" + post) && p.urlHost(url).Some?
    ensures IsIpReachable(p, ip, curl).Ok? && IsIpReachable(p, ip, curl).value.1
  {
    var s := pre + "200" + post;
    assert s == pre + ("200" + post);
    TrimStartPrefix(pre, "200" + post, IsWhitespace);
    TrimEndSuffix("200", post, IsWhitespace);
  }

  /** The host a reachable IPv6 candidate reports, once its brackets are stripped, is the
      candidate's own text, when the URL library reads back the host that was written. */
  lemma StrippedHostIsCandidate(p: Parsers, ip: string, curl: string -> Option<string>)
    requires p.parseNetwork(ip).Some? && p.parseNetwork(ip).value.ip.family == V6
    requires ip == [] || (!IsBracket(ip[0]) && !IsBracket(ip[|ip| - 1]))
    requires var url := ScanUrl(FormatHost(p, ip));
      curl(url).Some? && p.urlHost(url) == Some("[" + ip + "]")
    ensures IsIpReachable(p, ip, curl).Ok?
    ensures TrimWhile(IsIpReachable(p, ip, curl).value.0, IsBracket) == ip
  {
    UnwrapFormattedV6(p, ip);
  }

  // ----- Collecting and sorting the reachable hosts -----

  /** The hosts the probe workers send on: those whose probe succeeded with a 200. */
  function Reachable(outcomes: seq<Result<(string, bool), ProbeError>>): (r: seq<string>)
    ensures forall h :: h in r <==> Ok((h, true)) in outcomes
    ensures |r| <= |outcomes|
  {
    if outcomes == [] then []
    else
      var rest := Reachable(outcomes[1..]);
      assert forall o :: o in outcomes <==> o == outcomes[0] || o in outcomes[1..];
      if outcomes[0].Ok? && outcomes[0].value.1 then [outcomes[0].value.0] + rest else rest
  }

  /** One host per successful probe: a host is collected as many times as a probe of it
      answered 200, so repeated candidates are kept, not merged. */
  lemma {:induction false} ReachableCountsProbes(outcomes: seq<Result<(string, bool), ProbeError>>, h: string)
    ensures multiset(Reachable(outcomes))[h] == multiset(outcomes)[Ok((h, true))]
  {
    if outcomes != [] {
      ReachableCountsProbes(outcomes[1..], h);
      assert outcomes == [outcomes[0]] + outcomes[1..];
      assert multiset(outcomes) == multiset{outcomes[0]} + multiset(outcomes[1..]);
    }
  }

  /** A host with IPv6 brackets trimmed off both ends. */
  function StripBrackets(host: string): string { TrimWhile(host, IsBracket) }

  /** Each host with its brackets trimmed, in the order received. */
  function Unbracketed(hosts: seq<string>): (r: seq<string>)
    ensures |r| == |hosts| && forall i :: 0 <= i < |hosts| ==> r[i] == StripBrackets(hosts[i])
  {
    MapAt(hosts, StripBrackets);
    Map(hosts, StripBrackets)
  }

  /** Whether a host is not an address, as the comparator sees it. */
  function NotAddress(p: Parsers): string -> bool {
    s => !IsAddress(p, s)
  }

  /** Lines 287-294: receive each reachable host, strip its brackets, then sort with the
      comparator. The result is a permutation of the stripped hosts, sorted; addresses come
      first, in address order; the other hosts keep the order in which they arrived. */
  method CollectReachable(p: Parsers, outcomes: seq<Result<(string, bool), ProbeError>>)
    returns (reachableIps: seq<string>)
    ensures multiset(reachableIps) == multiset(Unbracketed(Reachable(outcomes)))
    ensures SortedBy(reachableIps, HostOrder(p))
    ensures forall i, j :: 0 <= i < j < |reachableIps| && IsAddress(p, reachableIps[j]) ==>
      IsAddress(p, reachableIps[i])
    ensures forall i, j :: 0 <= i < j < |reachableIps| && IsAddress(p, reachableIps[i]) && IsAddress(p, reachableIps[j]) ==>
      CompareAddr(p.parseAddr(reachableIps[i]).value, p.parseAddr(reachableIps[j]).value) != Greater
    ensures Filter(reachableIps, NotAddress(p)) == Filter(Unbracketed(Reachable(outcomes)), NotAddress(p))
  {
    var received := Reachable(outcomes);
    reachableIps := [];
    for i := 0 to |received|
      invariant reachableIps == Map(received[..i], StripBrackets)
    {
      var cleanedIp := TrimWhile(received[i], IsBracket);
      MapSnoc(received, i, StripBrackets);
      reachableIps := reachableIps + [cleanedIp];
    }
    assert received[..|received|] == received;
    assert reachableIps == Unbracketed(received);
    var collected := reachableIps;
    reachableIps := SortBy(collected, HostOrder(p));
    HostOrderIsTotalPreorder(p);
    SortBySorted(collected, HostOrder(p));
    NonAddressesTie(p);
    SortByStable(collected, HostOrder(p), NotAddress(p));
    SortedHostsShape(p, reachableIps);
  }

  /** The comparator puts all non-addresses in one class. */
  lemma NonAddressesTie(p: Parsers)
    ensures forall a, b :: NotAddress(p)(a) && NotAddress(p)(b) ==> HostOrder(p)(a, b) == Equal
  {}

  /** What sortedness under the comparator means for a list of hosts. */
  lemma SortedHostsShape(p: Parsers, s: seq<string>)
    requires SortedBy(s, HostOrder(p))
    ensures forall i, j :: 0 <= i < j < |s| && IsAddress(p, s[j]) ==> IsAddress(p, s[i])
    ensures forall i, j :: 0 <= i < j < |s| && IsAddress(p, s[i]) && IsAddress(p, s[j]) ==>
      CompareAddr(p.parseAddr(s[i]).value, p.parseAddr(s[j]).value) != Greater
  {
    forall i, j | 0 <= i < j < |s| && IsAddress(p, s[j]) ensures IsAddress(p, s[i]) {
      assert HostOrder(p)(s[i], s[j]) != Greater;
    }
    forall i, j | 0 <= i < j < |s| && IsAddress(p, s[i]) && IsAddress(p, s[j])
      ensures CompareAddr(p.parseAddr(s[i]).value, p.parseAddr(s[j]).value) != Greater
    {
      assert HostOrder(p)(s[i], s[j]) != Greater;
    }
  }
}
