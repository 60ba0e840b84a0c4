/**
 * Candidate expansion of src/utils/network.rs: one input token (CIDR block, bare address or
 * anything else) becomes the list of probe targets, and `process_ip_cidr_hosts` gathers the
 * lists of all tokens and shuffles them.
 *
 * Random draws are supplied by the caller as offsets into the block: a draw d < Size(n)
 * stands for `gen_range(0..=max_host_value)`, `gen_range(0..ip_range)` and, as
 * `network + d`, for `gen_range(lower..=upper)`. The rejection loops consume draws until they
 * are done; when the supplied draws run out first the result is None (the Rust loop would
 * keep drawing).
 */
module NetworkHosts {
  import opened Wrappers
  import opened Collections
  import opened IpModel

  /** Every draw is an offset inside the block. */
  predicate DrawsBelow(draws: seq<nat>, size: nat) {
    forall i :: 0 <= i < |draws| ==> draws[i] < size
  }

  /** The draws a token receives fit the block it parses as, if it parses as one. */
  predicate DrawsFit(p: Parsers, token: string, draws: seq<nat>) {
    p.parseNetwork(token).Some? ==> DrawsBelow(draws, Size(p.parseNetwork(token).value))
  }

  /** s is the printed form of a valid address inside block n. */
  ghost predicate InBlock(p: Parsers, n: Network, s: string) {
    exists a: IpAddr :: ValidAddr(a) && Contains(n, a) && s == p.show(a)
  }

  ghost predicate AllInBlock(p: Parsers, n: Network, out: seq<string>) {
    forall s :: s in out ==> InBlock(p, n, s)
  }

  // ----- Branch 1: one random address per block -----

  /** Largest host value the single draw may take, 2^(width - prefix) - 1, computed without
      overflow. */
  function MaxHost(n: Network): nat { Size(n) - 1 }

  /** `(1 << host_part_len) - 1` as written, in the address's own width: the shift amount
      reaches the width when the prefix is 0, and Rust's release builds then shift by the
      amount modulo the width, that is by 0 (debug builds panic). */
  function MaxHostAsWritten(n: Network): nat {
    var shift := if HostBits(n) == Width(n.ip.family) then 0 else HostBits(n);
    Pow2(shift) - 1
  }

  /** `network | random_host` with the draw bounded by MaxHostAsWritten. */
  function RandomHostAsWritten(n: Network, r: nat): IpAddr
    requires r <= MaxHostAsWritten(n)
  {
    IpAddr(n.ip.family, BitOr(NetworkBits(n), r))
  }

  /** For any prefix but 0 the written bound is the intended one. */
  lemma MaxHostAsWrittenAgrees(n: Network)
    requires n.prefix > 0
    ensures MaxHostAsWritten(n) == MaxHost(n)
  {}

  /** For prefix 0 (`0.0.0.0/0`, `::/0`) the written bound is 0, so every draw yields the
      network address, although the block holds at least two addresses. */
  lemma ZeroPrefixDrawsOnlyNetworkAddress(n: Network)
    requires n.prefix == 0
    ensures MaxHostAsWritten(n) == 0 && Size(n) >= 2
    ensures forall r: nat :: r <= MaxHostAsWritten(n) ==> RandomHostAsWritten(n, r) == HostAddr(n, 0)
    ensures Contains(n, HostAddr(n, 1)) && HostAddr(n, 1) != HostAddr(n, 0)
  {
    assert HostBits(n) == Width(n.ip.family);
    assert Size(n) == 2 * Pow2(HostBits(n) - 1);
    HostAddrInNetwork(n, 1);
  }

  /** Branch 1's address inside a block: `network | r` for a draw r <= MaxHost(n). Because the
      network address has its host bits clear, the OR is the sum `network + r`, and the
      result lies in the block. */
  function RandomHost(n: Network, r: nat): (a: IpAddr)
    requires r <= MaxHost(n)
    ensures a == HostAddr(n, r)
    ensures ValidAddr(a) && Contains(n, a)
  {
    ClearLowBitsAdd(n.ip.bits, HostBits(n), 0);
    BitOrDisjoint(NetworkBits(n), r, HostBits(n));
    HostAddrInNetwork(n, r);
    IpAddr(n.ip.family, BitOr(NetworkBits(n), r))
  }

  /** A full-length prefix (/32, /128) leaves a single draw, 0, and yields the network
      address itself. */
  lemma FullPrefixDrawsNetworkAddress(n: Network, r: nat)
    requires n.prefix == Width(n.ip.family) && r <= MaxHost(n)
    ensures r == 0 && RandomHost(n, r) == IpAddr(n.ip.family, NetworkBits(n))
    ensures RandomHost(n, r) == n.ip
  {
    assert HostBits(n) == 0;
  }

  /** Every address of the block is the outcome of some allowed draw. */
  lemma RandomHostCoversBlock(n: Network, a: IpAddr)
    requires Contains(n, a)
    ensures exists r: nat :: r <= MaxHost(n) && RandomHost(n, r) == a
  {
    ContainsRange(n, a);
    var r := a.bits - NetworkBits(n);
    assert RandomHost(n, r) == a;
  }

  /** The arms shared by both branches when a token is not a block: a bare address is
      printed in canonical form, anything else is passed on unchanged. */
  function PassThrough(p: Parsers, token: string): (r: seq<string>)
    ensures |r| == 1
  {
    match p.parseAddr(token)
    case Some(a) => [p.show(a)]
    case None => [token]
  }

  /** Passing a token through never changes the address it denotes, and doing it twice is
      doing it once. */
  lemma PassThroughPreservesAddress(p: Parsers, token: string)
    requires ShowRoundTrips(p)
    ensures p.parseAddr(PassThrough(p, token)[0]) == p.parseAddr(token)
    ensures PassThrough(p, PassThrough(p, token)[0]) == PassThrough(p, token)
  {
    if p.parseAddr(token).Some? {
      var a := p.parseAddr(token).value;
      assert p.parseAddr(p.show(a)) == Some(a);
    }
  }

  /** `generate_ip_and_check_ip_type`: one draw per token. */
  function GenerateSingle(p: Parsers, token: string, draw: nat): (r: seq<string>)
    requires p.parseNetwork(token).Some? ==> draw <= MaxHost(p.parseNetwork(token).value)
    ensures |r| == 1
    ensures p.parseNetwork(token).Some? ==> InBlock(p, p.parseNetwork(token).value, r[0])
    ensures p.parseNetwork(token).None? ==> r == PassThrough(p, token)
  {
    match p.parseNetwork(token)
    case Some(n) => [p.show(RandomHost(n, draw))]
    case None => PassThrough(p, token)
  }

  /** A bare address takes the block path (ipnetwork reads it as /32 or /128), and that path
      gives the same single canonical address as the bare-address arm. */
  lemma BareAddrSameOnBothPaths(p: Parsers, token: string, draw: nat)
    requires BareAddrIsHostNetwork(p) && p.parseAddr(token).Some?
    requires draw <= MaxHost(p.parseNetwork(token).value)
    ensures GenerateSingle(p, token, draw) == [p.show(p.parseAddr(token).value)]
  {
    var a := p.parseAddr(token).value;
    var n := p.parseNetwork(token).value;
    assert n == IpNetwork(a, Width(a.family));
    assert HostBits(n) == 0 && draw == 0;
    assert RandomHost(n, draw) == a;
  }

  // ----- Branch 2: up to `count` addresses per block -----

  /** The set of values the draws render to. */
  function Rendered<T>(draws: seq<nat>, render: nat -> T): set<T> {
    set d | d in draws :: render(d)
  }

  /** Rendering an offset of block n as its printed address. */
  function ShowAt(p: Parsers, n: Network): nat -> string {
    (d: nat) => p.show(HostAddr(n, d))
  }

  /** The printed addresses the draws name. */
  function Shown(p: Parsers, n: Network, draws: seq<nat>): set<string> {
    Rendered(draws, ShowAt(p, n))
  }

  lemma ShownInBlock(p: Parsers, n: Network, draws: seq<nat>)
    requires DrawsBelow(draws, Size(n))
    ensures forall s :: s in Shown(p, n, draws) ==> InBlock(p, n, s)
  {
    forall s | s in Shown(p, n, draws) ensures InBlock(p, n, s) {
      var d :| d in draws && s == ShowAt(p, n)(d);
      HostAddrInNetwork(n, d);
    }
  }

  lemma RenderedExtend<T>(draws: seq<nat>, i: nat, render: nat -> T)
    requires i < |draws|
    ensures Rendered(draws[..i + 1], render) == Rendered(draws[..i], render) + {render(draws[i])}
  {
    assert draws[..i + 1] == draws[..i] + [draws[i]];
  }

  /** The loop of `generate_random_ipv6_in_cidr` (and of main.rs's sampler): draw, keep what
      is not yet in the vector, until it holds `count` elements. */
  method SampleDistinct<T(==)>(count: nat, draws: seq<nat>, render: nat -> T)
    returns (r: Option<seq<T>>)
    ensures r.Some? ==> |r.value| == count && NoDups(r.value)
    ensures r.Some? ==> forall x :: x in r.value ==> x in Rendered(draws, render)
    ensures r.None? <==> |Rendered(draws, render)| < count
  {
    var generated: seq<T> := [];
    var i := 0;
    while |generated| < count
      invariant i <= |draws|
      invariant NoDups(generated) && |generated| <= count
      invariant Elems(generated) == Rendered(draws[..i], render)
      decreases |draws| - i
    {
      if i == |draws| {
        assert draws[..i] == draws;
        NoDupsCard(generated);
        r := None;
        return;
      }
      var x := render(draws[i]);
      RenderedExtend(draws, i, render);
      i := i + 1;
      if x !in generated {
        assert Elems(generated + [x]) == Elems(generated) + {x};
        generated := generated + [x];
      }
    }
    NoDupsCard(generated);
    SubsetCard(Rendered(draws[..i], render), Rendered(draws, render));
    r := Some(generated);
  }

  /** `generate_random_ipv4_in_cidr`: insert printed addresses into a set until it holds
      `count` of them or the whole block, then list the set in unspecified order. */
  method SampleV4(p: Parsers, n: Network, count: nat, draws: seq<nat>) returns (r: Option<seq<string>>)
    requires n.ip.family == V4
    requires DrawsBelow(draws, Size(n))
    ensures r.Some? ==> |r.value| == Min(count, Size(n)) && NoDups(r.value)
    ensures r.Some? ==> AllInBlock(p, n, r.value)
    ensures r.Some? ==> forall s :: s in r.value ==> s in Shown(p, n, draws)
    ensures r.None? <==> |Shown(p, n, draws)| < Min(count, Size(n))
  {
    var unique: set<string> := {};
    var range := Size(n);
    var i := 0;
    while |unique| < count && |unique| < range
      invariant i <= |draws|
      invariant |unique| <= Min(count, range)
      invariant unique == Shown(p, n, draws[..i])
      decreases |draws| - i
    {
      if i == |draws| {
        assert draws[..i] == draws;
        r := None;
        return;
      }
      var host := draws[i];
      var ip := HostAddr(n, host);
      HostAddrInNetwork(n, host);
      RenderedExtend(draws, i, ShowAt(p, n));
      i := i + 1;
      if Contains(n, ip) {
        unique := unique + {p.show(ip)};
      }
    }
    SubsetCard(Shown(p, n, draws[..i]), Shown(p, n, draws));
    ShownInBlock(p, n, draws);
    var listed := SetToSeq(unique);
    r := Some(listed);
  }

  /** The whole block in ascending order, as `IpNetwork::iter` yields it, printed. */
  function Enumerate(p: Parsers, n: Network): seq<string> {
    seq(Size(n), i requires 0 <= i < Size(n) => p.show(HostAddr(n, i)))
  }

  /** The enumeration is exact: it lists valid addresses of the block in strictly ascending
      order, misses none, and repeats none once printing is injective. */
  lemma EnumerationIsExact(p: Parsers, n: Network)
    ensures |Enumerate(p, n)| == Size(n)
    ensures forall i :: 0 <= i < Size(n) ==>
      ValidAddr(HostAddr(n, i)) && Contains(n, HostAddr(n, i)) && Enumerate(p, n)[i] == p.show(HostAddr(n, i))
    ensures forall i, j :: 0 <= i < j < Size(n) ==> HostAddr(n, i).bits < HostAddr(n, j).bits
    ensures forall a :: ValidAddr(a) && Contains(n, a) ==> p.show(a) in Enumerate(p, n)
    ensures ShowRoundTrips(p) ==> NoDups(Enumerate(p, n))
  {
    forall i | 0 <= i < Size(n) ensures ValidAddr(HostAddr(n, i)) && Contains(n, HostAddr(n, i)) {
      HostAddrInNetwork(n, i);
    }
    forall a | ValidAddr(a) && Contains(n, a) ensures p.show(a) in Enumerate(p, n) {
      ContainsRange(n, a);
      assert Enumerate(p, n)[a.bits - NetworkBits(n)] == p.show(a);
    }
    if ShowRoundTrips(p) {
      forall i, j | 0 <= i < j < Size(n) ensures Enumerate(p, n)[i] != Enumerate(p, n)[j] {
        HostAddrInNetwork(n, i);
        HostAddrInNetwork(n, j);
        assert p.parseAddr(Enumerate(p, n)[i]) == Some(HostAddr(n, i));
        assert p.parseAddr(Enumerate(p, n)[j]) == Some(HostAddr(n, j));
      }
    }
  }

  /** `generate_random_ipv6_in_cidr`: below prefix 119 sample `count` distinct addresses,
      from 119 on list the whole block (at most 512 addresses), whatever `count` is. */
  method SampleV6(p: Parsers, n: Network, count: nat, draws: seq<nat>) returns (r: Option<seq<string>>)
    requires n.ip.family == V6
    requires DrawsBelow(draws, Size(n))
    ensures n.prefix < 119 && r.Some? ==> |r.value| == count && NoDups(r.value) && AllInBlock(p, n, r.value)
    ensures n.prefix < 119 ==> (r.None? <==> |Shown(p, n, draws)| < count)
    ensures n.prefix >= 119 ==> r == Some(Enumerate(p, n))
  {
    if n.prefix < 119 {
      r := SampleDistinct(count, draws, ShowAt(p, n));
      ShownInBlock(p, n, draws);
    } else {
      r := Some(Enumerate(p, n));
    }
  }

  /** No supply of draws lets the sampling loop finish when more addresses are asked for
      than the block holds: the Rust loop then runs forever. */
  lemma SamplingOverfullBlockNeverEnds(p: Parsers, n: Network, count: nat, draws: seq<nat>)
    requires DrawsBelow(draws, Size(n)) && count > Size(n)
    ensures |Shown(p, n, draws)| < count
  {
    var offsets: set<nat> := set d | d in draws;
    ImageCard(offsets, ShowAt(p, n));
    assert Shown(p, n, draws) == Image(offsets, ShowAt(p, n));
    forall d | d in offsets ensures d < Size(n) {
      var i :| 0 <= i < |draws| && draws[i] == d;
    }
    BoundedNatSetCard(offsets, Size(n));
  }

  /** With injective printing, the draws name as many distinct addresses as they hold
      distinct offsets: the samplers finish exactly when the draws contain enough distinct
      offsets. */
  lemma ShownCountsDistinctDraws(p: Parsers, n: Network, draws: seq<nat>)
    requires ShowRoundTrips(p) && DrawsBelow(draws, Size(n))
    ensures |Shown(p, n, draws)| == |Elems(draws)|
  {
    var offsets: set<nat> := set d | d in draws;
    forall d1, d2 | d1 in offsets && d2 in offsets && ShowAt(p, n)(d1) == ShowAt(p, n)(d2)
      ensures d1 == d2
    {
      HostAddrInNetwork(n, d1);
      HostAddrInNetwork(n, d2);
      ShowInjective(p, HostAddr(n, d1), HostAddr(n, d2));
    }
    InjectiveImageCard(offsets, ShowAt(p, n));
    assert Shown(p, n, draws) == Image(offsets, ShowAt(p, n));
    assert offsets == Elems(draws);
  }

  /** What branch 2 (`generate_ip_and_check_ip_type2`) promises for one token, for any count. */
  ghost predicate IsSampledExpansion(p: Parsers, token: string, count: nat, out: seq<string>) {
    match p.parseNetwork(token)
    case None => out == PassThrough(p, token)
    case Some(n) =>
      if n.ip.family == V4 then |out| == Min(count, Size(n)) && NoDups(out) && AllInBlock(p, n, out)
      else if n.prefix < 119 then |out| == count && NoDups(out) && AllInBlock(p, n, out)
      else out == Enumerate(p, n)
  }

  /** What one token expands to, as the source promises it, branch by branch: one address
      when count <= 1, the sampled batch otherwise. */
  ghost predicate IsExpansion(p: Parsers, token: string, count: nat, out: seq<string>) {
    match p.parseNetwork(token)
    case None => out == PassThrough(p, token)
    case Some(n) =>
      if count <= 1 then |out| == 1 && InBlock(p, n, out[0])
      else IsSampledExpansion(p, token, count, out)
  }

  /** Above a count of one the dispatcher's promise is exactly branch 2's promise. */
  lemma SampledIsExpansion(p: Parsers, token: string, count: nat, out: seq<string>)
    ensures count > 1 ==> (IsSampledExpansion(p, token, count, out) <==> IsExpansion(p, token, count, out))
  {
  }

  /** The draws are enough for branch 2 to finish: a sampler gets as many distinct addresses
      as it must collect, and enumeration and pass-through need none. */
  ghost predicate SampledDrawsSuffice(p: Parsers, token: string, count: nat, draws: seq<nat>) {
    match p.parseNetwork(token)
    case None => true
    case Some(n) =>
      if n.ip.family == V4 then |Shown(p, n, draws)| >= Min(count, Size(n))
      else n.prefix >= 119 || |Shown(p, n, draws)| >= count
  }

  /** The draws are enough for the worker: branch 1 on a block needs one draw. */
  ghost predicate DrawsSuffice(p: Parsers, token: string, count: nat, draws: seq<nat>) {
    if count <= 1 then p.parseNetwork(token).None? || draws != []
    else SampledDrawsSuffice(p, token, count, draws)
  }

  /** `generate_ip_and_check_ip_type2`. */
  method GenerateSampled(p: Parsers, token: string, count: nat, draws: seq<nat>)
    returns (r: Option<seq<string>>)
    requires DrawsFit(p, token, draws)
    ensures r.Some? ==> IsSampledExpansion(p, token, count, r.value)
    ensures r.None? <==> !SampledDrawsSuffice(p, token, count, draws)
    ensures p.parseNetwork(token).None? ==> r == Some(PassThrough(p, token))
  {
    match p.parseNetwork(token)
    case Some(n) =>
      if n.ip.family == V6 {
        r := SampleV6(p, n, count, draws);
      } else {
        r := SampleV4(p, n, count, draws);
      }
    case None =>
      r := Some(PassThrough(p, token));
  }

  /** The `demo4` call `generate_ip_and_check_ip_type2("github.com", 1)`: a host name that is
      neither a block nor an address comes back as itself, whatever the draws. */
  method HostNameSampledAsItself(p: Parsers, draws: seq<nat>) returns (r: Option<seq<string>>)
    requires p.parseNetwork("github.com").None? && p.parseAddr("github.com").None?
    ensures r == Some(["github.com"])
  {
    r := GenerateSampled(p, "github.com", 1, draws);
  }

  /** Branch 2 on a bare address: ipnetwork reads it as a /32 or /128 block, and whatever the
      sampler or the enumeration returns for that block is the single canonical address. */
  lemma BareAddrSampledOnce(p: Parsers, token: string, count: nat, out: seq<string>)
    requires BareAddrIsHostNetwork(p) && p.parseAddr(token).Some? && count >= 1
    requires IsSampledExpansion(p, token, count, out)
    ensures out == [p.show(p.parseAddr(token).value)]
  {
    var a := p.parseAddr(token).value;
    var n := p.parseNetwork(token).value;
    assert n == IpNetwork(a, Width(a.family));
    assert HostBits(n) == 0 && Size(n) == 1 && NetworkBits(n) == a.bits;
    if a.family == V4 {
      assert |out| == 1 && InBlock(p, n, out[0]);
      var b: IpAddr :| ValidAddr(b) && Contains(n, b) && out[0] == p.show(b);
      assert b == a;
      assert out == [out[0]];
    } else {
      assert out == Enumerate(p, n);
      assert HostAddr(n, 0) == a;
    }
  }

  /** One worker of `process_ip_cidr_hosts`: branch 1 when count <= 1, branch 2 otherwise. */
  method GenerateForToken(p: Parsers, token: string, count: nat, draws: seq<nat>)
    returns (r: Option<seq<string>>)
    requires DrawsFit(p, token, draws)
    ensures r.Some? ==> IsExpansion(p, token, count, r.value)
    ensures r.None? <==> !DrawsSuffice(p, token, count, draws)
    ensures r.None? ==> p.parseNetwork(token).Some?
  {
    if count > 1 {
      r := GenerateSampled(p, token, count, draws);
      if r.Some? {
        SampledIsExpansion(p, token, count, r.value);
      }
    } else if p.parseNetwork(token).Some? && draws == [] {
      r := None;
    } else {
      r := Some(GenerateSingle(p, token, if draws == [] then 0 else draws[0]));
    }
  }

  /** The tokens' expansions, one batch per token. */
  ghost predicate ExpandsTo(p: Parsers, tokens: seq<string>, count: nat, parts: seq<seq<string>>) {
    |parts| == |tokens| && forall i :: 0 <= i < |tokens| ==> IsExpansion(p, tokens[i], count, parts[i])
  }

  /** `process_ip_cidr_hosts`: every token's batch is gathered (in whatever order the pool
      delivers them) and the whole is shuffled. The result is a permutation of the batches'
      concatenation: nothing dropped, nothing deduplicated across tokens. It fails exactly
      when some token's draws run out. */
  method ProcessIpCidrHosts(p: Parsers, tokens: seq<string>, count: nat, draws: seq<seq<nat>>)
    returns (r: Option<seq<string>>)
    requires |draws| == |tokens|
    requires forall i :: 0 <= i < |tokens| ==> DrawsFit(p, tokens[i], draws[i])
    ensures r.Some? ==>
      exists parts :: ExpandsTo(p, tokens, count, parts) && multiset(r.value) == multiset(Flatten(parts))
    ensures r.None? <==> exists i :: 0 <= i < |tokens| && !DrawsSuffice(p, tokens[i], count, draws[i])
    ensures r.None? ==> exists i :: 0 <= i < |tokens| && p.parseNetwork(tokens[i]).Some?
  {
    var ips: seq<string> := [];
    ghost var parts: seq<seq<string>> := [];
    for i := 0 to |tokens|
      invariant |parts| == i
      invariant forall k :: 0 <= k < i ==> IsExpansion(p, tokens[k], count, parts[k])
      invariant forall k :: 0 <= k < i ==> DrawsSuffice(p, tokens[k], count, draws[k])
      invariant ips == Flatten(parts)
    {
      var batch := GenerateForToken(p, tokens[i], count, draws[i]);
      if batch.None? {
        r := None;
        return;
      }
      assert (parts + [batch.value])[..|parts|] == parts;
      ips := ips + batch.value;
      parts := parts + [batch.value];
    }
    ips := Shuffle(ips);
    assert ExpandsTo(p, tokens, count, parts);
    r := Some(ips);
  }
}
