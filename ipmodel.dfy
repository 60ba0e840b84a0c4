/**
 * Addresses and networks as numbers: `std::net::IpAddr` is a family and a natural below
 * 2^32 or 2^128, and `ipnetwork::IpNetwork` is the address as written with a prefix length.
 * The textual side (parsing and printing addresses, networks and URLs) belongs to the std,
 * ipnetwork and url crates and is kept uninterpreted: a `Parsers` value carries those
 * functions, and what the model needs of them is stated as predicates over it.
 */
module IpModel {
  import opened Wrappers
  import opened Text

  function Pow2(n: nat): (r: nat)
    ensures r >= 1
  {
    if n == 0 then 1 else 2 * Pow2(n - 1)
  }

  datatype Family = V4 | V6

  function Width(f: Family): nat {
    match f
    case V4 => 32
    case V6 => 128
  }

  /** An address: its family and its value as an unsigned integer of the family's width. */
  datatype IpAddr = IpAddr(family: Family, bits: nat)

  predicate ValidAddr(a: IpAddr) { a.bits < Pow2(Width(a.family)) }

  type Addr = a: IpAddr | ValidAddr(a) witness IpAddr(V4, 0)

  /** A CIDR block as ipnetwork keeps it: the address as written (host bits not cleared)
      and the prefix length, which never exceeds the width. */
  datatype IpNetwork = IpNetwork(ip: Addr, prefix: nat)

  type Network = n: IpNetwork | n.prefix <= Width(n.ip.family)
    witness IpNetwork(IpAddr(V4, 0), 0)

  function HostBits(n: Network): nat { Width(n.ip.family) - n.prefix }

  /** Number of addresses in the block, 2^(width - prefix). */
  function Size(n: Network): nat { Pow2(HostBits(n)) }

  /** `x & !(2^h - 1)`: x with its h low bits cleared. */
  function ClearLowBits(x: nat, h: nat): nat {
    if h == 0 then x else 2 * ClearLowBits(x / 2, h - 1)
  }

  /** `network()`: the written address with its host bits cleared. */
  function NetworkBits(n: Network): nat { ClearLowBits(n.ip.bits, HostBits(n)) }

  /** `broadcast()`: the written address with its host bits set. */
  function BroadcastBits(n: Network): nat { NetworkBits(n) + Size(n) - 1 }

  /** `network + host`: the address at offset d from the start of the block. */
  function HostAddr(n: Network, d: nat): IpAddr { IpAddr(n.ip.family, NetworkBits(n) + d) }

  /** `contains`: same family, and masking the host bits gives the network address. */
  predicate Contains(n: Network, a: IpAddr) {
    a.family == n.ip.family && ClearLowBits(a.bits, HostBits(n)) == NetworkBits(n)
  }

  /** Clearing the low h bits goes down by less than 2^h. */
  lemma {:induction false} ClearLowBitsBounds(x: nat, h: nat)
    ensures ClearLowBits(x, h) <= x < ClearLowBits(x, h) + Pow2(h)
  {
    if h > 0 { ClearLowBitsBounds(x / 2, h - 1); }
  }

  /** Adding less than 2^h to a cleared value leaves its high bits alone. */
  lemma {:induction false} ClearLowBitsAdd(x: nat, h: nat, d: nat)
    requires d < Pow2(h)
    ensures ClearLowBits(ClearLowBits(x, h) + d, h) == ClearLowBits(x, h)
  {
    if h > 0 {
      ClearLowBitsAdd(x / 2, h - 1, d / 2);
      assert (ClearLowBits(x, h) + d) / 2 == ClearLowBits(x / 2, h - 1) + d / 2;
    }
  }

  /** A cleared value plus less than 2^h stays below 2^w when x did. */
  lemma {:induction false} ClearLowBitsFits(x: nat, h: nat, w: nat, d: nat)
    requires h <= w && x < Pow2(w) && d < Pow2(h)
    ensures ClearLowBits(x, h) + d < Pow2(w)
  {
    if h > 0 {
      ClearLowBitsFits(x / 2, h - 1, w - 1, d / 2);
    }
  }

  /** Every offset below the block size names a valid address inside the block: the
      `network + host` of the samplers never overflows and always passes `contains`. */
  lemma HostAddrInNetwork(n: Network, d: nat)
    requires d < Size(n)
    ensures ValidAddr(HostAddr(n, d)) && Contains(n, HostAddr(n, d))
  {
    ClearLowBitsFits(n.ip.bits, HostBits(n), Width(n.ip.family), d);
    ClearLowBitsAdd(n.ip.bits, HostBits(n), d);
  }

  /** Membership is the range [network, broadcast]; every member is HostAddr of its offset. */
  lemma ContainsRange(n: Network, a: IpAddr)
    ensures Contains(n, a) <==>
      a.family == n.ip.family && NetworkBits(n) <= a.bits <= BroadcastBits(n)
    ensures Contains(n, a) ==> a == HostAddr(n, a.bits - NetworkBits(n))
  {
    ClearLowBitsBounds(a.bits, HostBits(n));
    if a.family == n.ip.family && NetworkBits(n) <= a.bits <= BroadcastBits(n) {
      ClearLowBitsAdd(n.ip.bits, HostBits(n), a.bits - NetworkBits(n));
    }
  }

  /** Bitwise OR on unsigned integers, bit by bit from the least significant end. */
  function BitOr(a: nat, b: nat): nat
    decreases a + b
  {
    if a == 0 then b
    else if b == 0 then a
    else 2 * BitOr(a / 2, b / 2) + (if a % 2 == 1 || b % 2 == 1 then 1 else 0)
  }

  /** When a has its low h bits clear and b fits in h bits, `a | b` is `a + b`. */
  lemma {:induction false} BitOrDisjoint(a: nat, b: nat, h: nat)
    requires ClearLowBits(a, h) == a && b < Pow2(h)
    ensures BitOr(a, b) == a + b
  {
    if a != 0 && b != 0 {
      assert h > 0;
      BitOrDisjoint(a / 2, b / 2, h - 1);
    }
  }

  /** `Ord for IpAddr` (derived): every IPv4 address before every IPv6 address, then by value. */
  function CompareAddr(a: IpAddr, b: IpAddr): Ordering {
    if a.family != b.family then (if a.family == V4 then Less else Greater)
    else if a.bits < b.bits then Less
    else if a.bits > b.bits then Greater
    else Equal
  }

  /** CompareAddr is a total order: antisymmetric, Equal only on equal addresses, transitive. */
  lemma CompareAddrTotalOrder(a: IpAddr, b: IpAddr, c: IpAddr)
    ensures CompareAddr(b, a) == Flip(CompareAddr(a, b))
    ensures CompareAddr(a, b) == Equal <==> a == b
    ensures CompareAddr(a, b) != Greater && CompareAddr(b, c) != Greater
      ==> CompareAddr(a, c) != Greater
  {}

  /**
   * The string-level functions of the crates the scanner calls, left uninterpreted:
   * `parseNetwork` is `str::parse::<IpNetwork>`, `parseAddr` is `str::parse::<IpAddr>`,
   * `show` is `IpAddr::to_string`, and `urlHost` is `Url::parse(..).host_str()`
   * (None when the URL does not parse, Some("") when it has no host).
   */
  datatype Parsers = Parsers(
    parseNetwork: string -> Option<Network>,
    parseAddr: string -> Option<Addr>,
    show: IpAddr -> string,
    urlHost: string -> Option<string>)

  /** Printing an address and parsing the text back gives the address. */
  ghost predicate ShowRoundTrips(p: Parsers) {
    forall a: Addr :: p.parseAddr(p.show(a)) == Some(a)
  }

  /** ipnetwork accepts a bare address as a network of full prefix length (/32 or /128). */
  ghost predicate BareAddrIsHostNetwork(p: Parsers) {
    forall s :: p.parseAddr(s).Some? ==>
      p.parseNetwork(s) == Some(IpNetwork(p.parseAddr(s).value, Width(p.parseAddr(s).value.family)))
  }

  /** Distinct addresses print differently. */
  lemma ShowInjective(p: Parsers, a: Addr, b: Addr)
    requires ShowRoundTrips(p) && p.show(a) == p.show(b)
    ensures a == b
  {
    assert p.parseAddr(p.show(a)) == Some(a);
    assert p.parseAddr(p.show(b)) == Some(b);
  }
}
