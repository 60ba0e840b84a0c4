/**
 * src/utils/common.rs: the comparator that orders scan results (addresses first, in address
 * order, then everything else as one class), and the unit `format_duration` picks.
 * src/main.rs carries an identical copy of both (`custom_ip_sort`, `format_duration`).
 */
module Common {
  import opened Wrappers
  import opened Text
  import opened IpModel
  import opened Sorting

  /** `sort_ips_and_hosts`: both parse as addresses, compare them (`IpAddr::cmp`); an address
      comes before a non-address; two non-addresses are equal. */
  function SortIpsAndHosts(p: Parsers, a: string, b: string): Ordering {
    match (p.parseAddr(a), p.parseAddr(b))
    case (Some(x), Some(y)) => CompareAddr(x, y)
    case (Some(_), None) => Less
    case (None, Some(_)) => Greater
    case (None, None) => Equal
  }

  /** The comparator as the function value handed to `sort_by`. */
  function HostOrder(p: Parsers): (string, string) -> Ordering {
    (a: string, b: string) => SortIpsAndHosts(p, a, b)
  }

  predicate IsAddress(p: Parsers, s: string) { p.parseAddr(s).Some? }

  /** The three cases the comparator distinguishes, stated as the source promises them. */
  lemma SortIpsAndHostsCases(p: Parsers, a: string, b: string)
    ensures IsAddress(p, a) && IsAddress(p, b) ==>
      (SortIpsAndHosts(p, a, b) == Equal <==> p.parseAddr(a) == p.parseAddr(b))
    ensures IsAddress(p, a) && !IsAddress(p, b) ==>
      SortIpsAndHosts(p, a, b) == Less && SortIpsAndHosts(p, b, a) == Greater
    ensures !IsAddress(p, a) && !IsAddress(p, b) ==> SortIpsAndHosts(p, a, b) == Equal
    ensures IsAddress(p, a) && IsAddress(p, b) && p.parseAddr(a).value.family == p.parseAddr(b).value.family ==>
      (SortIpsAndHosts(p, a, b) == Less <==> p.parseAddr(a).value.bits < p.parseAddr(b).value.bits)
  {
    if IsAddress(p, a) && IsAddress(p, b) {
      CompareAddrTotalOrder(p.parseAddr(a).value, p.parseAddr(b).value, p.parseAddr(b).value);
    }
  }

  /** `IpAddr`'s order is variant-first: every IPv4 address comes before every IPv6 one. */
  lemma V4BeforeV6(p: Parsers, a: string, b: string)
    requires IsAddress(p, a) && IsAddress(p, b)
    requires p.parseAddr(a).value.family == V4 && p.parseAddr(b).value.family == V6
    ensures SortIpsAndHosts(p, a, b) == Less && SortIpsAndHosts(p, b, a) == Greater
  {}

  /** The comparator is a total preorder, so sorting by it is meaningful. */
  lemma HostOrderIsTotalPreorder(p: Parsers)
    ensures TotalPreorder(HostOrder(p))
  {
    var cmp := HostOrder(p);
    forall a, b ensures cmp(b, a) == Flip(cmp(a, b)) {
      if IsAddress(p, a) && IsAddress(p, b) {
        CompareAddrTotalOrder(p.parseAddr(a).value, p.parseAddr(b).value, p.parseAddr(b).value);
      }
    }
    forall a, b, c | cmp(a, b) != Greater && cmp(b, c) != Greater ensures cmp(a, c) != Greater {
      if IsAddress(p, a) && IsAddress(p, b) && IsAddress(p, c) {
        CompareAddrTotalOrder(p.parseAddr(a).value, p.parseAddr(b).value, p.parseAddr(c).value);
      }
    }
  }

  // ----- format_duration -----

  const NanosPerSec := 1_000_000_000

  /** `std::time::Duration`: whole seconds and the nanoseconds below one second. */
  datatype Duration = Duration(secs: nat, nanos: nat)
  type Dur = d: Duration | d.nanos < NanosPerSec witness Duration(0, 0)

  function AsNanos(d: Dur): nat { d.secs * NanosPerSec + d.nanos }
  function AsMicros(d: Dur): nat { d.secs * 1_000_000 + d.nanos / 1_000 }
  function AsMillis(d: Dur): nat { d.secs * 1_000 + d.nanos / 1_000_000 }

  datatype TimeUnit = Seconds | Milliseconds | Microseconds | Nanoseconds

  /** `format_duration`: the amount and unit it reports, the first unit in which the
      duration counts at least one whole unit. For seconds the amount is the whole seconds. */
  function FormatDuration(d: Dur): (r: (nat, TimeUnit))
    ensures r.1 == Seconds <==> AsNanos(d) >= 1_000_000_000
    ensures r.1 == Milliseconds <==> 1_000_000 <= AsNanos(d) < 1_000_000_000
    ensures r.1 == Microseconds <==> 1_000 <= AsNanos(d) < 1_000_000
    ensures r.1 == Nanoseconds <==> AsNanos(d) < 1_000
    ensures r.1 != Seconds ==> r.0 < 1_000
    ensures r.0 == 0 <==> AsNanos(d) == 0
  {
    if d.secs > 0 then (d.secs, Seconds)
    else if AsMillis(d) > 0 then (AsMillis(d), Milliseconds)
    else if AsMicros(d) > 0 then (AsMicros(d), Microseconds)
    else (AsNanos(d), Nanoseconds)
  }
}
