# curl_cdn-cgi_trace_rust, modelled in Dafny

The scanner reads a list of tokens: CIDR blocks, bare IPv4/IPv6 addresses or host names.
It expands every token into probe candidates and shuffles them. It probes each candidate
with curl for Cloudflare's `/cdn-cgi/trace` page, or, in JetBrains mode, for a redirect to
the JetBrains licence server. It then collects the hosts that answered and sorts them:
addresses first, in address order, then host names in arrival order.

This project models the sequential logic of that pipeline and proves what it promises.

- **Candidate expansion** (`network.dfy`, module `NetworkHosts`) covers `src/utils/network.rs`:
  - branch 1 draws one random host per block;
  - branch 2 samples up to `count` distinct hosts, or lists the whole block of an IPv6
    prefix of 119 or more;
  - bare addresses and host names are passed through;
  - `process_ip_cidr_hosts` gathers and shuffles the batches.

  `test/demo1.rs` (`random_ip`), `test/demo3.rs` (`generate_unique_ip_strings`) and
  `test/demo4.rs` are earlier copies of these functions. They are modelled by the same members.
- **Probe** (`curl.dfy`, module `Curl`) covers `run_command_and_process_data`: host
  formatting, the request URL, and the scan of curl's header lines into a `Record`
  (status code, CF-RAY colo and airport, or the JetBrains `Location:` redirect).
- **Ordering** (`common.dfy`, module `Common`) covers `sort_ips_and_hosts` and the unit choice
  of `format_duration`. `custom_ip_sort` and `format_duration` in `src/main.rs` are identical
  copies.
- **The main.rs pipeline** (`main_flow.dfy`, module `MainFlow`) covers:
  - its own expansion (IPv4 blocks in full, a 500-address IPv6 sample below prefix 119);
  - `is_ip_reachable` with curl's answer as a parameter;
  - the collect / strip brackets / stable-sort tail.
- **Line normalisation** (`lines.dfy`, module `LineInput`) covers `read_text_file` in
  `test/demo5.rs`: trim, drop empty lines, deduplicate through a set, sort.
- **Shared vocabulary:**
  - `ipmodel.dfy`: addresses as naturals below 2^32 or 2^128, blocks, `IpAddr::cmp`;
  - `text.dfy`: `starts_with`, `trim_matches`, `split`, `rfind`, the string order;
  - `sorting.dfy`: a stable sort by a comparator;
  - `collections.dfy`, `wrappers.dfy`: sequence helpers and Option/Result.

Modelling choices:

- **Parsing and printing are left uninterpreted.** The text forms of addresses, blocks and
  URLs come from the std, ipnetwork and url crates. A `Parsers` value carries
  `parseNetwork`, `parseAddr`, `show` and `urlHost`. Facts the proofs need about these
  functions are lemma hypotheses over it:
  - `ShowRoundTrips`: parsing a printed address gives the address back;
  - `BareAddrIsHostNetwork`: ipnetwork reads a bare address as a /32 or /128 block.
- **Randomness is a parameter.** Each draw is a caller-supplied offset into the block.
  `gen_range(lower..=upper)` is `network + offset`. The rejection loops consume draws in
  order. When the draws run out before the loop would stop, the result is `None`, and each
  sampler's contract states exactly when that happens.
- **Shuffling and set iteration are nondeterministic choices.** `SliceRandom::shuffle` and
  iterating a `HashSet` choose elements with `:|`. The proofs therefore hold for every
  order.
- **Concurrency is sequential.** The thread pools and channels deliver batches in some
  order. The model concatenates them in token order and then shuffles, so the result is
  the same permutation class.

Below prefix 119 the IPv6 sampler has no cap at the block size. It loops until it holds
exactly `count` addresses, and never ends when the block is smaller
(`NetworkHosts.SamplingOverfullBlockNeverEnds`).

## Model

| member | source | states |
|---|---|---|
| `NetworkHosts.RandomHost` | src/utils/network.rs:46-63 | for a draw r up to 2^(hostbits)-1, the bitwise OR of network and r is `network + r`, a valid address of the block's family inside the block |
| `IpModel.BitOrDisjoint` | test/demo1.rs:9-15 | when the low h bits of the network are clear and the draw is below 2^h, the bitwise OR equals the sum |
| `NetworkHosts.FullPrefixDrawsNetworkAddress` | test/demo1.rs:11-15 | with prefix 32 or 128 the only allowed draw is 0 and the result is the network address itself |
| `NetworkHosts.RandomHostCoversBlock` | test/demo1.rs:14-15 | every address of the block is produced by some allowed draw |
| `NetworkHosts.MaxHostAsWrittenAgrees` | src/utils/network.rs:49-50 | for every prefix above 0, `(1 << host_part_len) - 1` is the intended bound 2^(hostbits)-1 |
| `NetworkHosts.ZeroPrefixDrawsOnlyNetworkAddress` | src/utils/network.rs:58-61 | for prefix 0 the shift as written gives bound 0: every draw yields the network address although the block has other addresses |
| `NetworkHosts.PassThrough` | src/utils/network.rs:66-71 | a token that is not a block yields exactly one element |
| `NetworkHosts.PassThroughPreservesAddress` | src/utils/network.rs:88-93 | the element denotes the same address as the token (or is the token unchanged), and passing it through again changes nothing |
| `NetworkHosts.GenerateSingle` | src/utils/network.rs:41-72 | branch 1: one element, the printed form of an address inside the block, or the pass-through of a non-block token |
| `NetworkHosts.BareAddrSameOnBothPaths` | src/utils/network.rs:43-53 | a bare address, read as a /32 or /128 block, gives the same single canonical address as the bare-address arm |
| `NetworkHosts.SampleDistinct` | src/utils/network.rs:104-111 | the sampling loop returns exactly `count` distinct values, all named by the draws; it runs out exactly when the draws name fewer than `count` distinct values |
| `NetworkHosts.SampleV4` | src/utils/network.rs:126-145 | IPv4 sampling gives min(count, block size) distinct printed addresses, all inside the block and named by the draws; it runs out exactly when the draws name too few |
| `NetworkHosts.ShownInBlock` | test/demo3.rs:28-30 | every drawn offset below the block size lands inside the block, so the `contains` check never rejects a draw |
| `NetworkHosts.EnumerationIsExact` | src/utils/network.rs:117-123 | the block's enumeration has 2^(hostbits) elements, strictly ascending, all inside the block, missing none and repeating none |
| `NetworkHosts.SampleV6` | src/utils/network.rs:96-124 | below prefix 119: exactly `count` distinct addresses inside the block; from prefix 119: the full enumeration |
| `NetworkHosts.SamplingOverfullBlockNeverEnds` | test/demo4.rs:34-42 | when `count` exceeds the block size, no supply of draws lets the IPv6 sampling loop finish |
| `NetworkHosts.ShownCountsDistinctDraws` | src/utils/network.rs:133-139 | with injective printing, the draws name as many addresses as they hold distinct offsets |
| `NetworkHosts.GenerateSampled` | src/utils/network.rs:76-94 | branch 2, for any count (0 and 1 included), dispatches by family and passes non-block tokens through; its result is the sampled expansion (`min(count, size)` distinct IPv4 hosts, `count` distinct IPv6 hosts below /119, the whole block from /119 on); it fails exactly when the draws hold too few distinct hosts |
| `NetworkHosts.SampledIsExpansion` | src/utils/network.rs:19-25 | above a count of one the worker's promise is exactly branch 2's promise |
| `NetworkHosts.HostNameSampledAsItself` | test/demo4.rs:81-82 | branch 2 called on `"github.com"` with count 1 returns `["github.com"]` |
| `NetworkHosts.BareAddrSampledOnce` | src/utils/network.rs:78-93 | in branch 2 with any count of at least one, a bare address, read as a /32 or /128 block, gives exactly its one canonical address |
| `NetworkHosts.GenerateForToken` | src/utils/network.rs:19-25 | `count <= 1` (0 included) uses branch 1, otherwise branch 2; whatever it returns is the token's expansion, and it fails exactly when the draws do not suffice (no draw for branch 1 on a block, too few distinct hosts for a sampler) |
| `NetworkHosts.ProcessIpCidrHosts` | src/utils/network.rs:7-37 | the result is a permutation of the concatenated per-token expansions: nothing dropped, nothing deduplicated; it fails exactly when some token's draws do not suffice |
| `Collections.Shuffle` | src/utils/network.rs:34 | the shuffle returns a permutation of its input |
| `Collections.SetToSeq` | src/utils/network.rs:141 | listing a set gives each element exactly once |
| `IpModel.HostAddrInNetwork` | src/utils/network.rs:135-136 | `network + host` with host below the block size neither overflows nor leaves the block |
| `IpModel.ContainsRange` | src/main.rs:128-131 | membership in a block is exactly the range [network, broadcast] of its family |
| `Curl.FormatHost` | src/utils/curl.rs:24-33 | an IPv6 block or address is wrapped in brackets as written; an IPv4 one becomes its printed address; anything else is the input with all trailing slashes removed |
| `Curl.FormatHostIdempotentOnNames` | src/utils/curl.rs:27-31 | trimming trailing slashes a second time changes nothing |
| `Curl.HostNameSkipsUrlParse` | src/utils/curl.rs:34-40 | a bracketed IPv6 candidate, and a non-block name that does not start with `http://` or `https://`, keep their formatted host and never reach `Url::parse` |
| `Curl.RequestUrl` | src/utils/curl.rs:41-44 | JetBrains mode requests the raw input; otherwise the URL is `http://`, the host, then `/cdn-cgi/trace` |
| `Curl.LastStatusMeaning` | src/utils/curl.rs:59-65 | the status is empty without a status line, else the second field of the last `HTTP/1.1` line with two fields |
| `Curl.LastStatusInsert` | src/utils/curl.rs:60-65 | a line that is not a status line leaves the status in force unchanged |
| `Text.SplitFields` | src/utils/curl.rs:62-63 | no field of `split(' ')` holds a space, and there are at least two fields exactly when the line has a space |
| `Text.JoinSplit` | src/utils/curl.rs:62 | joining the fields of `split` with the separator gives back the line |
| `Text.LastIndexOf` | src/utils/curl.rs:67 | `rfind('-')` gives the position of the last '-', or nothing when the line has none |
| `Curl.ColoOf` | src/utils/curl.rs:67-69 | the colo holds no '-', and exists exactly when the line holds a '-' |
| `Curl.ColoOfMeaning` | src/utils/curl.rs:69 | the colo is what follows a '-' of the line |
| `Curl.CfRayHasColo` | src/utils/curl.rs:66-67 | every `CF-RAY:` line has a colo candidate |
| `Curl.FindAirport` | src/utils/curl.rs:70 | the airport found has the colo as IATA code; none is found exactly when no entry has it |
| `Curl.FindAirportFirst` | src/utils/curl.rs:70-71 | the airport found is the first table entry with that code |
| `Curl.ProcessHeaders` | src/utils/curl.rs:58-120 | the line-by-line scan with its early returns computes the classification: first deciding line, status in force before it |
| `Curl.ScanMatchesClassify` | src/utils/curl.rs:60-113 | from any point reached without a decision, the rest of the scan yields the classification |
| `Curl.RunCommandAndProcessData` | src/utils/curl.rs:19-126 | the probe requests the URL built from the formatted host; it fails when curl cannot run or the URL does not parse, and otherwise classifies curl's lines |
| `Curl.ClassifySound` | src/utils/curl.rs:72-111 | a record carries the input as given, the mode and the delay, the status in force, and the colo and first matching airport of a CF-RAY line or the empty fields of a fls-auth redirect |
| `Curl.ClassifyFailsIffNoDecidingLine` | src/utils/curl.rs:114-120 | the probe fails exactly when no line decides in the active mode |
| `Curl.UnknownColoIsInert` | src/utils/curl.rs:70-94 | a CF-RAY line with an unknown colo neither decides nor sets the status |
| `Curl.CfRayInertForJetBrains` | src/utils/curl.rs:96-98 | in JetBrains mode CF-RAY lines are inert |
| `Curl.InertLineIgnored` | src/utils/curl.rs:60-113 | inserting an inert line anywhere never changes the probe's outcome |
| `IpModel.CompareAddrTotalOrder` | src/utils/common.rs:14 | `IpAddr::cmp` is antisymmetric, Equal only on equal addresses, and transitive |
| `Common.SortIpsAndHostsCases` | src/utils/common.rs:9-19 | two addresses compare by address order; an address is Less than a non-address and the reverse is Greater; two non-addresses are Equal |
| `Common.V4BeforeV6` | src/utils/common.rs:14 | every IPv4 address sorts before every IPv6 address |
| `Common.HostOrderIsTotalPreorder` | src/utils/common.rs:13-18 | the comparator is a total preorder: swapping arguments flips it, and it is transitive |
| `Common.FormatDuration` | src/utils/common.rs:22-32 | seconds when at least one whole second, else milliseconds, microseconds, nanoseconds by the first non-zero count; below seconds the amount is under 1000; the amount is 0 only for a zero duration |
| `MainFlow.GenerateRandomIpv6InCidr` | src/main.rs:126-153 | exactly `count` distinct IPv6 addresses between network and broadcast; runs out exactly when the draws name too few |
| `MainFlow.ShowAll` | src/main.rs:103-105 | each sampled address is printed, in order |
| `MainFlow.GenerateForScan` | src/main.rs:91-123 | an IPv4 block or an IPv6 block from prefix 119 gives its full enumeration; an IPv6 block below 119 gives 500 addresses inside it, distinct with injective printing; any other token is passed through |
| `MainFlow.ScanUrl` | src/main.rs:64-68 | the URL is the formatted host, with `http://` in front unless it already starts with a scheme, followed by `/cdn-cgi/trace` |
| `MainFlow.IsIpReachable` | src/main.rs:49-88 | the probe succeeds exactly when curl ran and the URL parsed; it reports the URL's host and whether the trimmed answer is "200" |
| `MainFlow.VerdictIgnoresWhitespace` | src/main.rs:87 | any whitespace before and after "200" in curl's answer, independently on each side, still gives a true verdict |
| `MainFlow.StrippedHostIsCandidate` | src/main.rs:289-291 | stripping the brackets from a reachable IPv6 candidate's host gives back the candidate |
| `Text.TrimWhileShape` | src/main.rs:290 | `trim_matches` leaves a contiguous slice of the input with only stripped characters around it |
| `Text.TrimWhileEnds` | src/main.rs:290 | after `trim_matches`, neither end of the result is a stripped character |
| `MainFlow.Reachable` | src/main.rs:276-281 | a host is collected exactly when some probe succeeded for it with a 200 |
| `MainFlow.ReachableCountsProbes` | src/main.rs:276-281 | each host is collected once per probe of it that answered 200, so repeated candidates are kept |
| `MainFlow.Unbracketed` | src/main.rs:289-292 | each collected host appears with its brackets trimmed, in arrival order |
| `MainFlow.CollectReachable` | src/main.rs:287-294 | the result is a sorted permutation of the stripped hosts: addresses first in address order, non-addresses in arrival order |
| `MainFlow.NonAddressesTie` | src/main.rs:190 | `custom_ip_sort` compares two non-addresses as Equal |
| `MainFlow.SortedHostsShape` | src/main.rs:182-192 | in a list sorted by the comparator no non-address precedes an address, and the addresses ascend |
| `Sorting.SortBy` | src/main.rs:294 | sorting returns a permutation of its input |
| `Sorting.SortBySorted` | test/demo5.rs:27 | with a total-preorder comparator the sort's result is sorted |
| `Sorting.SortByStable` | src/main.rs:294 | elements that compare Equal to one another keep their input order |
| `LineInput.NormaliseLines` | test/demo5.rs:15-29 | the output is strictly ascending, its elements are exactly the trimmed non-empty input lines, and each is trimmed and non-empty |
| `LineInput.TrimmedNonEmptyAreTrimmed` | test/demo5.rs:20-23 | every kept line is non-empty and trims to itself |
| `LineInput.LexCompareIsTotalPreorder` | test/demo5.rs:27 | the string order used by `sort` is a total preorder |
| `LineInput.SortedDistinct` | test/demo5.rs:26-27 | sorting a list without repetitions gives a strictly ascending list of the same elements |
| `LineInput.StrictlySortedUnique` | test/demo5.rs:26-27 | two strictly ascending lists with the same elements are equal |
| `LineInput.NormaliseIdempotent` | test/demo5.rs:18-27 | normalising the normalised lines gives them back unchanged |
| `Text.TrimWhileIdempotent` | test/demo5.rs:20 | trimming twice is trimming once |

## Left out

- Thread pools, `mpsc` channels and the `Arc<Mutex>` around the token list are not modelled. Batches are concatenated in token order and the result is shuffled.
- The distribution of `rand` is not modelled. Draws are inputs, and the shuffle is any permutation.
- The unbounded rejection loops are bounded by the supplied draws. A run that would need more draws returns `None`.
- Spawning curl and checking that it is installed are left out because they are external processes. curl's output is a parameter (`Curl.RunCommandAndProcessData`, `MainFlow.IsIpReachable`).
- `Url::parse`/`host_str` is an uninterpreted function of `Parsers`. A URL that does not parse is reported as `UrlParsePanic` instead of a panic.
- Text parsing and printing of addresses and blocks (std, ipnetwork, IPv6 compressed form) is uninterpreted. Injectivity of printing is a lemma hypothesis.
- The elapsed time of a probe is not modelled. `delay` is an opaque field.
- `Common.FormatDuration` does not model the `f64` amount. For seconds it returns the whole seconds where `as_secs_f64` would add the fraction.
- `NetworkHosts.GenerateSingle` uses the corrected bound 2^(hostbits)-1 for the draw. At prefix 0 it can therefore give any address of the block, where the source gives only the network address (release build) or panics (debug build); `NetworkHosts.ZeroPrefixDrawsOnlyNetworkAddress` models the source's behaviour there.
- `NetworkHosts.SampleV4` uses the exact block size 2^(32-prefix). ipnetwork's `size()` returns a `u32`, and that cannot hold 2^32 for a /0 block.
- `NetworkHosts.SampleV4` and `Collections.SetToSeq` do not model hashing. `HashSet` is a set, and its iteration order is any order.
- `Vec::sort`, `sort_by` and `shuffle` are modelled on sequence values, not in place.
- The logger, `read_ips_file`, `write_to_file`, `wait_for_enter`, src/utils/files.rs and test/demo2.rs are left out. They are file and console I/O.
- `main` in src/main.rs is modelled only in its sequential parts: expansion per token, the probe, and the collect/strip/sort tail.

## Findings

| source | as written | input that shows it | evidently intended | confidence | as-written member | corrected member |
|---|---|---|---|---|---|---|
| src/utils/network.rs:50 | `max_host_value = (1 << host_part_len) - 1` (also lines 59 of the same file and 12, 21 of test/demo1.rs) shifts by the full width when the prefix is 0. Release builds mask the amount to 0 and get bound 0; debug builds panic | token `0.0.0.0/0` or `::/0` with `count <= 1` | a uniform host in the whole block, bound 2^(width-prefix)-1 | not executed | `NetworkHosts.ZeroPrefixDrawsOnlyNetworkAddress` | `NetworkHosts.RandomHostCoversBlock` |
