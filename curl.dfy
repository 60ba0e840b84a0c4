/**
 * The probe of src/utils/curl.rs (`run_command_and_process_data`): how a candidate becomes
 * the request URL, and how curl's response-header lines are classified into a Record.
 * curl itself is a parameter: given the URL it yields the lines of its standard output, or
 * nothing when it could not be started or waited for. The elapsed time is a parameter too.
 */
module Curl {
  import opened Wrappers
  import opened Text
  import opened Collections
  import opened IpModel

  /** One row of the airport table (src/utils/models.rs). */
  datatype Airport = Airport(iata: string, cca2: string, region: string, city: string)

  /** One successful probe (src/utils/models.rs); `delay` is the elapsed time, opaque here. */
  datatype Record = Record(
    ip: string, colo: string, country: string, region: string, city: string,
    delay: nat, isJetbrains: bool, httpStatusCode: string)

  /** The model merges the source's three failure paths into UnknownError: curl could not be
      spawned, waiting for it failed (that error is passed on as it is), or no line decided.
      A URL that does not parse makes `Url::parse(..).unwrap()` panic instead. */
  datatype ProbeError = UnknownError | UrlParsePanic

  const HttpPrefix := "HTTP/1.1"
  const CfRayPrefix := "CF-RAY:"
  /** The FLS authorisation URL that a JetBrains licence server redirects to. */
  const FlsAuthUrl := "https://" + "account." + "jetbrains" + ".com" + "/fls-auth"
  const FlsAuthPrefix := "Location" + ": " + FlsAuthUrl
  const TracePath := "/cdn-cgi/trace"

  // ----- Host and URL -----

  /** The host part of the probe: an IPv6 block or address is wrapped in brackets as written,
      an IPv4 one becomes its address without the prefix, anything else loses its trailing
      slashes. */
  function FormatHost(p: Parsers, ip: string): (h: string)
    ensures p.parseNetwork(ip).Some? && p.parseNetwork(ip).value.ip.family == V6 ==> h == "[" + ip + "]"
    ensures p.parseNetwork(ip).Some? && p.parseNetwork(ip).value.ip.family == V4 ==>
      h == p.show(p.parseNetwork(ip).value.ip)
    ensures p.parseNetwork(ip).None? ==> |h| <= |ip| && h == ip[..|h|] && !EndsWith(h, "/")
    ensures p.parseNetwork(ip).None? ==> forall k :: |h| <= k < |ip| ==> ip[k] == '/'
  {
    match p.parseNetwork(ip)
    case Some(n) => if n.ip.family == V6 then "[" + ip + "]" else p.show(n.ip)
    case None => if EndsWith(ip, "/") then TrimEndWhile(ip, IsSlash) else ip
  }

  predicate IsHttpUrl(s: string) {
    StartsWith(s, "http://") || StartsWith(s, "https://")
  }

  /** A formatted host that is itself a URL is replaced by the URL's host (empty when the URL
      has none); None stands for the panic of `unwrap` on a URL that does not parse. */
  function HostName(p: Parsers, formatted: string): (r: Option<string>)
    ensures !IsHttpUrl(formatted) ==> r == Some(formatted)
    ensures IsHttpUrl(formatted) ==> r == p.urlHost(formatted)
  {
    if IsHttpUrl(formatted) then p.urlHost(formatted) else Some(formatted)
  }

  /** Only a URL reaches `Url::parse`: an IPv6 candidate, once bracketed, and a name that does
      not start with a scheme keep their formatted host, so they cannot make the probe panic. */
  lemma HostNameSkipsUrlParse(p: Parsers, ip: string)
    ensures p.parseNetwork(ip).Some? && p.parseNetwork(ip).value.ip.family == V6 ==>
      HostName(p, FormatHost(p, ip)) == Some(FormatHost(p, ip))
    ensures p.parseNetwork(ip).None? && !IsHttpUrl(ip) ==>
      HostName(p, FormatHost(p, ip)) == Some(FormatHost(p, ip))
  {
    var h := FormatHost(p, ip);
    StartsWithSlice(h, "http://");
    StartsWithSlice(h, "https://");
    if p.parseNetwork(ip).None? {
      StartsWithSlice(ip, "http://");
      StartsWithSlice(ip, "https://");
      assert |h| >= 7 ==> h[..7] == ip[..7];
      assert |h| >= 8 ==> h[..8] == ip[..8];
    } else if p.parseNetwork(ip).value.ip.family == V6 {
      assert h[0] == '[';
    }
  }

  /** The URL handed to curl: the raw input in JetBrains mode, the trace page of the host
      otherwise. */
  function RequestUrl(ip: string, host: string, jetbrains: bool): (url: string)
    ensures jetbrains ==> url == ip
    ensures !jetbrains ==> StartsWith(url, "http://") && EndsWith(url, TracePath)
    ensures !jetbrains ==> |url| == 7 + |host| + 14 && url[7..|url| - 14] == host
  {
    if jetbrains then ip else "http://" + host + TracePath
  }

  /** A block or address that does not start or end with a bracket gets exactly its text back
      when the brackets FormatHost added are trimmed. */
  lemma UnwrapFormattedV6(p: Parsers, ip: string)
    requires p.parseNetwork(ip).Some? && p.parseNetwork(ip).value.ip.family == V6
    requires ip == [] || (!IsBracket(ip[0]) && !IsBracket(ip[|ip| - 1]))
    ensures TrimWhile(FormatHost(p, ip), IsBracket) == ip
  {
    StripWrappingBrackets(ip);
  }

  /** Trimming slashes is idempotent: a formatted non-network host formats to itself. */
  lemma FormatHostIdempotentOnNames(p: Parsers, ip: string)
    requires p.parseNetwork(ip).None? && p.parseNetwork(FormatHost(p, ip)).None?
    ensures FormatHost(p, FormatHost(p, ip)) == FormatHost(p, ip)
  {}

  // ----- Header classification -----

  /** A status line that carries a second space-separated field. */
  predicate StatusLine(line: string) {
    StartsWith(line, HttpPrefix) && |Split(line, ' ')| >= 2
  }

  /** The status code in force after the given lines: the second field of the last status
      line, or empty when there is none. */
  function LastStatus(lines: seq<string>): string {
    match LastWhere(lines, StatusLine)
    case None => ""
    case Some(k) => Split(lines[k], ' ')[1]
  }

  /** Lines 59-65: the status is empty until a status line with a second field is seen, and
      then it is that field of the last such line. */
  lemma LastStatusMeaning(lines: seq<string>)
    ensures (forall k :: 0 <= k < |lines| ==> !StatusLine(lines[k])) ==> LastStatus(lines) == ""
    ensures forall k ::
      (0 <= k < |lines| && StatusLine(lines[k]) && forall j :: k < j < |lines| ==> !StatusLine(lines[j]))
      ==> LastStatus(lines) == Split(lines[k], ' ')[1]
  {
    forall k | 0 <= k < |lines| && StatusLine(lines[k]) && (forall j :: k < j < |lines| ==> !StatusLine(lines[j]))
      ensures LastStatus(lines) == Split(lines[k], ' ')[1]
    {
      LastWhereAt(lines, k, StatusLine);
    }
  }

  /** The suffix after the last '-' of a line, if it has one. */
  function ColoOf(line: string): (r: Option<string>)
    ensures r.Some? ==> '-' !in r.value
    ensures r.None? <==> '-' !in line
  {
    match LastIndexOf(line, '-')
    case Some(pos) => Some(line[pos + 1..])
    case None => None
  }

  /** The colo is what follows the last '-' of the line. */
  lemma ColoOfMeaning(line: string)
    ensures ColoOf(line).Some? ==>
      exists pos :: 0 <= pos < |line| && line[pos] == '-' && ColoOf(line).value == line[pos + 1..]
  {
    var r := LastIndexOf(line, '-');
    if r.Some? {
      assert line[r.value] == '-' && ColoOf(line).value == line[r.value + 1..];
    }
  }

  /** A CF-RAY header always has a colo candidate: its own name holds a '-'. */
  lemma CfRayHasColo(line: string)
    requires StartsWith(line, CfRayPrefix)
    ensures ColoOf(line).Some?
  {
    assert line[2] == '-';
  }

  /** The first airport whose IATA code is `colo`. */
  function FindAirport(airports: seq<Airport>, colo: string): (r: Option<Airport>)
    ensures r.Some? ==> r.value.iata == colo
    ensures r.None? <==> forall i :: 0 <= i < |airports| ==> airports[i].iata != colo
  {
    if airports == [] then None
    else if airports[0].iata == colo then Some(airports[0])
    else FindAirport(airports[1..], colo)
  }

  /** The airport found is the first entry of the table with that code. */
  lemma {:induction false} FindAirportFirst(airports: seq<Airport>, colo: string)
    ensures FindAirport(airports, colo).Some? ==>
      exists i :: 0 <= i < |airports| && airports[i] == FindAirport(airports, colo).value
        && forall j :: 0 <= j < i ==> airports[j].iata != colo
  {
    if airports != [] && airports[0].iata != colo {
      var rest := FindAirport(airports[1..], colo);
      FindAirportFirst(airports[1..], colo);
      if rest.Some? {
        var i :| 0 <= i < |airports[1..]| && airports[1..][i] == rest.value
          && forall j :: 0 <= j < i ==> airports[1..][j].iata != colo;
        assert airports[i + 1] == rest.value;
        assert forall j :: 1 <= j < i + 1 ==> airports[j] == airports[1..][j - 1];
      }
    } else if airports != [] {
      assert airports[0] == FindAirport(airports, colo).value;
    }
  }

  /** What ends the scan successfully. */
  datatype Verdict = Cloudflare(colo: string, airport: Airport) | JetBrains

  /** The verdict one header line gives in the active mode, if any. Status lines never
      decide. */
  function Decides(line: string, jetbrains: bool, airports: seq<Airport>): Option<Verdict> {
    if StartsWith(line, HttpPrefix) then None
    else if !jetbrains && StartsWith(line, CfRayPrefix) then
      match ColoOf(line)
      case None => None
      case Some(colo) =>
        match FindAirport(airports, colo)
        case Some(a) => Some(Cloudflare(colo, a))
        case None => None
    else if jetbrains && StartsWith(line, FlsAuthPrefix) then Some(JetBrains)
    else None
  }

  /** Whether a line decides in the given mode. */
  function DecidingLine(jetbrains: bool, airports: seq<Airport>): string -> bool {
    line => Decides(line, jetbrains, airports).Some?
  }

  function MakeRecord(ip: string, v: Verdict, status: string, delay: nat): Record {
    match v
    case Cloudflare(colo, a) => Record(ip, colo, a.cca2, a.region, a.city, delay, false, status)
    case JetBrains => Record(ip, "", "", "", "", delay, true, status)
  }

  /** The classification: the first deciding line gives the record, with the status in force
      just before it; without one the probe fails. */
  function Classify(ip: string, lines: seq<string>, jetbrains: bool, airports: seq<Airport>, delay: nat)
    : Result<Record, ProbeError>
  {
    match FirstWhere(lines, DecidingLine(jetbrains, airports))
    case None => Err(UnknownError)
    case Some(i) => Ok(MakeRecord(ip, Decides(lines[i], jetbrains, airports).value, LastStatus(lines[..i]), delay))
  }

  /** Lines 58-120: the scan over curl's header lines, updating the status and returning at
      the first deciding line. */
  method ProcessHeaders(ip: string, lines: seq<string>, jetbrains: bool, airports: seq<Airport>, delay: nat)
    returns (r: Result<Record, ProbeError>)
    ensures r == Classify(ip, lines, jetbrains, airports, delay)
  {
    ScanMatchesClassify(ip, lines, 0, jetbrains, airports, delay);
    var statusCode := "";
    for i := 0 to |lines|
      invariant ScanFrom(ip, lines, 0, "", jetbrains, airports, delay)
             == ScanFrom(ip, lines, i, statusCode, jetbrains, airports, delay)
    {
      var line := lines[i];
      if StartsWith(line, HttpPrefix) {
        var parts := Split(line, ' ');
        if |parts| >= 2 {
          statusCode := parts[1];
        }
      } else if !jetbrains && StartsWith(line, CfRayPrefix) {
        var pos := LastIndexOf(line, '-');
        if pos.Some? {
          var colo := line[pos.value + 1..];
          assert ColoOf(line) == Some(colo);
          var airport := FindAirport(airports, colo);
          if airport.Some? {
            assert Decides(line, jetbrains, airports) == Some(Cloudflare(colo, airport.value));
            r := Ok(Record(ip, colo, airport.value.cca2, airport.value.region, airport.value.city,
                           delay, false, statusCode));
            return;
          }
        }
      } else if jetbrains && StartsWith(line, FlsAuthPrefix) {
        assert Decides(line, jetbrains, airports) == Some(JetBrains);
        r := Ok(Record(ip, "", "", "", "", delay, true, statusCode));
        return;
      }
    }
    r := Err(UnknownError);
  }

  /** The scan as the loop performs it: from line i on, with the status seen so far. */
  function ScanFrom(ip: string, lines: seq<string>, i: nat, status: string, jetbrains: bool,
                    airports: seq<Airport>, delay: nat): Result<Record, ProbeError>
    requires i <= |lines|
    decreases |lines| - i
  {
    if i == |lines| then Err(UnknownError)
    else match Decides(lines[i], jetbrains, airports)
      case Some(v) => Ok(MakeRecord(ip, v, status, delay))
      case None => ScanFrom(ip, lines, i + 1, if StatusLine(lines[i]) then Split(lines[i], ' ')[1] else status,
                            jetbrains, airports, delay)
  }

  /** The line-by-line scan computes the classification: once the first i lines are passed
      without a decision, scanning on with the status they leave gives Classify's answer. */
  lemma {:induction false} ScanMatchesClassify(ip: string, lines: seq<string>, i: nat, jetbrains: bool,
                                               airports: seq<Airport>, delay: nat)
    requires i <= |lines| && FirstWhere(lines[..i], DecidingLine(jetbrains, airports)).None?
    ensures ScanFrom(ip, lines, i, LastStatus(lines[..i]), jetbrains, airports, delay)
         == Classify(ip, lines, jetbrains, airports, delay)
    decreases |lines| - i
  {
    if i == |lines| {
      assert lines[..i] == lines;
    } else if Decides(lines[i], jetbrains, airports).Some? {
      ClassifyFirst(ip, lines, jetbrains, airports, delay, i);
    } else {
      LastStatusStep(lines, i);
      FirstWhereSnoc(lines, i, DecidingLine(jetbrains, airports));
      ScanMatchesClassify(ip, lines, i + 1, jetbrains, airports, delay);
    }
  }

  lemma LastStatusStep(lines: seq<string>, i: nat)
    requires i < |lines|
    ensures LastStatus(lines[..i + 1]) == if StatusLine(lines[i]) then Split(lines[i], ' ')[1] else LastStatus(lines[..i])
  {
    assert lines[..i + 1][..i] == lines[..i];
  }

  /** The record Classify builds when line i is the first to decide. */
  lemma ClassifyFirst(ip: string, lines: seq<string>, jetbrains: bool, airports: seq<Airport>, delay: nat, i: nat)
    requires i < |lines| && Decides(lines[i], jetbrains, airports).Some?
    requires FirstWhere(lines[..i], DecidingLine(jetbrains, airports)).None?
    ensures Classify(ip, lines, jetbrains, airports, delay)
         == Ok(MakeRecord(ip, Decides(lines[i], jetbrains, airports).value, LastStatus(lines[..i]), delay))
  {
    FirstWhereAt(lines, i, DecidingLine(jetbrains, airports));
  }

  /** The whole probe with curl as a parameter (lines 24-125). */
  method RunCommandAndProcessData(p: Parsers, ip: string, airports: seq<Airport>, jetbrains: bool,
                                  curl: string -> Option<seq<string>>, delay: nat)
    returns (r: Result<Record, ProbeError>)
    ensures HostName(p, FormatHost(p, ip)).None? ==> r == Err(UrlParsePanic)
    ensures HostName(p, FormatHost(p, ip)).Some? ==>
      var url := RequestUrl(ip, HostName(p, FormatHost(p, ip)).value, jetbrains);
      r == if curl(url).None? then Err(UnknownError) else Classify(ip, curl(url).value, jetbrains, airports, delay)
  {
    var formatted := FormatHost(p, ip);
    var hostName := HostName(p, formatted);
    if hostName.None? {
      return Err(UrlParsePanic);
    }
    var url := RequestUrl(ip, hostName.value, jetbrains);
    var output := curl(url);
    if output.None? {
      return Err(UnknownError);
    }
    r := ProcessHeaders(ip, output.value, jetbrains, airports, delay);
  }

  // ----- Properties of the classification -----

  /** What a successful probe reports: the input as given, the mode, the status in force,
      and in Cloudflare mode the colo after the last '-' of a CF-RAY line together with the
      first airport of that code; in JetBrains mode a fls-auth redirect and empty location. */
  lemma ClassifySound(ip: string, lines: seq<string>, jetbrains: bool, airports: seq<Airport>, delay: nat)
    requires Classify(ip, lines, jetbrains, airports, delay).Ok?
    ensures var rec := Classify(ip, lines, jetbrains, airports, delay).value;
      rec.ip == ip && rec.isJetbrains == jetbrains && rec.delay == delay
    ensures var rec := Classify(ip, lines, jetbrains, airports, delay).value;
      exists i :: 0 <= i < |lines| && SoundAt(rec, lines, i, jetbrains, airports)
  {
    var i := FirstWhere(lines, DecidingLine(jetbrains, airports)).value;
    assert SoundAt(Classify(ip, lines, jetbrains, airports, delay).value, lines, i, jetbrains, airports);
  }

  /** Line i justifies the record. */
  predicate SoundAt(rec: Record, lines: seq<string>, i: nat, jetbrains: bool, airports: seq<Airport>)
    requires i < |lines|
  {
    && rec.httpStatusCode == LastStatus(lines[..i])
    && (jetbrains ==> StartsWith(lines[i], FlsAuthPrefix) && rec.colo == rec.country == rec.region == rec.city == "")
    && (!jetbrains ==>
          && StartsWith(lines[i], CfRayPrefix)
          && ColoOf(lines[i]) == Some(rec.colo)
          && FindAirport(airports, rec.colo).Some?
          && rec.country == FindAirport(airports, rec.colo).value.cca2
          && rec.region == FindAirport(airports, rec.colo).value.region
          && rec.city == FindAirport(airports, rec.colo).value.city)
  }

  /** The probe fails exactly when no line decides in the active mode. */
  lemma ClassifyFailsIffNoDecidingLine(ip: string, lines: seq<string>, jetbrains: bool, airports: seq<Airport>, delay: nat)
    ensures Classify(ip, lines, jetbrains, airports, delay).Err? <==>
      forall k :: 0 <= k < |lines| ==> Decides(lines[k], jetbrains, airports).None?
  {
    FirstWhereMeaning(lines, DecidingLine(jetbrains, airports));
  }

  /** A line that neither sets the status nor decides. */
  predicate Inert(line: string, jetbrains: bool, airports: seq<Airport>) {
    !StartsWith(line, HttpPrefix) && Decides(line, jetbrains, airports).None?
  }

  /** A CF-RAY line whose colo is not in the table is inert: the scan goes on past it. */
  lemma UnknownColoIsInert(line: string, airports: seq<Airport>)
    requires StartsWith(line, CfRayPrefix)
    requires forall i :: 0 <= i < |airports| ==> Some(airports[i].iata) != ColoOf(line)
    ensures Inert(line, false, airports)
  {
    PrefixesExclusive(line, CfRayPrefix, HttpPrefix);
    CfRayHasColo(line);
  }

  /** In JetBrains mode CF-RAY lines are inert. */
  lemma CfRayInertForJetBrains(line: string, airports: seq<Airport>)
    requires StartsWith(line, CfRayPrefix)
    ensures Inert(line, true, airports)
  {
    PrefixesExclusive(line, CfRayPrefix, HttpPrefix);
    PrefixesExclusive(line, CfRayPrefix, FlsAuthPrefix);
  }

  /** A line cannot start with two prefixes that begin differently. */
  lemma PrefixesExclusive(line: string, p1: string, p2: string)
    requires StartsWith(line, p1) && |p1| > 0 && |p2| > 0 && p1[0] != p2[0]
    ensures !StartsWith(line, p2)
  {}

  /** A line that is not a status line leaves the status in force unchanged. */
  lemma LastStatusInsert(a: seq<string>, x: string, c: seq<string>)
    requires !StatusLine(x)
    ensures LastStatus(a + [x] + c) == LastStatus(a + c)
  {
    LastWhereInsert(a, x, c, StatusLine);
    match LastWhere(a + c, StatusLine)
    case None =>
    case Some(k) => InsertIndexShift(a, x, c, k);
  }

  /** The record Classify builds once the first deciding line is known. */
  lemma ClassifyAt(ip: string, lines: seq<string>, jetbrains: bool, airports: seq<Airport>, delay: nat, i: nat)
    requires FirstWhere(lines, DecidingLine(jetbrains, airports)) == Some(i)
    ensures i < |lines| && Decides(lines[i], jetbrains, airports).Some?
    ensures Classify(ip, lines, jetbrains, airports, delay)
         == Ok(MakeRecord(ip, Decides(lines[i], jetbrains, airports).value, LastStatus(lines[..i]), delay))
  {}

  /** Inserting an inert line anywhere never changes the outcome of a probe. */
  lemma InertLineIgnored(ip: string, lines: seq<string>, j: nat, x: string,
                         jetbrains: bool, airports: seq<Airport>, delay: nat)
    requires j <= |lines| && Inert(x, jetbrains, airports)
    ensures Classify(ip, lines[..j] + [x] + lines[j..], jetbrains, airports, delay)
         == Classify(ip, lines, jetbrains, airports, delay)
  {
    var deciding := DecidingLine(jetbrains, airports);
    assert !deciding(x) && !StatusLine(x);
    FirstWhereInsertAt(lines, j, x, deciding);
    match FirstWhere(lines, deciding)
    case None =>
    case Some(i) =>
      if i < j {
        InertAfterDecision(ip, lines, j, x, jetbrains, airports, delay, i);
      } else {
        ShiftPastAfter(i, j);
        InertBeforeDecision(ip, lines, j, x, jetbrains, airports, delay, i);
      }
  }

  lemma InertAfterDecision(ip: string, lines: seq<string>, j: nat, x: string,
                           jetbrains: bool, airports: seq<Airport>, delay: nat, i: nat)
    requires i < j <= |lines|
    requires FirstWhere(lines, DecidingLine(jetbrains, airports)) == Some(i)
    requires FirstWhere(lines[..j] + [x] + lines[j..], DecidingLine(jetbrains, airports)) == Some(i)
    ensures Classify(ip, lines[..j] + [x] + lines[j..], jetbrains, airports, delay)
         == Classify(ip, lines, jetbrains, airports, delay)
  {
    InsertKeepsBefore(lines, j, x, i);
    ClassifyAt(ip, lines, jetbrains, airports, delay, i);
    ClassifyAt(ip, lines[..j] + [x] + lines[j..], jetbrains, airports, delay, i);
  }

  lemma InertBeforeDecision(ip: string, lines: seq<string>, j: nat, x: string,
                            jetbrains: bool, airports: seq<Airport>, delay: nat, i: nat)
    requires j <= i < |lines| && !StatusLine(x)
    requires FirstWhere(lines, DecidingLine(jetbrains, airports)) == Some(i)
    requires FirstWhere(lines[..j] + [x] + lines[j..], DecidingLine(jetbrains, airports)) == Some(i + 1)
    ensures Classify(ip, lines[..j] + [x] + lines[j..], jetbrains, airports, delay)
         == Classify(ip, lines, jetbrains, airports, delay)
  {
    var extended := lines[..j] + [x] + lines[j..];
    StatusBeforeShifted(lines, j, x, i);
    ClassifyAt(ip, lines, jetbrains, airports, delay, i);
    ClassifyAt(ip, extended, jetbrains, airports, delay, i + 1);
  }

  lemma StatusBeforeShifted(lines: seq<string>, j: nat, x: string, i: nat)
    requires j <= i < |lines| && !StatusLine(x)
    ensures LastStatus((lines[..j] + [x] + lines[j..])[..i + 1]) == LastStatus(lines[..i])
    ensures (lines[..j] + [x] + lines[j..])[i + 1] == lines[i]
  {
    InsertShiftsAfter(lines, j, x, i);
    LastStatusInsert(lines[..j], x, lines[j..i]);
  }
}
