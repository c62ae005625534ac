/**
 * PacketCapture: the string-prefix private filter and the analysis loop that reports
 * each new public address of an offline capture once, with its geolocation line.
 */
module PacketCapture {
  import opened Wrappers
  import opened JavaText
  import opened Inet4
  import GeoIP

  /** The prefixes the capture treats as private; all of 172.x and 169.254.x are among them. */
  const PrivatePrefixes: set<string> := {"10.", "172.", "192.168.", "169.254."}

  /** isPrivateIP of the capture: the text starts with one of the prefixes. */
  predicate IsPrivateIP(ip: string)
  {
    exists p :: p in PrivatePrefixes && p <= ip
  }

  /** On an address's text, what the prefix filter says in terms of its octets. */
  predicate PrefixPrivate(a: Inet4Address)
  {
    a.o0 == 10 || a.o0 == 172 || (a.o0 == 192 && a.o1 == 168) || (a.o0 == 169 && a.o1 == 254)
  }

  /** The decimal text of the octets the one-octet prefixes name. */
  lemma OneOctetLiterals()
    ensures "10." == Decimal(10) + "."
    ensures "172." == Decimal(172) + "."
  {
    assert Decimal(10) == "10";
    assert Decimal(172) == "172";
  }

  /** The decimal text of the octets the two-octet prefixes name. */
  lemma TwoOctetLiterals()
    ensures "192.168." == Decimal(192) + "." + Decimal(168) + "."
    ensures "169.254." == Decimal(169) + "." + Decimal(254) + "."
  {
    assert Decimal(192) == "192" && Decimal(168) == "168";
    assert Decimal(169) == "169" && Decimal(254) == "254";
  }

  /** A one-octet prefix matches the host address exactly when the first octet is that one. */
  lemma FirstOctetPrefix(a: Inet4Address, t: Octet)
    ensures Decimal(t) + "." <= HostAddress(a) <==> a.o0 == t
  {
    var rest := Decimal(a.o1) + "." + Decimal(a.o2) + "." + Decimal(a.o3);
    assert HostAddress(a) == Decimal(a.o0) + "." + rest;
    assert Decimal(t) + "." == Decimal(t) + "." + "";
    DotPrefix(Decimal(t), "", Decimal(a.o0), rest);
    DecimalInjective(t, a.o0);
  }

  /** A two-octet prefix matches exactly when the first two octets are those ones. */
  lemma TwoOctetPrefix(a: Inet4Address, t: Octet, u: Octet)
    ensures Decimal(t) + "." + Decimal(u) + "." <= HostAddress(a) <==> a.o0 == t && a.o1 == u
  {
    var rest := Decimal(a.o2) + "." + Decimal(a.o3);
    assert HostAddress(a) == Decimal(a.o0) + "." + (Decimal(a.o1) + "." + rest);
    assert Decimal(t) + "." + Decimal(u) + "." == Decimal(t) + "." + (Decimal(u) + ".");
    DotPrefix(Decimal(t), Decimal(u) + ".", Decimal(a.o0), Decimal(a.o1) + "." + rest);
    DecimalInjective(t, a.o0);
    assert Decimal(u) + "." == Decimal(u) + "." + "";
    DotPrefix(Decimal(u), "", Decimal(a.o1), rest);
    DecimalInjective(u, a.o1);
  }

  /** The prefix filter on an address's text, stated on its octets. */
  lemma PrefixPrivateHostAddress(a: Inet4Address)
    ensures IsPrivateIP(HostAddress(a)) <==> PrefixPrivate(a)
  {
    OneOctetLiterals();
    TwoOctetLiterals();
    FirstOctetPrefix(a, 10);
    FirstOctetPrefix(a, 172);
    TwoOctetPrefix(a, 192, 168);
    TwoOctetPrefix(a, 169, 254);
  }

  /** Every address the numeric check calls private, the prefix filter calls private too. */
  lemma PrefixFilterCoversNumeric(a: Inet4Address)
    ensures GeoIP.IsPrivateIP(HostAddress(a)) == Success(true) ==> IsPrivateIP(HostAddress(a))
  {
    GeoIP.IsPrivateHostAddress(a);
    PrefixPrivateHostAddress(a);
  }

  /** The filters disagree: 172.32.0.1 and 169.254.1.1 are private here, public for GeoIP. */
  lemma FiltersDisagree()
    ensures IsPrivateIP(HostAddress(Inet4Address(172, 32, 0, 1)))
    ensures GeoIP.IsPrivateIP(HostAddress(Inet4Address(172, 32, 0, 1))) == Success(false)
    ensures IsPrivateIP(HostAddress(Inet4Address(169, 254, 1, 1)))
    ensures GeoIP.IsPrivateIP(HostAddress(Inet4Address(169, 254, 1, 1))) == Success(false)
  {
    PrefixPrivateHostAddress(Inet4Address(172, 32, 0, 1));
    PrefixPrivateHostAddress(Inet4Address(169, 254, 1, 1));
    GeoIP.PrivateExamples();
  }

  /** Which of a packet's two addresses a line reports. */
  datatype Role = Source | Destination

  /** The fields of an IPv4 header the loop reads. */
  datatype Ipv4Header = Ipv4Header(src: Inet4Address, dst: Inet4Address)

  /** A captured packet: its IPv4 header, or None when it has no IPv4 layer. */
  type Packet = Option<Ipv4Header>

  /** One line written through the callback: which address it is about, and in what role. */
  datatype Report = Report(role: Role, addr: Inet4Address)

  /** The loop's state: the processed address texts and the reports written so far. */
  datatype Progress = Progress(processed: set<string>, reported: seq<Report>)

  /** One address of a packet: reported and recorded when public and not yet processed. */
  function Visit(st: Progress, role: Role, addr: Inet4Address): Progress
  {
    var ip := HostAddress(addr);
    if !IsPrivateIP(ip) && ip !in st.processed
    then Progress(st.processed + {ip}, st.reported + [Report(role, addr)])
    else st
  }

  /** One packet: nothing without an IPv4 layer, else the source and then the destination. */
  function Step(st: Progress, packet: Packet): Progress
  {
    match packet
    case None => st
    case Some(h) => Visit(Visit(st, Source, h.src), Destination, h.dst)
  }

  /** The packets, one after another, from a starting state. */
  function Analysis(st: Progress, packets: seq<Packet>): Progress
    decreases |packets|
  {
    if packets == [] then st
    else Step(Analysis(st, packets[..|packets| - 1]), packets[|packets| - 1])
  }

  /**
   * How many of n packets the loop inspects when shouldStop is polled before each one:
   * the first poll that answers true, or n.
   */
  function StopPoint(shouldStop: nat -> bool, n: nat): (k: nat)
    ensures k <= n
    ensures forall j :: 0 <= j < k ==> !shouldStop(j)
    ensures k < n ==> shouldStop(k)
  {
    if n == 0 then 0
    else
      var k := StopPoint(shouldStop, n - 1);
      if k < n - 1 || shouldStop(n - 1) then k else n
  }

  /** The address texts of a sequence of reports. */
  function ReportedIps(rs: seq<Report>): set<string>
  {
    set r | r in rs :: HostAddress(r.addr)
  }

  /**
   * The invariant of a PacketCapture: the processed set is exactly the reported texts,
   * no address is reported twice, and no reported address is private by prefix.
   */
  ghost predicate Consistent(st: Progress)
  {
    && st.processed == ReportedIps(st.reported)
    && (forall j, k :: 0 <= j < k < |st.reported| ==> st.reported[j].addr != st.reported[k].addr)
    && (forall k :: 0 <= k < |st.reported| ==> !IsPrivateIP(HostAddress(st.reported[k].addr)))
  }

  function Label(role: Role): string
  {
    match role
    case Source => "Source IP: "
    case Destination => "Destination IP: "
  }

  /** The line written for a report, with getGeolocation's answer for the address. */
  function Line(lookup: string -> GeoIP.LookupOutcome, r: Report): string
  {
    Label(r.role) + HostAddress(r.addr) + " Geolocation: " + GeoIP.GeolocationText(lookup, r.addr)
  }

  /** The lines written for some reports, one per report and in the same order. */
  function Lines(lookup: string -> GeoIP.LookupOutcome, rs: seq<Report>): seq<string>
    decreases |rs|
  {
    if rs == [] then []
    else Lines(lookup, rs[..|rs| - 1]) + [Line(lookup, rs[|rs| - 1])]
  }

  /** The analyzer: a geolocation lookup and the set of addresses it has already reported. */
  class PacketCapture {
    const lookup: string -> GeoIP.LookupOutcome
    var processedIPs: set<string>
    /** Every report this instance has written, in order. */
    ghost var reported: seq<Report>

    ghost predicate Valid()
      reads this
    {
      Consistent(Progress(processedIPs, reported))
    }

    constructor(lookup: string -> GeoIP.LookupOutcome)
      ensures Valid()
      ensures this.lookup == lookup && processedIPs == {} && reported == []
    {
      this.lookup := lookup;
      processedIPs := {};
      reported := [];
    }

    /**
     * analyzePcap over a capture: the packets before the first stop are analysed in order,
     * the processed set and the report history become those of the analysis, and the
     * lines returned are this run's reports, in order.
     */
    method AnalyzePcap(packets: seq<Packet>, shouldStop: nat -> bool) returns (lines: seq<string>)
      requires Valid()
      modifies this
      ensures Valid()
      ensures var run := Analysis(Progress(old(processedIPs), old(reported)),
                                  packets[..StopPoint(shouldStop, |packets|)]);
              processedIPs == run.processed && reported == run.reported
      ensures old(reported) <= reported
      ensures lines == Lines(lookup, reported[|old(reported)|..])
    {
      ghost var start := Progress(processedIPs, reported);
      ghost var stop := StopPoint(shouldStop, |packets|);
      ghost var written: seq<Report> := [];
      lines := [];
      var i := 0;
      while i < |packets|
        invariant i <= stop
        invariant forall j :: 0 <= j < i ==> !shouldStop(j)
        invariant Progress(processedIPs, reported) == Analysis(start, packets[..i])
        invariant reported == start.reported + written
        invariant lines == Lines(lookup, written)
      {
        if shouldStop(i) {
          break;
        }
        assert packets[..i + 1][..i] == packets[..i];
        match packets[i] {
          case None =>
          case Some(h) =>
            lines, written := ReportIfNew(Source, h.src, lines, start.reported, written);
            lines, written := ReportIfNew(Destination, h.dst, lines, start.reported, written);
        }
        i := i + 1;
      }
      assert i == stop;
      assert reported[|start.reported|..] == written;
      AnalysisConsistent(start, packets[..stop]);
    }
    /**
     * The block analyzePcap runs for each address of an IPv4 packet: a public address not
     * processed yet gets its line written and is recorded; any other address changes nothing.
     */
    method ReportIfNew(role: Role, addr: Inet4Address, lines: seq<string>,
                       ghost earlier: seq<Report>, ghost written: seq<Report>)
      returns (lines': seq<string>, ghost written': seq<Report>)
      requires reported == earlier + written && lines == Lines(lookup, written)
      modifies this
      ensures Progress(processedIPs, reported) == Visit(old(Progress(processedIPs, reported)), role, addr)
      ensures reported == earlier + written' && lines' == Lines(lookup, written')
    {
      var ip := HostAddress(addr);
      lines', written' := lines, written;
      if !IsPrivateIP(ip) && ip !in processedIPs {
        var report := Report(role, addr);
        lines' := lines + [Line(lookup, report)];
        LinesAppend(lookup, written, report);
        written' := written + [report];
        assert earlier + written' == reported + [report];
        processedIPs := processedIPs + {ip};
        reported := reported + [report];
      }
    }
  }

  lemma LinesAppend(lookup: string -> GeoIP.LookupOutcome, rs: seq<Report>, r: Report)
    ensures Lines(lookup, rs + [r]) == Lines(lookup, rs) + [Line(lookup, r)]
  {
    assert (rs + [r])[..|rs|] == rs;
  }

  /** A run only adds: the processed set grows and the report history is extended. */
  lemma {:induction false} AnalysisGrows(st: Progress, packets: seq<Packet>)
    ensures st.processed <= Analysis(st, packets).processed
    ensures st.reported <= Analysis(st, packets).reported
    decreases |packets|
  {
    if packets != [] {
      AnalysisGrows(st, packets[..|packets| - 1]);
    }
  }

  lemma VisitConsistent(st: Progress, role: Role, addr: Inet4Address)
    requires Consistent(st)
    ensures Consistent(Visit(st, role, addr))
  {
    var ip := HostAddress(addr);
    if !IsPrivateIP(ip) && ip !in st.processed {
      forall k | 0 <= k < |st.reported|
        ensures st.reported[k].addr != addr
      {
        assert HostAddress(st.reported[k].addr) in ReportedIps(st.reported);
      }
      var rs := st.reported + [Report(role, addr)];
      assert ReportedIps(rs) == ReportedIps(st.reported) + {ip} by {
        assert forall r :: r in rs <==> r in st.reported || r == Report(role, addr);
      }
    }
  }

  /** The invariant survives any run: no address is ever reported twice. */
  lemma {:induction false} AnalysisConsistent(st: Progress, packets: seq<Packet>)
    requires Consistent(st)
    ensures Consistent(Analysis(st, packets))
    decreases |packets|
  {
    if packets != [] {
      var before := Analysis(st, packets[..|packets| - 1]);
      AnalysisConsistent(st, packets[..|packets| - 1]);
      match packets[|packets| - 1]
      case None =>
      case Some(h) =>
        VisitConsistent(before, Source, h.src);
        VisitConsistent(Visit(before, Source, h.src), Destination, h.dst);
    }
  }

  /** Running two captures one after the other is running their concatenation. */
  lemma {:induction false} AnalysisAppend(st: Progress, first: seq<Packet>, second: seq<Packet>)
    ensures Analysis(Analysis(st, first), second) == Analysis(st, first + second)
    decreases |second|
  {
    if second != [] {
      var n := |second| - 1;
      assert (first + second)[..|first| + n] == first + second[..n];
      AnalysisAppend(st, first, second[..n]);
    } else {
      assert first + second == first;
    }
  }

  /** A packet without an IPv4 layer, wherever it sits, changes nothing. */
  lemma NonIpv4Ignored(st: Progress, before: seq<Packet>, after: seq<Packet>)
    ensures Analysis(st, before + [None] + after) == Analysis(st, before + after)
  {
    AnalysisAppend(st, before + [None], after);
    AnalysisAppend(st, before, after);
    assert (before + [None])[..|before|] == before;
  }

  /** A packet from an address to itself yields at most the source line. */
  lemma SelfTrafficReportedOnce(st: Progress, a: Inet4Address)
    ensures Step(st, Some(Ipv4Header(a, a))) == Visit(st, Source, a)
  {
  }

  /** The addresses an IPv4 packet carries. */
  function PacketAddresses(packet: Packet): set<Inet4Address>
  {
    match packet
    case None => {}
    case Some(h) => {h.src, h.dst}
  }

  /** Every source and destination address of the IPv4 packets. */
  function Addresses(packets: seq<Packet>): set<Inet4Address>
    decreases |packets|
  {
    if packets == [] then {}
    else Addresses(packets[..|packets| - 1]) + PacketAddresses(packets[|packets| - 1])
  }

  /** The texts of the addresses the prefix filter lets through. */
  function PublicIps(addrs: set<Inet4Address>): set<string>
  {
    set a | a in addrs && !IsPrivateIP(HostAddress(a)) :: HostAddress(a)
  }

  lemma VisitProcessed(st: Progress, role: Role, a: Inet4Address)
    ensures Visit(st, role, a).processed == st.processed + PublicIps({a})
  {
  }

  lemma StepProcessed(st: Progress, packet: Packet)
    ensures Step(st, packet).processed == st.processed + PublicIps(PacketAddresses(packet))
  {
    match packet
    case None =>
    case Some(h) =>
      VisitProcessed(st, Source, h.src);
      VisitProcessed(Visit(st, Source, h.src), Destination, h.dst);
      PublicIpsUnion({h.src}, {h.dst});
      assert {h.src, h.dst} == {h.src} + {h.dst};
  }

  lemma PublicIpsUnion(x: set<Inet4Address>, y: set<Inet4Address>)
    ensures PublicIps(x + y) == PublicIps(x) + PublicIps(y)
  {
  }

  /**
   * After a run the processed set is the old one plus the text of every address of the
   * IPv4 packets that the prefix filter does not call private; nothing else is added.
   */
  lemma {:induction false} AnalysisProcessed(st: Progress, packets: seq<Packet>)
    ensures Analysis(st, packets).processed == st.processed + PublicIps(Addresses(packets))
    decreases |packets|
  {
    if packets != [] {
      var n := |packets| - 1;
      AnalysisProcessed(st, packets[..n]);
      StepProcessed(Analysis(st, packets[..n]), packets[n]);
      PublicIpsUnion(Addresses(packets[..n]), PacketAddresses(packets[n]));
    }
  }

  /** An address the prefix filter calls private is never recorded by a run. */
  lemma PrivateNeverRecorded(st: Progress, packets: seq<Packet>, a: Inet4Address)
    requires IsPrivateIP(HostAddress(a))
    ensures HostAddress(a) in Analysis(st, packets).processed <==> HostAddress(a) in st.processed
  {
    AnalysisProcessed(st, packets);
  }

  /**
   * Each line a run writes is about a public address that was not processed before the
   * run and is processed after it.
   */
  lemma RunReportsOnlyNew(st: Progress, packets: seq<Packet>)
    requires Consistent(st)
    ensures var run := Analysis(st, packets);
      forall k :: |st.reported| <= k < |run.reported| ==>
        && HostAddress(run.reported[k].addr) !in st.processed
        && HostAddress(run.reported[k].addr) in run.processed
        && !IsPrivateIP(HostAddress(run.reported[k].addr))
  {
    var run := Analysis(st, packets);
    AnalysisGrows(st, packets);
    AnalysisConsistent(st, packets);
    forall k | |st.reported| <= k < |run.reported|
      ensures HostAddress(run.reported[k].addr) !in st.processed
      ensures HostAddress(run.reported[k].addr) in run.processed
    {
      var a := run.reported[k].addr;
      assert run.reported[k] in run.reported;
      if HostAddress(a) in st.processed {
        var r :| r in st.reported && HostAddress(r.addr) == HostAddress(a);
        var j :| 0 <= j < |st.reported| && st.reported[j] == r;
        assert run.reported[j] == r;
        HostAddressInjective(r.addr, a);
        assert false;
      }
    }
  }

  /**
   * The geolocation part of every written line is not a "Private IP: " line: the prefix
   * filter already dropped every address getGeolocation would call private.
   */
  lemma ReportedLineNotPrivate(lookup: string -> GeoIP.LookupOutcome, a: Inet4Address)
    requires !IsPrivateIP(HostAddress(a))
    ensures GeoIP.IsPrivateIP(HostAddress(a)) == Success(false)
    ensures !("Private IP: " <= GeoIP.GeolocationText(lookup, a))
  {
    PrefixFilterCoversNumeric(a);
    GeoIP.IsPrivateHostAddress(a);
    GeoIP.GeolocationOfRoutable(lookup, HostAddress(a));
  }

  /** Polls after the first stop do not matter, and neither do the packets past it. */
  lemma StopIgnoresLaterPackets(shouldStop: nat -> bool, packets: seq<Packet>, more: seq<Packet>)
    requires StopPoint(shouldStop, |packets|) < |packets|
    ensures StopPoint(shouldStop, |packets + more|) == StopPoint(shouldStop, |packets|)
    ensures (packets + more)[..StopPoint(shouldStop, |packets|)]
         == packets[..StopPoint(shouldStop, |packets|)]
  {
    var k := StopPoint(shouldStop, |packets|);
    var k' := StopPoint(shouldStop, |packets + more|);
    assert shouldStop(k);
  }

  /** A capture: 10.0.0.5 to 8.8.8.8, back again, then 1.1.1.1 to itself. */
  const ExampleCapture: seq<Packet> := [
    Some(Ipv4Header(Inet4Address(10, 0, 0, 5), Inet4Address(8, 8, 8, 8))),
    Some(Ipv4Header(Inet4Address(8, 8, 8, 8), Inet4Address(10, 0, 0, 5))),
    Some(Ipv4Header(Inet4Address(1, 1, 1, 1), Inet4Address(1, 1, 1, 1)))
  ]

  /** On a fresh analyzer the capture above writes exactly two lines. */
  lemma ExampleRun()
    ensures Analysis(Progress({}, []), ExampleCapture).reported
         == [Report(Destination, Inet4Address(8, 8, 8, 8)), Report(Source, Inet4Address(1, 1, 1, 1))]
  {
    var local, google, cloud := Inet4Address(10, 0, 0, 5), Inet4Address(8, 8, 8, 8), Inet4Address(1, 1, 1, 1);
    PrefixPrivateHostAddress(local);
    PrefixPrivateHostAddress(google);
    PrefixPrivateHostAddress(cloud);
    HostAddressInjective(google, cloud);
    var s0 := Progress({}, []);
    var s1 := Progress({HostAddress(google)}, [Report(Destination, google)]);
    var s3 := Progress({HostAddress(google), HostAddress(cloud)},
                       [Report(Destination, google), Report(Source, cloud)]);
    assert ExampleCapture[..1][..0] == [];
    assert Analysis(s0, ExampleCapture[..1]) == s1;
    assert ExampleCapture[..2][..1] == ExampleCapture[..1];
    assert Analysis(s0, ExampleCapture[..2]) == s1;
    assert ExampleCapture[..3][..2] == ExampleCapture[..2];
    assert Analysis(s0, ExampleCapture[..3]) == s3;
    assert ExampleCapture[..3] == ExampleCapture;
  }
}
