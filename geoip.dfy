/**
 * GeoIP: the numeric private-address check (RFC 1918, section 3) and the one-line
 * geolocation report. The MaxMind database reader is a foreign library; it appears
 * here as a lookup function from the address text to an outcome.
 */
module GeoIP {
  import opened Wrappers
  import opened JavaLong
  import opened JavaText
  import opened Inet4

  /**
   * Why ipToLong throws: a segment index past the end of the split
   * (ArrayIndexOutOfBoundsException) or a segment Long.parseLong rejects
   * (NumberFormatException).
   */
  datatype IpError = MissingSegment(index: nat) | NotANumber(segment: string)

  function Segment(octets: seq<string>, k: nat): Result<Long, IpError>
  {
    if k >= |octets| then Failure(MissingSegment(k))
    else
      match ParseLong(octets[k])
      case None => Failure(NotANumber(octets[k]))
      case Some(v) => Success(v)
  }

  /**
   * ipToLong: the first four dot-separated segments, parsed left to right and combined
   * with shifts and ors on longs; nothing is validated and later segments are ignored.
   */
  function IpToLong(ip: string): Result<Long, IpError>
  {
    Combine(Split(ip))
  }

  /** The expression of ipToLong's return statement, over the split segments. */
  function Combine(octets: seq<string>): Result<Long, IpError>
  {
    var a :- Segment(octets, 0);
    var b :- Segment(octets, 1);
    var c :- Segment(octets, 2);
    var d :- Segment(octets, 3);
    Success(Or(Or(Or(ShiftLeft(a, 24), ShiftLeft(b, 16)), ShiftLeft(c, 8)), d))
  }

  /** The number an address denotes: its octets read as base-256 digits. */
  function QuadValue(a: Inet4Address): nat
  {
    a.o0 * 0x100_0000 + a.o1 * 0x1_0000 + a.o2 * 0x100 + a.o3
  }

  /** On octets, the or of the shifted fields is their sum. */
  lemma ShiftOrIsSum(a: Inet4Address)
    ensures Or(Or(Or(ShiftLeft(a.o0, 24), ShiftLeft(a.o1, 16)), ShiftLeft(a.o2, 8)), a.o3)
         == QuadValue(a)
  {
    ShiftedOctets(a);
    Pow2Values();
    var q2 := a.o0 * 0x100 + a.o1;
    var q3 := q2 * 0x100 + a.o2;
    var r1 := Or(a.o0 * 0x100_0000, a.o1 * 0x1_0000);
    assert r1 == q2 * 0x1_0000 by {
      OrNoOverlap(a.o0, a.o1 * 0x1_0000, 24);
    }
    var r2 := Or(r1, a.o2 * 0x100);
    assert r2 == q3 * 0x100 by {
      OrNoOverlap(q2, a.o2 * 0x100, 16);
    }
    assert Or(r2, a.o3) == QuadValue(a) by {
      OrNoOverlap(q3, a.o3, 8);
    }
  }

  lemma ShiftedOctets(a: Inet4Address)
    ensures ShiftLeft(a.o0, 24) == a.o0 * 0x100_0000
    ensures ShiftLeft(a.o1, 16) == a.o1 * 0x1_0000
    ensures ShiftLeft(a.o2, 8) == a.o2 * 0x100
  {
    Pow2Values();
    ShiftLeftNoOverflow(a.o0, 24);
    ShiftLeftNoOverflow(a.o1, 16);
    ShiftLeftNoOverflow(a.o2, 8);
  }

  /**
   * The octet formula: when the first four segments parse to the octets of `a` (in any
   * spelling Long.parseLong accepts; segments after the fourth are ignored), ipToLong
   * gives o0·2^24 + o1·2^16 + o2·2^8 + o3, which fits in 32 bits.
   */
  lemma OctetFormula(ip: string, a: Inet4Address)
    requires |Split(ip)| >= 4
    requires ParseLong(Split(ip)[0]) == Some(a.o0) && ParseLong(Split(ip)[1]) == Some(a.o1)
    requires ParseLong(Split(ip)[2]) == Some(a.o2) && ParseLong(Split(ip)[3]) == Some(a.o3)
    ensures IpToLong(ip) == Success(QuadValue(a))
    ensures 0 <= QuadValue(a) < 0x1_0000_0000
  {
    ShiftOrIsSum(a);
  }

  /** The canonical text of an address converts to its numeric value. */
  lemma IpToLongOfHostAddress(a: Inet4Address)
    ensures IpToLong(HostAddress(a)) == Success(QuadValue(a))
  {
    SplitHostAddress(a);
    ParseLongOfDecimal(a.o0);
    ParseLongOfDecimal(a.o1);
    ParseLongOfDecimal(a.o2);
    ParseLongOfDecimal(a.o3);
    OctetFormula(HostAddress(a), a);
  }

  /** Distinct octet tuples give distinct values. */
  lemma QuadValueInjective(a: Inet4Address, b: Inet4Address)
    ensures QuadValue(a) == QuadValue(b) <==> a == b
  {
    if QuadValue(a) == QuadValue(b) {
      assert a.o0 == b.o0;
      assert a.o1 == b.o1;
      assert a.o2 == b.o2;
    }
  }

  /**
   * ipToLong returns a value exactly when the split has at least four segments and each of
   * the first four parses; otherwise it throws.
   */
  lemma IpToLongSucceeds(ip: string)
    ensures IpToLong(ip).Success?
        <==> |Split(ip)| >= 4 && forall k :: 0 <= k < 4 ==> ParseLong(Split(ip)[k]).Some?
  {
    CombineSucceeds(Split(ip));
  }

  lemma CombineSucceeds(s: seq<string>)
    ensures Combine(s).Success? <==> |s| >= 4 && forall k :: 0 <= k < 4 ==> ParseLong(s[k]).Some?
  {
    if |s| >= 4 && ParseLong(s[0]).Some? && ParseLong(s[1]).Some?
       && ParseLong(s[2]).Some? && ParseLong(s[3]).Some? {
      assert Segment(s, 0).Success? && Segment(s, 1).Success?;
      assert Segment(s, 2).Success? && Segment(s, 3).Success?;
    }
  }

  /**
   * When ipToLong throws, it is for the first of the four segments that is missing or
   * does not parse.
   */
  lemma CombineFirstError(s: seq<string>)
    ensures Combine(s).Failure? ==>
      exists k :: 0 <= k < 4 && Segment(s, k).Failure? && Combine(s).error == Segment(s, k).error
        && forall j :: 0 <= j < k ==> Segment(s, j).Success?
  {
    if Combine(s).Failure? {
      if Segment(s, 0).Failure? {
        assert Combine(s).error == Segment(s, 0).error;
      } else if Segment(s, 1).Failure? {
        assert Combine(s).error == Segment(s, 1).error;
      } else if Segment(s, 2).Failure? {
        assert Combine(s).error == Segment(s, 2).error;
      } else {
        assert Combine(s).error == Segment(s, 3).error;
      }
    }
  }

  /** Segments after the fourth are never looked at. */
  lemma CombineIgnoresExtraSegments(s: seq<string>, t: seq<string>)
    requires |s| >= 4 && |t| >= 4 && s[..4] == t[..4]
    ensures Combine(s) == Combine(t)
  {
    assert s[0] == s[..4][0] && s[1] == s[..4][1] && s[2] == s[..4][2] && s[3] == s[..4][3];
    assert t[0] == t[..4][0] && t[1] == t[..4][1] && t[2] == t[..4][2] && t[3] == t[..4][3];
  }

  /** An inclusive range of ipToLong values. */
  datatype Range = Range(low: Long, high: Long)

  /** The first and last address of each private block, as the source spells them in text. */
  const PrivateIpBlocks: seq<(Inet4Address, Inet4Address)> := [
    (Inet4Address(10, 0, 0, 0), Inet4Address(10, 255, 255, 255)),
    (Inet4Address(172, 16, 0, 0), Inet4Address(172, 31, 255, 255)),
    (Inet4Address(192, 168, 0, 0), Inet4Address(192, 168, 255, 255))
  ]

  /** The range from a block's first to its last address. */
  function BlockRange(block: (Inet4Address, Inet4Address)): Range
  {
    Range(QuadValue(block.0), QuadValue(block.1))
  }

  /** PRIVATE_IP_RANGES: 10.0.0.0/8, 172.16.0.0/12 and 192.168.0.0/16 as ipToLong values. */
  const PrivateIpRanges: seq<Range> :=
    [BlockRange(PrivateIpBlocks[0]), BlockRange(PrivateIpBlocks[1]), BlockRange(PrivateIpBlocks[2])]

  /** Each bound of the table is ipToLong of the text of the block's first or last address. */
  lemma RangeTableText()
    ensures |PrivateIpRanges| == |PrivateIpBlocks|
    ensures forall i :: 0 <= i < |PrivateIpRanges| ==>
      && IpToLong(HostAddress(PrivateIpBlocks[i].0)) == Success(PrivateIpRanges[i].low)
      && IpToLong(HostAddress(PrivateIpBlocks[i].1)) == Success(PrivateIpRanges[i].high)
  {
    forall i | 0 <= i < |PrivateIpRanges|
      ensures IpToLong(HostAddress(PrivateIpBlocks[i].0)) == Success(PrivateIpRanges[i].low)
      ensures IpToLong(HostAddress(PrivateIpBlocks[i].1)) == Success(PrivateIpRanges[i].high)
    {
      IpToLongOfHostAddress(PrivateIpBlocks[i].0);
      IpToLongOfHostAddress(PrivateIpBlocks[i].1);
    }
  }

  /** Three ranges, each non-empty, in ascending order and pairwise disjoint. */
  lemma RangeTableShape()
    ensures |PrivateIpRanges| == 3
    ensures forall i :: 0 <= i < 3 ==> PrivateIpRanges[i].low <= PrivateIpRanges[i].high
    ensures forall i, j :: 0 <= i < j < 3 ==> PrivateIpRanges[i].high < PrivateIpRanges[j].low
  {
  }

  /** isPrivateIP's loop: scans the ranges in order and stops at the first that holds `v`. */
  function InAnyRange(v: Long, ranges: seq<Range>): bool
  {
    if ranges == [] then false
    else if ranges[0].low <= v && v <= ranges[0].high then true
    else InAnyRange(v, ranges[1..])
  }

  /** The scan finds `v` exactly when some range of the table holds it. */
  lemma {:induction false} InAnyRangeIff(v: Long, ranges: seq<Range>)
    ensures InAnyRange(v, ranges) <==> exists r :: r in ranges && r.low <= v <= r.high
  {
    if ranges != [] {
      InAnyRangeIff(v, ranges[1..]);
      assert ranges == [ranges[0]] + ranges[1..];
    }
  }

  /** The order of the scan does not matter: any table with the same ranges agrees. */
  lemma ScanOrderIrrelevant(v: Long, ranges: seq<Range>, reordered: seq<Range>)
    requires forall r :: r in ranges <==> r in reordered
    ensures InAnyRange(v, ranges) == InAnyRange(v, reordered)
  {
    InAnyRangeIff(v, ranges);
    InAnyRangeIff(v, reordered);
  }

  /** isPrivateIP: ipToLong's exception propagates; otherwise the range scan decides. */
  function IsPrivateIP(ip: string): Result<bool, IpError>
  {
    var v :- IpToLong(ip);
    Success(InAnyRange(v, PrivateIpRanges))
  }

  /** The private blocks of RFC 1918, section 3, on octets. */
  predicate Rfc1918(a: Inet4Address)
  {
    a.o0 == 10 || (a.o0 == 172 && 16 <= a.o1 < 32) || (a.o0 == 192 && a.o1 == 168)
  }

  /** The scan over the table, as three intervals. */
  lemma InPrivateIpRanges(v: Long)
    ensures InAnyRange(v, PrivateIpRanges)
        <==> (|| 0x0A00_0000 <= v <= 0x0AFF_FFFF
              || 0xAC10_0000 <= v <= 0xAC1F_FFFF
              || 0xC0A8_0000 <= v <= 0xC0A8_FFFF)
  {
    InAnyRangeIff(v, PrivateIpRanges);
  }

  /** The three blocks of RFC 1918 as intervals of values. */
  lemma Rfc1918Intervals(a: Inet4Address)
    ensures Rfc1918(a)
        <==> (|| 0x0A00_0000 <= QuadValue(a) <= 0x0AFF_FFFF
              || 0xAC10_0000 <= QuadValue(a) <= 0xAC1F_FFFF
              || 0xC0A8_0000 <= QuadValue(a) <= 0xC0A8_FFFF)
  {
  }

  /** On canonical text, isPrivateIP holds exactly for the RFC 1918 blocks. */
  lemma IsPrivateHostAddress(a: Inet4Address)
    ensures IsPrivateIP(HostAddress(a)) == Success(Rfc1918(a))
  {
    var v := QuadValue(a);
    assert IpToLong(HostAddress(a)) == Success(v) by {
      IpToLongOfHostAddress(a);
    }
    InPrivateIpRanges(v);
    Rfc1918Intervals(a);
  }

  /** The numeric check on sample addresses; 169.254.1.1 and 127.0.0.1 are not in its table. */
  lemma PrivateExamples()
    ensures IsPrivateIP(HostAddress(Inet4Address(10, 0, 0, 1))) == Success(true)
    ensures IsPrivateIP(HostAddress(Inet4Address(172, 16, 5, 5))) == Success(true)
    ensures IsPrivateIP(HostAddress(Inet4Address(192, 168, 1, 1))) == Success(true)
    ensures IsPrivateIP(HostAddress(Inet4Address(8, 8, 8, 8))) == Success(false)
    ensures IsPrivateIP(HostAddress(Inet4Address(172, 32, 0, 1))) == Success(false)
    ensures IsPrivateIP(HostAddress(Inet4Address(169, 254, 1, 1))) == Success(false)
    ensures IsPrivateIP(HostAddress(Inet4Address(127, 0, 0, 1))) == Success(false)
  {
    IsPrivateHostAddress(Inet4Address(10, 0, 0, 1));
    IsPrivateHostAddress(Inet4Address(172, 16, 5, 5));
    IsPrivateHostAddress(Inet4Address(192, 168, 1, 1));
    IsPrivateHostAddress(Inet4Address(8, 8, 8, 8));
    IsPrivateHostAddress(Inet4Address(172, 32, 0, 1));
    IsPrivateHostAddress(Inet4Address(169, 254, 1, 1));
    IsPrivateHostAddress(Inet4Address(127, 0, 0, 1));
  }
  /**
   * What the database reader holds for an address. A name the database lacks prints as
   * "null"; latitude and longitude are kept as the text `%f` makes of them.
   */
  datatype Location = Location(country: Option<string>, city: Option<string>,
                               latitude: string, longitude: string)

  /** The reader's answer: a location, AddressNotFoundException, or any other failure. */
  datatype LookupOutcome = Located(location: Location) | NotFound | LookupError

  function NameText(name: Option<string>): string
  {
    match name
    case Some(n) => n
    case None => "null"
  }

  function LocationLine(loc: Location): string
  {
    "Country: " + NameText(loc.country) + ", City: " + NameText(loc.city)
    + ", Latitude: " + loc.latitude + ", Longitude: " + loc.longitude
  }

  /**
   * getGeolocation: a private address is reported without asking the reader; otherwise
   * the reader's outcome becomes one line. ipToLong's exception is not caught.
   */
  function GetGeolocation(lookup: string -> LookupOutcome, ip: string): Result<string, IpError>
  {
    var isPrivate :- IsPrivateIP(ip);
    if isPrivate then Success("Private IP: " + ip)
    else
      match lookup(ip)
      case Located(loc) => Success(LocationLine(loc))
      case NotFound => Success("GeoIP lookup failed for IP: " + ip)
      case LookupError => Success("GeoIP lookup error for IP: " + ip)
  }

  /** The four kinds of line getGeolocation writes, told apart by how they begin. */
  datatype LineKind = PrivateLine | LocatedLine | NotFoundLine | ErrorLine | OtherLine

  function KindOf(line: string): LineKind
  {
    if "Private IP: " <= line then PrivateLine
    else if "Country: " <= line then LocatedLine
    else if "GeoIP lookup failed for IP: " <= line then NotFoundLine
    else if "GeoIP lookup error for IP: " <= line then ErrorLine
    else OtherLine
  }

  /** The kind of line the source promises for an address and a reader outcome. */
  function ExpectedKind(isPrivate: bool, outcome: LookupOutcome): LineKind
  {
    if isPrivate then PrivateLine
    else
      match outcome
      case Located(_) => LocatedLine
      case NotFound => NotFoundLine
      case LookupError => ErrorLine
  }

  /** Each of the four line formats is recognised as its own kind. */
  lemma LineKinds(ip: string, loc: Location)
    ensures KindOf("Private IP: " + ip) == PrivateLine
    ensures KindOf(LocationLine(loc)) == LocatedLine
    ensures KindOf("GeoIP lookup failed for IP: " + ip) == NotFoundLine
    ensures KindOf("GeoIP lookup error for IP: " + ip) == ErrorLine
  {
    var located := LocationLine(loc);
    assert "Country: " <= located;
    assert !("Private IP: " <= located) by {
      assert located[0] == 'C';
    }
    var failed := "GeoIP lookup failed for IP: " + ip;
    assert failed[0] == 'G' && failed[13] == 'f';
    var error := "GeoIP lookup error for IP: " + ip;
    assert error[0] == 'G' && error[13] == 'e';
  }

  /**
   * getGeolocation throws exactly when ipToLong does, with the same error, and otherwise
   * writes a line whose kind is that of the address and the reader's outcome.
   */
  lemma GeolocationCases(lookup: string -> LookupOutcome, ip: string)
    ensures IpToLong(ip).Failure? ==> GetGeolocation(lookup, ip) == Failure(IpToLong(ip).error)
    ensures IpToLong(ip).Success? ==>
      && GetGeolocation(lookup, ip).Success?
      && KindOf(GetGeolocation(lookup, ip).value) == ExpectedKind(IsPrivateIP(ip).value, lookup(ip))
  {
    if IpToLong(ip).Success? {
      var outcome := lookup(ip);
      var loc := if outcome.Located? then outcome.location else Location(None, None, "", "");
      LineKinds(ip, loc);
    }
  }

  /** For a private address the line is "Private IP: " and the address, whatever the reader. */
  lemma GeolocationOfPrivate(lookup: string -> LookupOutcome, other: string -> LookupOutcome, ip: string)
    requires IsPrivateIP(ip) == Success(true)
    ensures GetGeolocation(lookup, ip) == Success("Private IP: " + ip)
    ensures GetGeolocation(other, ip) == GetGeolocation(lookup, ip)
  {
  }

  /** For any other valid address the line follows the reader's outcome. */
  lemma GeolocationOfRoutable(lookup: string -> LookupOutcome, ip: string)
    requires IsPrivateIP(ip) == Success(false)
    ensures lookup(ip).NotFound? ==> GetGeolocation(lookup, ip) == Success("GeoIP lookup failed for IP: " + ip)
    ensures lookup(ip).LookupError? ==> GetGeolocation(lookup, ip) == Success("GeoIP lookup error for IP: " + ip)
    ensures lookup(ip).Located? ==> GetGeolocation(lookup, ip) == Success(LocationLine(lookup(ip).location))
    ensures !("Private IP: " <= GetGeolocation(lookup, ip).value)
  {
    GeolocationCases(lookup, ip);
  }

  /** The line for an address's canonical text: getGeolocation never throws on it. */
  function GeolocationText(lookup: string -> LookupOutcome, a: Inet4Address): (line: string)
    ensures GetGeolocation(lookup, HostAddress(a)) == Success(line)
  {
    IsPrivateHostAddress(a);
    GetGeolocation(lookup, HostAddress(a)).value
  }
}
