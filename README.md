# GeoIP network analyzer, modelled in Dafny

The analyzer reads an offline packet capture, takes the source and destination
address of every IPv4 packet, and writes one line per public address it has not
reported before: `Source IP: <ip> Geolocation: <line>` or
`Destination IP: <ip> Geolocation: <line>`. Two components do the work:

- `GeoIP` turns dotted-decimal text into a number with shifts and ors on Java
  `long`s (`ipToLong`), tests it against a constant table of the three RFC 1918
  ranges (RFC 1918, section 3: 10/8, 172.16/12, 192.168/16) in `isPrivateIP`,
  and turns a database lookup into one line of text (`getGeolocation`).
- `PacketCapture` keeps, per instance, the set of address texts it has already
  processed, drops addresses that start with one of the prefixes `10.`, `172.`,
  `192.168.`, `169.254.` (its own `isPrivateIP`), and runs the analysis loop with
  a stop poll before each packet.

The files:

- `wrappers.dfy`: `Option` and `Result`.
- `java_long.dfy`: Java `long` arithmetic on integers (two's-complement wrap,
  `<<`, `|` through a bitwise or on naturals).
- `java_text.dfy`: `String.split("\\.")`, `Long.parseLong` and decimal text.
- `inet4.dfy`: IPv4 addresses and `Inet4Address.getHostAddress`.
- `geoip.dfy`: `ipToLong`, the range table, `isPrivateIP`, `getGeolocation`.
- `packet_capture.dfy`: the prefix filter, the analysis as a fold over packets
  (`Analysis`), and the `PacketCapture` class whose `AnalyzePcap` loop is proved
  against it.

`GeoIP.java` is pure code, so it is modelled with functions and lemmas. Its
exceptions become `Result` failures. `PacketCapture.analyzePcap` mutates
`processedIPs` in a loop, so it is a method of a class with that field. The
callback becomes the returned sequence of lines. The two blocks at
PacketCapture.java:45-49 and 52-56 differ only in their label, so they are one
helper method, `ReportIfNew`, called for the source and then the destination.
The class also keeps a ghost history of what it reported. Its invariant says
three things: `processedIPs` is exactly the texts in that history, no address
appears twice in it, and no address in it is private by prefix.

The program has two private-address checks that disagree: the numeric table in
GeoIP.java and the prefix set in PacketCapture.java. The model keeps both as
written and proves how they relate (`PrefixFilterCoversNumeric`,
`FiltersDisagree`).

Three more behaviours of the code are kept as written:

- Neither private check covers loopback (127/8). The numeric table also leaves
  out link-local (169.254/16), which the prefix set includes.
- `processedIPs` belongs to the instance, not to one run. A second
  `analyzePcap` call on the same analyzer never reports an address the first
  call reported.
- `ipToLong` throws on malformed text, and `getGeolocation` does not catch it.
  In the loop this cannot happen, because the text always comes from
  `getHostAddress`.

## Model

| member | source | states |
|---|---|---|
| JavaLong.ShiftLeft | GeoIP.java:54-56 | `<<` on long: the product by 2^(k mod 64), wrapped to 64 bits; stated by `ShiftLeftNoOverflow` |
| JavaLong.Or | GeoIP.java:54-57 | bitwise or on long, on the two's-complement bits; stated by `OrNoOverlap` and `OrOfDisjointBits` |
| JavaLong.OrOfDisjointBits | GeoIP.java:54-57 | or-ing a value shifted past all bits of another equals adding them |
| JavaLong.ShiftLeftNoOverflow | GeoIP.java:54-56 | `x << k` on a non-negative long equals x·2^k when that stays below 2^63 |
| JavaLong.OrNoOverlap | GeoIP.java:54-57 | the bitwise or of a shifted field and a smaller field is their sum, on longs |
| JavaText.Decimal | PacketCapture.java:41-42 | the decimal text of a number is non-empty, all ASCII digits, and dot-free |
| JavaText.DecimalNoLeadingZero | PacketCapture.java:41-42 | the decimal text of a positive number does not start with '0', so only "0" does |
| JavaText.ParseLong | GeoIP.java:54-57 | `Long.parseLong`: optional sign, ASCII digits, range check, otherwise None; behaviour stated by `ParseLongOfDecimal`, `IpToLongSucceeds` and `CombineFirstError` |
| JavaText.Split | GeoIP.java:53 | `split("\\.")`: the text itself without a dot, else its pieces minus trailing empty ones; stated by `SplitOfJoin`, `SplitDropsTrailingEmpty` and `Inet4.SplitHostAddress` |
| JavaText.DecimalRoundTrip | GeoIP.java:54-57 | reading back the decimal text of n gives n |
| JavaText.ParseLongOfDecimal | GeoIP.java:54-57 | `Long.parseLong` of the decimal text of any n below 2^63 returns n |
| JavaText.DecimalInjective | PacketCapture.java:41-42 | two numbers have the same decimal text exactly when they are equal |
| JavaText.FirstDot | GeoIP.java:53 | the index found is a dot, and no dot comes before it |
| JavaText.Pieces | GeoIP.java:53 | cutting at every dot yields at least one piece |
| JavaText.JoinOfPieces | GeoIP.java:53 | joining the pieces back with dots restores the text |
| JavaText.PiecesOfJoin | GeoIP.java:53 | cutting a dot-join of dot-free parts gives the parts back |
| JavaText.SplitOfJoin | GeoIP.java:53 | `split("\\.")` inverts the dot-join when the last part is non-empty |
| JavaText.SplitDropsTrailingEmpty | GeoIP.java:53 | a trailing empty part adds nothing to the split, as "1.2.3.4." splits into four segments |
| JavaText.DotPrefix | PacketCapture.java:64-66 | `x.u` is a prefix of `y.v` exactly when x = y and u is a prefix of v |
| Inet4.HostAddress | PacketCapture.java:41-42 | `getHostAddress`: the four octets in decimal, separated by dots; stated by `HostAddressIsJoin`, `SplitHostAddress`, `HostAddressInjective` and `JavaText.DecimalNoLeadingZero` |
| Inet4.HostAddressIsJoin | PacketCapture.java:41-42 | `getHostAddress` is the four decimal octets joined by dots |
| Inet4.SplitHostAddress | PacketCapture.java:41-42 | splitting an address's text at dots gives its four decimal octets |
| Inet4.HostAddressInjective | PacketCapture.java:41-42 | distinct addresses have distinct texts, and equal addresses equal texts |
| GeoIP.IpToLong | GeoIP.java:52-58 | `ipToLong`: split, then the combined expression; stated by `OctetFormula`, `IpToLongOfHostAddress`, `QuadValueInjective` and `IpToLongSucceeds` |
| GeoIP.Combine | GeoIP.java:54-57 | the return expression over the segments, parsed left to right; stated by `CombineSucceeds`, `CombineFirstError`, `CombineIgnoresExtraSegments` and `ShiftOrIsSum` |
| GeoIP.Segment | GeoIP.java:53-57 | one `Long.parseLong(octets[k])`: a missing index or an unparsable segment is an error; stated by `CombineFirstError` |
| GeoIP.ShiftedOctets | GeoIP.java:54-56 | each octet shifted by 24, 16 or 8 equals its multiple of 2^24, 2^16, 2^8 |
| GeoIP.ShiftOrIsSum | GeoIP.java:54-57 | the or of the shifted octets is o0·2^24 + o1·2^16 + o2·2^8 + o3 |
| GeoIP.OctetFormula | GeoIP.java:52-58 | text whose first four segments parse to octets yields that sum, and it lies in [0, 2^32) |
| GeoIP.IpToLongOfHostAddress | GeoIP.java:52-58 | `ipToLong` of an address's own text is its 32-bit value |
| GeoIP.QuadValueInjective | GeoIP.java:52-58 | distinct octet tuples give distinct values |
| GeoIP.IpToLongSucceeds | GeoIP.java:53-57 | `ipToLong` returns a value iff there are at least four segments and the first four parse |
| GeoIP.CombineSucceeds | GeoIP.java:54-57 | the combined expression succeeds iff four segments exist and parse |
| GeoIP.CombineFirstError | GeoIP.java:54-57 | a failure is the error of the first missing or unparsable segment among the first four |
| GeoIP.CombineIgnoresExtraSegments | GeoIP.java:53-57 | segments after the fourth never change the result |
| GeoIP.PrivateIpRanges | GeoIP.java:25-29 | `PRIVATE_IP_RANGES`: the three ranges, each from `ipToLong` of its first and last address; stated by `RangeTableText`, `RangeTableShape` and `InPrivateIpRanges` |
| GeoIP.InAnyRange | GeoIP.java:41-46 | the early-return scan over the ranges; stated by `InAnyRangeIff` and `ScanOrderIrrelevant` |
| GeoIP.IsPrivateIP | GeoIP.java:39-47 | `isPrivateIP`: `ipToLong` then the scan of the table; stated by `IsPrivateHostAddress` and `PrivateExamples` |
| GeoIP.GetGeolocation | GeoIP.java:90-112 | `getGeolocation` over a lookup outcome; stated by `GeolocationCases`, `GeolocationOfPrivate`, `GeolocationOfRoutable` and `GeolocationText` |
| GeoIP.RangeTableText | GeoIP.java:25-29 | each table bound is `ipToLong` of the text of the block's first or last address |
| GeoIP.RangeTableShape | GeoIP.java:25-29 | three ranges, each low ≤ high, ascending and pairwise disjoint |
| GeoIP.InAnyRangeIff | GeoIP.java:41-46 | the early-return scan is true iff some range contains the value |
| GeoIP.ScanOrderIrrelevant | GeoIP.java:41-46 | scanning the same ranges in another order gives the same answer |
| GeoIP.InPrivateIpRanges | GeoIP.java:39-47 | a value is in the table iff it lies in 0x0A000000–0x0AFFFFFF, 0xAC100000–0xAC1FFFFF or 0xC0A80000–0xC0A8FFFF |
| GeoIP.Rfc1918Intervals | GeoIP.java:25-29 | the RFC 1918 octet test agrees with those three intervals |
| GeoIP.IsPrivateHostAddress | GeoIP.java:39-47 | on an address's text, `isPrivateIP` never throws and is true iff the address is in 10/8, 172.16/12 or 192.168/16 |
| GeoIP.PrivateExamples | GeoIP.java:39-47 | 10.0.0.1, 172.16.5.5, 192.168.1.1 are private; 8.8.8.8, 172.32.0.1, 169.254.1.1, 127.0.0.1 are not |
| GeoIP.LineKinds | GeoIP.java:92-110 | the four line formats are told apart by how they begin |
| GeoIP.GeolocationCases | GeoIP.java:90-112 | `getGeolocation` throws iff `ipToLong` does, with its error; otherwise its line has the kind fixed by privacy and lookup outcome |
| GeoIP.GeolocationOfPrivate | GeoIP.java:91-93 | for a private address the line is `Private IP: ` + ip, whatever the database answers |
| GeoIP.GeolocationOfRoutable | GeoIP.java:95-111 | for a public address: not-found, error and located each give their own exact line, never a private line |
| GeoIP.GeolocationText | GeoIP.java:90-112 | on an address's own text `getGeolocation` always returns a line |
| PacketCapture.PrivatePrefixes | PacketCapture.java:18-20 | the four prefixes "10.", "172.", "192.168.", "169.254."; stated by `OneOctetLiterals` and `TwoOctetLiterals` |
| PacketCapture.IsPrivateIP | PacketCapture.java:64-66 | the text starts with some prefix of the set; stated by `PrefixPrivateHostAddress`, `PrefixFilterCoversNumeric` and `FiltersDisagree` |
| PacketCapture.Visit | PacketCapture.java:45-56 | one address: reported and recorded when public and unprocessed; stated by `VisitProcessed`, `VisitConsistent` and `PacketCapture.ReportIfNew` |
| PacketCapture.Step | PacketCapture.java:39-56 | one packet: nothing without IPv4, else source then destination; stated by `StepProcessed` and `SelfTrafficReportedOnce` |
| PacketCapture.Analysis | PacketCapture.java:33-58 | the packets in order; stated by `AnalysisProcessed`, `AnalysisConsistent`, `RunReportsOnlyNew`, `AnalysisAppend`, `NonIpv4Ignored` and `ExampleRun`, and tied to the loop by `PacketCapture.AnalyzePcap` |
| PacketCapture.OneOctetLiterals | PacketCapture.java:18-20 | `10.` and `172.` are the decimal text of one octet followed by a dot |
| PacketCapture.TwoOctetLiterals | PacketCapture.java:18-20 | `192.168.` and `169.254.` are two octets' decimal text, each followed by a dot |
| PacketCapture.FirstOctetPrefix | PacketCapture.java:64-66 | an address's text starts with `t.` iff its first octet is t |
| PacketCapture.TwoOctetPrefix | PacketCapture.java:64-66 | an address's text starts with `t.u.` iff its first two octets are t and u |
| PacketCapture.PrefixPrivateHostAddress | PacketCapture.java:64-66 | on an address's text the prefix filter holds iff o0 = 10, o0 = 172, o0.o1 = 192.168 or o0.o1 = 169.254 |
| PacketCapture.PrefixFilterCoversNumeric | PacketCapture.java:45-52 | every address GeoIP calls private is also private to the prefix filter |
| PacketCapture.FiltersDisagree | PacketCapture.java:18-20 | 172.32.0.1 and 169.254.1.1 are private by prefix but not in GeoIP's table |
| PacketCapture.StopPoint | PacketCapture.java:33-37 | the loop inspects the packets before the first poll that answers true, or all of them |
| PacketCapture.PacketCapture.constructor | PacketCapture.java:25-28 | a new analyzer has processed nothing and reported nothing |
| PacketCapture.PacketCapture.AnalyzePcap | PacketCapture.java:30-62 | the new processed set and report history are those of the analysis of the packets before the stop; the lines are this run's reports in order; the invariant is kept |
| PacketCapture.PacketCapture.ReportIfNew | PacketCapture.java:45-56 | one address: a public, unprocessed one gets its line appended and is recorded; otherwise nothing changes |
| PacketCapture.LinesAppend | PacketCapture.java:47 | appending a report appends exactly its line |
| PacketCapture.AnalysisGrows | PacketCapture.java:45-56 | a run only adds to the processed set and only extends the report history |
| PacketCapture.VisitConsistent | PacketCapture.java:45-49 | handling one address keeps the analyzer's invariant |
| PacketCapture.AnalysisConsistent | PacketCapture.java:45-56 | any run keeps it, so no address is reported twice over an analyzer's lifetime |
| PacketCapture.AnalysisAppend | PacketCapture.java:33-58 | analysing two captures in turn equals analysing their concatenation |
| PacketCapture.NonIpv4Ignored | PacketCapture.java:39-40 | a packet without an IPv4 layer, anywhere in the capture, changes nothing |
| PacketCapture.SelfTrafficReportedOnce | PacketCapture.java:45-56 | a packet from an address to itself is handled as its source alone |
| PacketCapture.VisitProcessed | PacketCapture.java:45-48 | one address adds its text to the processed set iff the prefix filter passes it |
| PacketCapture.StepProcessed | PacketCapture.java:39-56 | one packet adds the texts of its public addresses, and nothing else |
| PacketCapture.PublicIpsUnion | PacketCapture.java:45-52 | the public texts of a union are the union of the public texts |
| PacketCapture.AnalysisProcessed | PacketCapture.java:45-56 | after a run the processed set is the old one plus every public address text of the IPv4 packets |
| PacketCapture.PrivateNeverRecorded | PacketCapture.java:45-55 | a run never adds an address that is private by prefix |
| PacketCapture.RunReportsOnlyNew | PacketCapture.java:45-56 | each line a run writes is about a public address unprocessed before the run and processed after it |
| PacketCapture.ReportedLineNotPrivate | PacketCapture.java:45-54 | for an address the prefix filter passes, GeoIP's check is false and the geolocation is not a private line |
| PacketCapture.StopIgnoresLaterPackets | PacketCapture.java:33-37 | once a poll answers true, packets after it do not change what is inspected |
| PacketCapture.ExampleRun | PacketCapture.java:39-56 | 10.0.0.5→8.8.8.8, 8.8.8.8→10.0.0.5, 1.1.1.1→1.1.1.1 report exactly destination 8.8.8.8 and then source 1.1.1.1 |

## Left out

- NetworkAnalyzerGUI.java and NetworkAnalyzer.java: user interface, threads and argument handling. They are not part of this model.
- Opening and reading the capture (pcap4j `openOffline`, `getNextPacket`) and the swallowed `PcapNativeException`/`NotOpenException`. The capture is a finite sequence of packets. A read failure is the same as a shorter capture: the lines already written stay.
- The MaxMind `DatabaseReader`, `InetAddress.getByName` and the GeoIP constructor and `close`. These are foreign calls. A lookup function from address text to outcome stands for them, and it never changes.
- `lookupIP` (GeoIP.java:63-85) only logs, so its calls at PacketCapture.java:46 and 53 do nothing here. On an address's own text its `isPrivateIP` cannot throw (`GeoIP.IsPrivateHostAddress`).
- `PacketCapture.close` and all `Logger` calls: they only release resources or log. The static `privateIpsLogged` set is never read.
- `%f` formatting of latitude and longitude: floating point. The database location keeps them as already-formatted text.
- `Long.parseLong` also accepts non-ASCII Unicode decimal digits. The model accepts ASCII digits only. This matters only for text that is not an address's own text.
- GeoIP.RangeTableText: the table bounds are stated as `ipToLong` of `getHostAddress` of the block's first and last addresses, not of the literal strings "10.0.0.0" and so on. The two texts are the same.
- GeoIP.PrivateExamples: stated on the text of `Inet4Address` values rather than on literal strings, for the same reason.
- PacketCapture.ReportedLineNotPrivate: states that the geolocation part of a written line is not the private-address line. It does not state that the text "Private IP: " occurs nowhere in the line, because country and city names from the database are free text.
- Packets carry `Inet4Address` values rather than arbitrary strings. The loop only ever sees `getHostAddress` text, which is always a canonical dotted quad.
