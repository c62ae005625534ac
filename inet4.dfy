/** IPv4 addresses as a packet header carries them, and their canonical text. */
module Inet4 {
  import opened JavaText

  type Octet = x: int | 0 <= x < 256

  /** The four bytes of an IPv4 address, read unsigned. */
  datatype Inet4Address = Inet4Address(o0: Octet, o1: Octet, o2: Octet, o3: Octet)

  function DecimalOctets(a: Inet4Address): seq<string>
  {
    [Decimal(a.o0), Decimal(a.o1), Decimal(a.o2), Decimal(a.o3)]
  }

  /** Inet4Address.getHostAddress: the four bytes in decimal, separated by dots. */
  function HostAddress(a: Inet4Address): string
  {
    Decimal(a.o0) + "." + Decimal(a.o1) + "." + Decimal(a.o2) + "." + Decimal(a.o3)
  }

  lemma HostAddressIsJoin(a: Inet4Address)
    ensures HostAddress(a) == Join(DecimalOctets(a))
  {
    var d := DecimalOctets(a);
    assert Join(d[1..][1..]) == d[2] + "." + d[3] by {
      assert d[1..][1..][1..] == [d[3]];
    }
    assert Join(d[1..]) == d[1] + "." + (d[2] + "." + d[3]);
    assert Join(d) == d[0] + "." + (d[1] + "." + (d[2] + "." + d[3]));
  }

  /** Splitting the host address at its dots gives back the four decimal octets. */
  lemma SplitHostAddress(a: Inet4Address)
    ensures Split(HostAddress(a)) == DecimalOctets(a)
  {
    HostAddressIsJoin(a);
    SplitOfJoin(DecimalOctets(a));
  }

  /** Distinct addresses have distinct host-address text. */
  lemma HostAddressInjective(a: Inet4Address, b: Inet4Address)
    ensures HostAddress(a) == HostAddress(b) <==> a == b
  {
    SplitHostAddress(a);
    SplitHostAddress(b);
    if HostAddress(a) == HostAddress(b) {
      assert DecimalOctets(a) == DecimalOctets(b);
      DecimalInjective(a.o0, b.o0);
      DecimalInjective(a.o1, b.o1);
      DecimalInjective(a.o2, b.o2);
      DecimalInjective(a.o3, b.o3);
    }
  }
}
