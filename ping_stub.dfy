/** The non-unix build of libping (ping_stub.go): the network name handed to
    icmp.ListenPacket for each address family.

    The name has the form "ip" + version + ":" + protocol, where the protocol is
    the IANA protocol number of the ICMP flavour of that family: 1 for ICMP
    (RFC 792) and 58 for ICMPv6 (the Next Header value of section 1 of RFC 4443).
    ParseNetwork reads such a name back and is the partner of IcmpNetwork. */
module PingStub {
  import opened PingTypes

  /** isUnix on the non-unix build. */
  const IsUnix: bool := false

  /** The IP version digit that follows "ip" in a network name. */
  function VersionDigit(f: Family): char
  {
    if f.V6? then '6' else '4'
  }

  /** The IANA protocol number of the ICMP flavour of a family. */
  function ProtocolNumber(f: Family): nat
  {
    if f.V6? then 58 else 1
  }

  /** The network string for icmp.ListenPacket, built as the source builds it:
      "ip" followed by a family-dependent suffix. */
  function IcmpNetwork(f: Family): string
  {
    var network := "ip";
    if f.V6? then network + "6:58" else network + "4:1"
  }

  /** The network name is "ip", the version digit, ':' and the protocol number in
      decimal. */
  lemma IcmpNetworkParts(f: Family)
    ensures IcmpNetwork(f) == "ip" + [VersionDigit(f)] + ":" + DecimalString(ProtocolNumber(f))
  {
  }

  // Decimal numerals, used to read the protocol number of a network name.

  function Digit(d: nat): char
    requires d < 10
  {
    "0123456789"[d]
  }

  predicate IsDigit(c: char)
  {
    '0' <= c <= '9'
  }

  function DigitValue(c: char): nat
    requires IsDigit(c)
  {
    c as int - '0' as int
  }

  /** The decimal numeral of n, without leading zeros. */
  function DecimalString(n: nat): (s: string)
    ensures |s| >= 1
    ensures forall i :: 0 <= i < |s| ==> IsDigit(s[i])
    decreases n
  {
    if n < 10 then [Digit(n)] else DecimalString(n / 10) + [Digit(n % 10)]
  }

  /** The value of a non-empty string of decimal digits; None for anything else. */
  function ParseDecimal(s: string): Option<nat>
    decreases |s|
  {
    if s == [] || !IsDigit(s[|s| - 1]) then None
    else if |s| == 1 then Some(DigitValue(s[0]))
    else match ParseDecimal(s[..|s| - 1])
      case None => None
      case Some(p) => Some(10 * p + DigitValue(s[|s| - 1]))
  }

  lemma {:induction false} DecimalRoundTrip(n: nat)
    ensures ParseDecimal(DecimalString(n)) == Some(n)
    decreases n
  {
    if n >= 10 {
      var s := DecimalString(n);
      assert s[..|s| - 1] == DecimalString(n / 10);
      DecimalRoundTrip(n / 10);
      assert DigitValue(Digit(n % 10)) == n % 10;
    } else {
      assert DigitValue(Digit(n)) == n;
    }
  }

  /** The two parts of a network name "ip<version>:<protocol>". */
  datatype NetworkName = NetworkName(version: char, protocol: nat)

  function ParseNetwork(s: string): Option<NetworkName>
  {
    if |s| < 5 || s[..2] != "ip" || s[3] != ':' then None
    else match ParseDecimal(s[4..])
      case None => None
      case Some(p) => Some(NetworkName(s[2], p))
  }

  /** The family a network name stands for, when its version and protocol agree. */
  function NetworkFamily(s: string): Option<Family>
  {
    match ParseNetwork(s)
    case Some(NetworkName('4', 1)) => Some(V4)
    case Some(NetworkName('6', 58)) => Some(V6)
    case _ => None
  }

  /** IcmpNetwork reads back as the family's version digit and protocol number. */
  lemma NetworkRoundTrip(f: Family)
    ensures ParseNetwork(IcmpNetwork(f)) == Some(NetworkName(VersionDigit(f), ProtocolNumber(f)))
    ensures NetworkFamily(IcmpNetwork(f)) == Some(f)
  {
    var s := IcmpNetwork(f);
    IcmpNetworkParts(f);
    assert s[4..] == DecimalString(ProtocolNumber(f));
    DecimalRoundTrip(ProtocolNumber(f));
  }

  /** Distinct families never share a network name. */
  lemma IcmpNetworkInjective(f: Family, g: Family)
    ensures IcmpNetwork(f) == IcmpNetwork(g) <==> f == g
  {
    NetworkRoundTrip(f);
    NetworkRoundTrip(g);
  }

  /** The protocol number in the name is 58 exactly for IPv6 and 1 exactly for IPv4. */
  lemma ProtocolSuffix(f: Family)
    ensures ParseNetwork(IcmpNetwork(f)).Some?
    ensures ParseNetwork(IcmpNetwork(f)).value.protocol == 58 <==> f == V6
    ensures ParseNetwork(IcmpNetwork(f)).value.protocol == 1 <==> f == V4
  {
    NetworkRoundTrip(f);
  }

  /** Every network name starts with "ip" and holds exactly one ':'. */
  lemma IcmpNetworkShape(f: Family)
    ensures |IcmpNetwork(f)| >= 2 && IcmpNetwork(f)[..2] == "ip"
    ensures multiset(IcmpNetwork(f))[':'] == 1
  {
    var digits := DecimalString(ProtocolNumber(f));
    IcmpNetworkParts(f);
    assert IcmpNetwork(f) == "ip" + [VersionDigit(f)] + ":" + digits;
  }
}
