/**
 * Interface addresses as `net.InterfaceAddrs` reports them, and the test
 * `determineUrl` applies to each one before scanning it.
 */
module Addresses {
  import opened Wrappers
  import opened Text

  type Octet = x: int | 0 <= x < 256

  /**
   * An IP address. `IPv4` is any address whose `To4()` is non-nil (this
   * includes IPv4-mapped IPv6 addresses); `IPv6` stands for every other
   * address, of which only the loopback flag matters here.
   */
  datatype IP = IPv4(a: Octet, b: Octet, c: Octet, d: Octet) | IPv6(isLoopback: bool)

  /**
   * One entry of the host's interface address list: an `*net.IPNet`
   * (address plus the mask the interface is configured with), or any other
   * `net.Addr` implementation.
   */
  datatype InterfaceAddr = IPNet(ip: IP, mask: seq<Octet>) | OtherAddr

  const ClassAMask: nat := 0xff00_0000
  const ClassBMask: nat := 0xffff_0000
  const ClassCMask: nat := 0xffff_ff00

  /** `ip.IsLoopback()`: 127.0.0.0/8 for IPv4, ::1 otherwise. */
  function IsLoopback(ip: IP): (loopback: bool)
    ensures ip.IPv4? ==> (loopback <==> ip.a == 127)
  {
    match ip
    case IPv4(a, _, _, _) => a == 127
    case IPv6(isLoopback) => isLoopback
  }

  /**
   * `ip.DefaultMask()`: the classful mask chosen by the leading bits of the
   * first octet (class A below 128, class B below 192, class C for all the
   * rest), read as a 32-bit number; nil (`None`) for a non-IPv4 address.
   */
  function DefaultMask(ip: IP): (mask: Option<nat>)
    ensures mask.Some? <==> ip.IPv4?
    ensures mask == Some(ClassCMask) <==> ip.IPv4? && ip.a >= 192
    ensures ip.IPv4? && ip.a < 128 ==> mask == Some(ClassAMask)
    ensures ip.IPv4? && 128 <= ip.a < 192 ==> mask == Some(ClassBMask)
  {
    match ip
    case IPv4(a, _, _, _) =>
      if a < 0x80 then Some(ClassAMask)
      else if a < 0xC0 then Some(ClassBMask)
      else Some(ClassCMask)
    case IPv6(_) => None
  }

  /**
   * Whether `determineUrl` scans an interface address: it must be an
   * `*net.IPNet`, not loopback, IPv4, and have the class C default mask.
   * The interface's configured mask plays no part.
   */
  function Qualifies(addr: InterfaceAddr): (ok: bool)
    ensures ok <==> addr.IPNet? && addr.ip.IPv4? && addr.ip.a >= 192
  {
    addr.IPNet? && !IsLoopback(addr.ip) && addr.ip.IPv4?
    && DefaultMask(addr.ip) == Some(ClassCMask)
  }

  /**
   * `ip.String()` of an IPv4 address: dotted decimal. Splitting it at the
   * dots gives back the four decimal octets.
   */
  function IPv4String(ip: IP): (s: string)
    requires ip.IPv4?
    ensures Split(s, '.') == [Decimal(ip.a), Decimal(ip.b), Decimal(ip.c), Decimal(ip.d)]
  {
    var fields := [Decimal(ip.a), Decimal(ip.b), Decimal(ip.c), Decimal(ip.d)];
    NoNonDigit(fields, '.');
    SplitJoin(fields, '.');
    Join(fields, '.')
  }

  /**
   * `strings.Split(ip.String(), ".")` of an IPv4 address has exactly four
   * fields, so the four-field guard never skips one, and each field reads
   * back as its octet.
   */
  lemma {:induction false} DottedQuadFields(ip: IP)
    requires ip.IPv4?
    ensures var fields := Split(IPv4String(ip), '.');
      |fields| == 4
      && ParseDecimal(fields[0]) == ip.a && ParseDecimal(fields[1]) == ip.b
      && ParseDecimal(fields[2]) == ip.c && ParseDecimal(fields[3]) == ip.d
  {
    DecimalRoundTrip(ip.a);
    DecimalRoundTrip(ip.b);
    DecimalRoundTrip(ip.c);
    DecimalRoundTrip(ip.d);
  }

  /**
   * The classful test is what decides: a 10.x or 172.16.x address is never
   * scanned, a 192.168.x address is scanned whatever its configured prefix,
   * and a loopback IPv4 address would already fail the mask test.
   */
  lemma ClassfulSelection(mask: seq<Octet>)
    ensures !Qualifies(IPNet(IPv4(10, 0, 0, 5), mask))
    ensures !Qualifies(IPNet(IPv4(172, 16, 0, 1), mask))
    ensures Qualifies(IPNet(IPv4(192, 168, 1, 5), mask))
    ensures forall ip: IP :: ip.IPv4? && IsLoopback(ip) ==> DefaultMask(ip) != Some(ClassCMask)
  {
  }
}
