/**
 * The URLs `determineUrl` probes: their construction, a parser that undoes
 * it, and the ordered list of every URL the scan would try.
 */
module ProbeUrls {
  import opened Wrappers
  import opened Text
  import opened Addresses

  const UrlHttp: string := "http://"
  const UrlPortPath: string := ":80/api/v2/status"

  /** The host octets probed on each subnet: 100 up to, not including, 254. */
  const FirstHost: nat := 100
  const EndHost: nat := 254
  const HostsPerSubnet: nat := EndHost - FirstHost

  /** The network part `a.b.c` of a subnet and the host octet tried on it. */
  datatype ProbeTarget = ProbeTarget(a: nat, b: nat, c: nat, host: nat)

  /** `http://a.b.c.host:80/api/v2/status`, all four numbers in decimal. */
  function ProbeUrl(t: ProbeTarget): (url: string)
    ensures |url| > |UrlHttp| + |UrlPortPath|
    ensures url[..|UrlHttp|] == UrlHttp && url[|url| - |UrlPortPath|..] == UrlPortPath
  {
    UrlHttp + Join([Decimal(t.a), Decimal(t.b), Decimal(t.c), Decimal(t.host)], '.') + UrlPortPath
  }

  /**
   * Recognises a probe URL: the fixed prefix and suffix around four
   * canonical decimal numbers separated by dots.
   */
  function ParseProbeUrl(s: string): Option<ProbeTarget> {
    if |s| < |UrlHttp| + |UrlPortPath| || s[..|UrlHttp|] != UrlHttp || s[|s| - |UrlPortPath|..] != UrlPortPath then None
    else
      var fields := Split(s[|UrlHttp|..|s| - |UrlPortPath|], '.');
      if |fields| == 4 && forall i :: 0 <= i < 4 ==> IsCanonicalDecimal(fields[i]) then
        Some(ProbeTarget(ParseDecimal(fields[0]), ParseDecimal(fields[1]), ParseDecimal(fields[2]), ParseDecimal(fields[3])))
      else None
  }

  lemma {:induction false} ProbeUrlMiddle(t: ProbeTarget)
    ensures var s := ProbeUrl(t);
      |s| >= |UrlHttp| + |UrlPortPath| && s[..|UrlHttp|] == UrlHttp && s[|s| - |UrlPortPath|..] == UrlPortPath
      && s[|UrlHttp|..|s| - |UrlPortPath|] == Join([Decimal(t.a), Decimal(t.b), Decimal(t.c), Decimal(t.host)], '.')
  {
  }

  /** Parsing a probe URL recovers its target. */
  lemma {:induction false} ParseProbeUrlRoundTrip(t: ProbeTarget)
    ensures ParseProbeUrl(ProbeUrl(t)) == Some(t)
  {
    var fields := [Decimal(t.a), Decimal(t.b), Decimal(t.c), Decimal(t.host)];
    ProbeUrlMiddle(t);
    NoNonDigit(fields, '.');
    SplitJoin(fields, '.');
    DecimalRoundTrip(t.a);
    DecimalRoundTrip(t.b);
    DecimalRoundTrip(t.c);
    DecimalRoundTrip(t.host);
  }

  /** Every string the parser accepts is exactly the URL of what it returns. */
  lemma {:induction false} ParseProbeUrlExact(s: string)
    requires ParseProbeUrl(s).Some?
    ensures ProbeUrl(ParseProbeUrl(s).value) == s
  {
    var middle := s[|UrlHttp|..|s| - |UrlPortPath|];
    var t := ParseProbeUrl(s).value;
    RejoinFields(middle);
    assert Join([Decimal(t.a), Decimal(t.b), Decimal(t.c), Decimal(t.host)], '.') == middle;
    assert s == s[..|UrlHttp|] + middle + s[|s| - |UrlPortPath|..];
  }

  /** Four canonical decimal fields, parsed and printed again, give back the dotted text. */
  lemma {:induction false} RejoinFields(middle: string)
    requires var f := Split(middle, '.'); |f| == 4 && forall i :: 0 <= i < 4 ==> IsCanonicalDecimal(f[i])
    ensures var f := Split(middle, '.');
      Join([Decimal(ParseDecimal(f[0])), Decimal(ParseDecimal(f[1])), Decimal(ParseDecimal(f[2])), Decimal(ParseDecimal(f[3]))], '.') == middle
  {
    var f := Split(middle, '.');
    CanonicalRoundTrip(f[0]);
    CanonicalRoundTrip(f[1]);
    CanonicalRoundTrip(f[2]);
    CanonicalRoundTrip(f[3]);
    assert [Decimal(ParseDecimal(f[0])), Decimal(ParseDecimal(f[1])), Decimal(ParseDecimal(f[2])), Decimal(ParseDecimal(f[3]))] == f;
    JoinSplit(middle, '.');
  }

  /** Distinct targets give distinct URLs. */
  lemma {:induction false} ProbeUrlInjective(t: ProbeTarget, u: ProbeTarget)
    requires ProbeUrl(t) == ProbeUrl(u)
    ensures t == u
  {
    ParseProbeUrlRoundTrip(t);
    ParseProbeUrlRoundTrip(u);
  }

  /** The URL `determineUrl` formats from the fields of `ip.String()` is the probe URL. */
  lemma {:induction false} FormattedUrl(ip: IP, fields: seq<string>, host: nat)
    requires ip.IPv4? && fields == Split(IPv4String(ip), '.')
    ensures |fields| == 4
    ensures UrlHttp + fields[0] + "." + fields[1] + "." + fields[2] + "." + Decimal(host) + UrlPortPath
      == ProbeUrl(ProbeTarget(ip.a, ip.b, ip.c, host))
  {
    JoinFour(Decimal(ip.a), Decimal(ip.b), Decimal(ip.c), Decimal(host), '.');
  }

  /** The first `n` URLs tried on subnet `a.b.c`: host octets 100 to 100 + n - 1. */
  function HostUrls(a: Octet, b: Octet, c: Octet, n: nat): (urls: seq<string>)
    ensures |urls| == n
  {
    if n == 0 then [] else HostUrls(a, b, c, n - 1) + [ProbeUrl(ProbeTarget(a, b, c, FirstHost + n - 1))]
  }

  /** The URLs tried on subnet `a.b.c`, host octet 100 first. */
  function SubnetUrls(a: Octet, b: Octet, c: Octet): (urls: seq<string>)
    ensures |urls| == HostsPerSubnet
  {
    HostUrls(a, b, c, HostsPerSubnet)
  }

  lemma {:induction false} HostUrlsAt(a: Octet, b: Octet, c: Octet, n: nat, i: nat)
    requires i < n
    ensures |HostUrls(a, b, c, n)| == n
    ensures HostUrls(a, b, c, n)[i] == ProbeUrl(ProbeTarget(a, b, c, FirstHost + i))
  {
    if i < n - 1 {
      HostUrlsAt(a, b, c, n - 1, i);
    } else if n > 1 {
      HostUrlsAt(a, b, c, n - 1, 0);
    }
  }

  lemma {:induction false} HostUrlsPrefix(a: Octet, b: Octet, c: Octet, m: nat, n: nat)
    requires m <= n
    ensures HostUrls(a, b, c, m) <= HostUrls(a, b, c, n)
    decreases n
  {
    if m < n {
      HostUrlsPrefix(a, b, c, m, n - 1);
    }
  }

  lemma {:induction false} SubnetUrlAt(a: Octet, b: Octet, c: Octet, i: nat)
    requires i < HostsPerSubnet
    ensures |SubnetUrls(a, b, c)| == HostsPerSubnet
    ensures SubnetUrls(a, b, c)[i] == ProbeUrl(ProbeTarget(a, b, c, FirstHost + i))
  {
    HostUrlsAt(a, b, c, HostsPerSubnet, i);
  }

  /** The URLs tried for one interface address: none unless it qualifies. */
  function CandidatesOf(addr: InterfaceAddr): (urls: seq<string>)
    ensures |urls| == if Qualifies(addr) then HostsPerSubnet else 0
  {
    if Qualifies(addr) then SubnetUrls(addr.ip.a, addr.ip.b, addr.ip.c) else []
  }

  /**
   * Every URL the scan tries, in order, if nothing answers: at most one
   * subnet's worth per address.
   */
  function Candidates(addrs: seq<InterfaceAddr>): (urls: seq<string>)
    ensures |urls| <= HostsPerSubnet * |addrs|
    decreases |addrs|
  {
    if addrs == [] then [] else Candidates(addrs[..|addrs| - 1]) + CandidatesOf(addrs[|addrs| - 1])
  }

  /**
   * On one subnet each host octet in [100, 254) is tried exactly once, in
   * strictly ascending order, so 154 URLs in all, each with the subnet's
   * network part.
   */
  lemma {:induction false} SubnetScanOrder(a: Octet, b: Octet, c: Octet)
    ensures |SubnetUrls(a, b, c)| == HostsPerSubnet == 154
    ensures forall i :: 0 <= i < HostsPerSubnet ==>
      ParseProbeUrl(SubnetUrls(a, b, c)[i]) == Some(ProbeTarget(a, b, c, FirstHost + i))
    ensures forall i, j :: 0 <= i < j < HostsPerSubnet ==>
      ParseProbeUrl(SubnetUrls(a, b, c)[i]).value.host < ParseProbeUrl(SubnetUrls(a, b, c)[j]).value.host
  {
    forall i | 0 <= i < HostsPerSubnet
      ensures ParseProbeUrl(SubnetUrls(a, b, c)[i]) == Some(ProbeTarget(a, b, c, FirstHost + i))
    {
      SubnetUrlAt(a, b, c, i);
      ParseProbeUrlRoundTrip(ProbeTarget(a, b, c, FirstHost + i));
    }
  }

  /** Whether `t` is one of the targets scanned for interface address `addr`. */
  predicate IsTargetOf(t: ProbeTarget, addr: InterfaceAddr) {
    Qualifies(addr) && t.a == addr.ip.a && t.b == addr.ip.b && t.c == addr.ip.c
    && FirstHost <= t.host < EndHost
  }

  /** The URLs tried for one address are those of its targets. */
  lemma {:induction false} CandidatesOfExactly(addr: InterfaceAddr, url: string)
    ensures url in CandidatesOf(addr) <==> exists t :: IsTargetOf(t, addr) && url == ProbeUrl(t)
  {
    if url in CandidatesOf(addr) {
      var k :| 0 <= k < |CandidatesOf(addr)| && CandidatesOf(addr)[k] == url;
      CandidateIsTarget(addr, k);
    }
    if exists t :: IsTargetOf(t, addr) && url == ProbeUrl(t) {
      var t :| IsTargetOf(t, addr) && url == ProbeUrl(t);
      TargetIsCandidate(addr, t);
    }
  }

  lemma {:induction false} CandidateIsTarget(addr: InterfaceAddr, k: nat)
    requires k < |CandidatesOf(addr)|
    ensures var t := ProbeTarget(addr.ip.a, addr.ip.b, addr.ip.c, FirstHost + k);
      IsTargetOf(t, addr) && CandidatesOf(addr)[k] == ProbeUrl(t)
  {
    SubnetUrlAt(addr.ip.a, addr.ip.b, addr.ip.c, k);
  }

  lemma {:induction false} TargetIsCandidate(addr: InterfaceAddr, t: ProbeTarget)
    requires IsTargetOf(t, addr)
    ensures ProbeUrl(t) in CandidatesOf(addr)
  {
    SubnetUrlAt(addr.ip.a, addr.ip.b, addr.ip.c, t.host - FirstHost);
    assert CandidatesOf(addr)[t.host - FirstHost] == ProbeUrl(t);
  }

  /** Whether `url` is the probe URL of a target of one of `addrs`. */
  predicate BuiltFrom(url: string, addrs: seq<InterfaceAddr>) {
    exists i :: 0 <= i < |addrs| && url in CandidatesOf(addrs[i])
  }

  /**
   * A URL is tried exactly when it is the probe URL of a host octet in
   * [100, 254) on the network part of some qualifying interface address:
   * no URL comes from an address that does not qualify, and no octet
   * outside the window is ever probed.
   */
  lemma {:induction false} CandidatesExactly(addrs: seq<InterfaceAddr>, url: string)
    ensures url in Candidates(addrs) <==>
      exists i :: 0 <= i < |addrs| && exists t :: IsTargetOf(t, addrs[i]) && url == ProbeUrl(t)
  {
    CandidatesFromAddresses(addrs, url);
    forall i | 0 <= i < |addrs| {
      CandidatesOfExactly(addrs[i], url);
    }
  }

  lemma {:induction false} CandidatesFromAddresses(addrs: seq<InterfaceAddr>, url: string)
    ensures url in Candidates(addrs) <==> BuiltFrom(url, addrs)
    decreases |addrs|
  {
    if addrs != [] {
      var init, last := addrs[..|addrs| - 1], addrs[|addrs| - 1];
      CandidatesFromAddresses(init, url);
      if BuiltFrom(url, init) {
        var i :| 0 <= i < |init| && url in CandidatesOf(init[i]);
        assert addrs[i] == init[i];
      }
      if BuiltFrom(url, addrs) {
        var i :| 0 <= i < |addrs| && url in CandidatesOf(addrs[i]);
        if i < |init| {
          assert init[i] == addrs[i];
        }
      }
    }
  }

  /** The number of interface addresses that qualify. */
  function CountQualifying(addrs: seq<InterfaceAddr>): nat
    decreases |addrs|
  {
    if addrs == [] then 0
    else CountQualifying(addrs[..|addrs| - 1]) + (if Qualifies(addrs[|addrs| - 1]) then 1 else 0)
  }

  /** With no answer, the scan makes 154 probes per qualifying address. */
  lemma {:induction false} CandidatesCount(addrs: seq<InterfaceAddr>)
    ensures |Candidates(addrs)| == HostsPerSubnet * CountQualifying(addrs)
    decreases |addrs|
  {
    if addrs != [] {
      var init, last := addrs[..|addrs| - 1], addrs[|addrs| - 1];
      CandidatesCount(init);
      var n, m := CountQualifying(init), |Candidates(init)|;
      assert m == HostsPerSubnet * n;
      if Qualifies(last) {
        CountStep(n, m);
      }
    }
  }

  /** One more qualifying address adds one more subnet of probes. */
  lemma CountStep(n: nat, m: nat)
    requires m == HostsPerSubnet * n
    ensures m + HostsPerSubnet == HostsPerSubnet * (n + 1)
  {
  }

  /** Appending an address appends its URLs. */
  lemma {:induction false} CandidatesAppend(addrs: seq<InterfaceAddr>, addr: InterfaceAddr)
    ensures Candidates(addrs + [addr]) == Candidates(addrs) + CandidatesOf(addr)
  {
    assert (addrs + [addr])[..|addrs|] == addrs;
  }

  /** The URLs of the first `k + 1` addresses. */
  lemma {:induction false} CandidatesStep(addrs: seq<InterfaceAddr>, k: nat)
    requires k < |addrs|
    ensures Candidates(addrs[..k + 1]) == Candidates(addrs[..k]) + CandidatesOf(addrs[k])
  {
    assert addrs[..k + 1][..k] == addrs[..k];
  }

  /** The addresses scanned before the `k`-th are tried before its URLs. */
  lemma {:induction false} CandidatesPrefix(addrs: seq<InterfaceAddr>, k: nat)
    requires k <= |addrs|
    ensures Candidates(addrs[..k]) <= Candidates(addrs)
    decreases |addrs| - k
  {
    if k < |addrs| {
      var init := addrs[..|addrs| - 1];
      assert init[..k] == addrs[..k];
      CandidatesPrefix(init, k);
    } else {
      assert addrs[..k] == addrs;
    }
  }

  /**
   * Two qualifying addresses on the same /24 network are each scanned in
   * full: the second repeats every URL of the first.
   */
  lemma {:induction false} SameSubnetScannedTwice(x: InterfaceAddr, y: InterfaceAddr)
    requires Qualifies(x) && Qualifies(y)
    requires x.ip.a == y.ip.a && x.ip.b == y.ip.b && x.ip.c == y.ip.c
    ensures |Candidates([x, y])| == 2 * HostsPerSubnet
    ensures Candidates([x, y])[..HostsPerSubnet] == Candidates([x, y])[HostsPerSubnet..]
  {
    assert [x, y][..1] == [x];
    assert [x][..0] == [];
    assert Candidates([x]) == SubnetUrls(x.ip.a, x.ip.b, x.ip.c);
    assert Candidates([x, y]) == Candidates([x]) + SubnetUrls(y.ip.a, y.ip.b, y.ip.c);
  }
}
