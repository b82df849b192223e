/**
 * `determineUrl`: scan the qualifying interface addresses in order, try
 * host octets 100..253 on each, and return the first URL that answers.
 * Enumerating the interfaces and the HTTP GET are parameters: the address
 * list (or the enumeration error) and `responds`, which says whether a GET
 * of a URL completes without error.
 */
module Resolver {
  import opened Wrappers
  import opened Text
  import opened Addresses
  import opened ProbeUrls

  datatype Error =
    | InterfaceError(message: string)  // `net.InterfaceAddrs` failed
    | NothingFound                     // every probe failed

  /** The index of the first URL in `urls` that answers, or `|urls|`. */
  function FirstResponding(urls: seq<string>, responds: string -> bool): (k: nat)
    ensures k <= |urls|
    ensures forall i :: 0 <= i < k ==> !responds(urls[i])
    ensures k < |urls| ==> responds(urls[k])
  {
    if urls == [] then 0
    else if responds(urls[0]) then 0
    else 1 + FirstResponding(urls[1..], responds)
  }

  /** The search stops at `k` when `k` answers and nothing before it does. */
  lemma {:induction false} FirstRespondingIs(urls: seq<string>, responds: string -> bool, k: nat)
    requires k < |urls| && responds(urls[k])
    requires forall i :: 0 <= i < k ==> !responds(urls[i])
    ensures FirstResponding(urls, responds) == k
  {
  }

  /**
   * The outcome `determineUrl` returns: a candidate URL that answers and
   * nil, or `""` and an error; "nothing found" only after an enumeration
   * that succeeded.
   */
  function Resolve(interfaces: Result<seq<InterfaceAddr>, string>, responds: string -> bool): (r: (string, Option<Error>))
    ensures r.1 == None ==> interfaces.Success? && r.0 in Candidates(interfaces.value) && responds(r.0)
    ensures r.1 != None ==> r.0 == ""
    ensures r.1 == Some(NothingFound) ==> interfaces.Success?
  {
    match interfaces
    case Failure(message) => ("", Some(InterfaceError(message)))
    case Success(addrs) =>
      var urls := Candidates(addrs);
      var k := FirstResponding(urls, responds);
      if k < |urls| then (urls[k], None) else ("", Some(NothingFound))
  }

  /** An enumeration error is returned as is, with no URL. */
  lemma EnumerationErrorReturned(message: string, responds: string -> bool)
    ensures Resolve(Failure(message), responds) == ("", Some(InterfaceError(message)))
  {
  }

  /** The resolver succeeds exactly when some candidate answers. */
  lemma {:induction false} ResolveSucceedsIff(addrs: seq<InterfaceAddr>, responds: string -> bool)
    ensures Resolve(Success(addrs), responds).1 == None
      <==> exists k :: 0 <= k < |Candidates(addrs)| && responds(Candidates(addrs)[k])
  {
    var urls := Candidates(addrs);
    var first := FirstResponding(urls, responds);
    if first < |urls| {
      ResolveAt(addrs, responds, first);
    } else {
      ResolveNone(addrs, responds);
    }
  }

  /**
   * On success the result is the first candidate, in interface order and
   * then octet order, whose probe answers: every earlier one was probed
   * and failed.
   */
  lemma {:induction false} ResolveIsFirstMatch(addrs: seq<InterfaceAddr>, responds: string -> bool, k: nat)
    requires k < |Candidates(addrs)| && responds(Candidates(addrs)[k])
    requires forall i :: 0 <= i < k ==> !responds(Candidates(addrs)[i])
    ensures Resolve(Success(addrs), responds) == (Candidates(addrs)[k], None)
  {
    FirstRespondingIs(Candidates(addrs), responds, k);
  }

  /** When no candidate answers the result is `""` and NothingFound. */
  lemma {:induction false} ResolveExhausted(addrs: seq<InterfaceAddr>, responds: string -> bool)
    requires forall k :: 0 <= k < |Candidates(addrs)| ==> !responds(Candidates(addrs)[k])
    ensures Resolve(Success(addrs), responds) == ("", Some(NothingFound))
  {
    NoneResponding(Candidates(addrs), responds);
  }

  /**
   * When no address qualifies (none, or only loopback, IPv6, non-IPNet or
   * first octet below 192), nothing is probed and the result is
   * NothingFound, whatever answers.
   */
  lemma {:induction false} NoQualifyingAddress(addrs: seq<InterfaceAddr>, responds: string -> bool)
    requires forall i :: 0 <= i < |addrs| ==> !Qualifies(addrs[i])
    ensures Candidates(addrs) == []
    ensures Resolve(Success(addrs), responds) == ("", Some(NothingFound))
  {
    CandidatesCount(addrs);
    NoneQualifyCountsZero(addrs);
  }

  lemma {:induction false} NoneQualifyCountsZero(addrs: seq<InterfaceAddr>)
    requires forall i :: 0 <= i < |addrs| ==> !Qualifies(addrs[i])
    ensures CountQualifying(addrs) == 0
    decreases |addrs|
  {
    if addrs != [] {
      NoneQualifyCountsZero(addrs[..|addrs| - 1]);
    }
  }

  /**
   * A device answering at 10.0.0.150 is never found from an interface on
   * 10.0.0.0/24: the class A default mask excludes the interface.
   */
  lemma ClassANetworkNeverScanned()
    ensures Resolve(Success([IPNet(IPv4(10, 0, 0, 7), [255, 255, 255, 0])]),
                    u => u == "http://10.0.0.150:80/api/v2/status")
            == ("", Some(NothingFound))
  {
    NoQualifyingAddress([IPNet(IPv4(10, 0, 0, 7), [255, 255, 255, 0])], u => u == "http://10.0.0.150:80/api/v2/status");
  }

  /**
   * With a single qualifying interface address and a single device that
   * answers, at host octet `h` of its /24, the resolver returns that
   * device's URL, whatever the interface's configured mask.
   */
  lemma {:induction false} SingleDeviceFound(addr: InterfaceAddr, h: nat)
    requires Qualifies(addr) && FirstHost <= h < EndHost
    ensures var url := ProbeUrl(ProbeTarget(addr.ip.a, addr.ip.b, addr.ip.c, h));
      Resolve(Success([addr]), u => u == url) == (url, None)
  {
    var target := ProbeTarget(addr.ip.a, addr.ip.b, addr.ip.c, h);
    var url := ProbeUrl(target);
    var responds := (u: string) => u == url;
    var urls := Candidates([addr]);
    CandidatesAppend([], addr);
    assert [] + [addr] == [addr];
    assert urls == SubnetUrls(addr.ip.a, addr.ip.b, addr.ip.c);
    forall i | 0 <= i < h - FirstHost ensures !responds(urls[i]) {
      SubnetUrlAt(addr.ip.a, addr.ip.b, addr.ip.c, i);
      if urls[i] == url {
        ProbeUrlInjective(ProbeTarget(addr.ip.a, addr.ip.b, addr.ip.c, FirstHost + i), target);
      }
    }
    SubnetUrlAt(addr.ip.a, addr.ip.b, addr.ip.c, h - FirstHost);
    ResolveIsFirstMatch([addr], responds, h - FirstHost);
  }

  /**
   * The URLs `determineUrl` hands to the HTTP client, in order: none after
   * an enumeration error, the candidates up to and including the first
   * that answers, or all of them when none does.
   */
  function ProbeLog(interfaces: Result<seq<InterfaceAddr>, string>, responds: string -> bool): (log: seq<string>)
    ensures interfaces.Failure? ==> log == []
    ensures interfaces.Success? ==> log <= Candidates(interfaces.value)
  {
    match interfaces
    case Failure(_) => []
    case Success(addrs) =>
      var urls := Candidates(addrs);
      var k := FirstResponding(urls, responds);
      if k < |urls| then urls[..k + 1] else urls
  }

  /**
   * What the probe log says about a run: it is a prefix of the candidates,
   * in their order; every probe but the last failed; on success the last
   * probe is the returned URL and it answered, so nothing after the first
   * answer is probed; on NothingFound every candidate was probed once and
   * failed; an enumeration error probes nothing.
   */
  lemma {:induction false} ProbeLogShape(interfaces: Result<seq<InterfaceAddr>, string>, responds: string -> bool)
    ensures var log := ProbeLog(interfaces, responds);
      var (url, err) := Resolve(interfaces, responds);
      && (interfaces.Failure? ==> log == [])
      && (interfaces.Success? ==> log <= Candidates(interfaces.value))
      && (forall i :: 0 <= i < |log| - 1 ==> !responds(log[i]))
      && (err == None ==> |log| > 0 && url == log[|log| - 1] && responds(url))
      && (err == Some(NothingFound) ==>
            interfaces.Success? && log == Candidates(interfaces.value) && url == ""
            && forall i :: 0 <= i < |log| ==> !responds(log[i]))
  {
    if interfaces.Success? {
      var urls := Candidates(interfaces.value);
      var k := FirstResponding(urls, responds);
      FirstMatchLog(urls, responds);
      if k < |urls| {
        ResolveAt(interfaces.value, responds, k);
      } else {
        ResolveNone(interfaces.value, responds);
      }
    }
  }

  /** The log of a first-match search: the URLs up to the first answer, or all. */
  lemma {:induction false} FirstMatchLog(urls: seq<string>, responds: string -> bool)
    ensures var k := FirstResponding(urls, responds);
      var log := if k < |urls| then urls[..k + 1] else urls;
      && log <= urls
      && (forall i :: 0 <= i < |log| - 1 ==> !responds(log[i]))
      && (k < |urls| ==> |log| > 0 && log[|log| - 1] == urls[k])
      && (k == |urls| ==> forall i :: 0 <= i < |log| ==> !responds(log[i]))
  {
    var k := FirstResponding(urls, responds);
    if k < |urls| {
      assert forall i :: 0 <= i < k ==> urls[..k + 1][i] == urls[i];
    }
  }

  /**
   * `determineUrl`. `probed` records the URLs handed to the HTTP client, in
   * order; `ProbeLogShape` says what that log is.
   */
  method DetermineUrl(interfaces: Result<seq<InterfaceAddr>, string>, responds: string -> bool)
    returns (url: string, err: Option<Error>, ghost probed: seq<string>)
    ensures (url, err) == Resolve(interfaces, responds)
    ensures probed == ProbeLog(interfaces, responds)
  {
    if interfaces.Failure? {
      return "", Some(InterfaceError(interfaces.error)), [];
    }
    var addrs := interfaces.value;
    probed := [];
    for k := 0 to |addrs|
      invariant probed == Candidates(addrs[..k])
      invariant forall i :: 0 <= i < |probed| ==> !responds(probed[i])
    {
      var addr := addrs[k];
      CandidatesStep(addrs, k);
      if !addr.IPNet? {
        continue;
      }
      var ip := addr.ip;
      if IsLoopback(ip) {
        continue;
      }
      if !ip.IPv4? {
        continue;
      }
      if DefaultMask(ip) != Some(ClassCMask) {
        continue;
      }
      var found;
      ghost var tried;
      url, found, tried := ProbeSubnet(ip, responds);
      probed := probed + tried;
      if found {
        err := None;
        FoundAt(addrs, k, probed, responds);
        return;
      }
    }
    url, err := "", Some(NothingFound);
    Exhausted(addrs, probed, responds);
  }

  /**
   * The scan of one qualifying address (the body of the interface loop of
   * `determineUrl` after its filters): format each URL from the fields of
   * `ip.String()` and probe host octets 100 to 253 in order, stopping at
   * the first that answers. `probed` is what was handed to the HTTP client.
   */
  method ProbeSubnet(ip: IP, responds: string -> bool) returns (url: string, found: bool, ghost probed: seq<string>)
    requires ip.IPv4?
    ensures var urls := SubnetUrls(ip.a, ip.b, ip.c);
      var k := FirstResponding(urls, responds);
      && (found <==> k < |urls|)
      && (found ==> url == urls[k] && probed == urls[..k + 1])
      && (!found ==> url == "" && probed == urls)
  {
    var ipString := IPv4String(ip);
    var parts := Split(ipString, '.');
    FormattedUrl(ip, parts, FirstHost);
    probed := [];
    for host := FirstHost to EndHost
      invariant probed == HostUrls(ip.a, ip.b, ip.c, host - FirstHost)
      invariant forall i :: 0 <= i < |probed| ==> !responds(probed[i])
    {
      var candidate := UrlHttp + parts[0] + "." + parts[1] + "." + parts[2] + "." + Decimal(host) + UrlPortPath;
      FormattedUrl(ip, parts, host);
      probed := probed + [candidate];
      if !responds(candidate) {
        continue;
      }
      SubnetAnswer(ip.a, ip.b, ip.c, host - FirstHost, responds);
      return candidate, true, probed;
    }
    NoneResponding(probed, responds);
    return "", false, probed;
  }

  /** An answer at the `n`-th host of a scan whose earlier probes failed is the scan's first. */
  lemma {:induction false} SubnetAnswer(a: Octet, b: Octet, c: Octet, n: nat, responds: string -> bool)
    requires n < HostsPerSubnet
    requires var tried := HostUrls(a, b, c, n + 1);
      responds(tried[n]) && forall i :: 0 <= i < n ==> !responds(tried[i])
    ensures var urls := SubnetUrls(a, b, c);
      FirstResponding(urls, responds) == n && urls[..n + 1] == HostUrls(a, b, c, n + 1)
  {
    HostUrlsPrefix(a, b, c, n + 1, HostsPerSubnet);
    FirstRespondingIs(SubnetUrls(a, b, c), responds, n);
  }

  /** The loop's view of the success path: the answer ends the probe log. */
  lemma {:induction false} FoundAt(addrs: seq<InterfaceAddr>, k: nat, probed: seq<string>, responds: string -> bool)
    requires k < |addrs| && Qualifies(addrs[k])
    requires var urls := CandidatesOf(addrs[k]);
      var n := FirstResponding(urls, responds);
      n < |urls| && probed == Candidates(addrs[..k]) + urls[..n + 1]
    requires forall i :: 0 <= i < |Candidates(addrs[..k])| ==> !responds(probed[i])
    ensures Resolve(Success(addrs), responds) == (probed[|probed| - 1], None)
    ensures probed == ProbeLog(Success(addrs), responds)
  {
    CandidatesStep(addrs, k);
    CandidatesPrefix(addrs, k + 1);
    FirstAnswerAfter(Candidates(addrs[..k]), CandidatesOf(addrs[k]), probed, responds);
    var urls := Candidates(addrs);
    assert probed <= urls;
    FirstRespondingIs(urls, responds, |probed| - 1);
    ResolveAt(addrs, responds, |probed| - 1);
    assert probed == urls[..|probed|];
  }

  /** Failed probes followed by one scan up to its first answer end in that answer. */
  lemma {:induction false} FirstAnswerAfter(before: seq<string>, scan: seq<string>, probed: seq<string>, responds: string -> bool)
    requires FirstResponding(scan, responds) < |scan|
    requires probed == before + scan[..FirstResponding(scan, responds) + 1]
    requires forall i :: 0 <= i < |before| ==> !responds(probed[i])
    ensures |probed| > 0 && responds(probed[|probed| - 1])
    ensures forall i :: 0 <= i < |probed| - 1 ==> !responds(probed[i])
  {
    var n := FirstResponding(scan, responds);
    forall i | 0 <= i < |probed| - 1 ensures !responds(probed[i]) {
      if i >= |before| {
        assert probed[i] == scan[i - |before|];
      }
    }
  }

  /** The loop's view of the failure path: every candidate was probed. */
  lemma {:induction false} Exhausted(addrs: seq<InterfaceAddr>, probed: seq<string>, responds: string -> bool)
    requires probed == Candidates(addrs[..|addrs|])
    requires forall i :: 0 <= i < |probed| ==> !responds(probed[i])
    ensures Resolve(Success(addrs), responds) == ("", Some(NothingFound))
    ensures probed == ProbeLog(Success(addrs), responds)
  {
    assert addrs[..|addrs|] == addrs;
    NoneResponding(probed, responds);
    ResolveNone(addrs, responds);
  }

  /** Nothing in `urls` answers, so the search runs off the end. */
  lemma {:induction false} NoneResponding(urls: seq<string>, responds: string -> bool)
    requires forall i :: 0 <= i < |urls| ==> !responds(urls[i])
    ensures FirstResponding(urls, responds) == |urls|
  {
  }

  lemma {:induction false} ResolveNone(addrs: seq<InterfaceAddr>, responds: string -> bool)
    requires FirstResponding(Candidates(addrs), responds) == |Candidates(addrs)|
    ensures Resolve(Success(addrs), responds) == ("", Some(NothingFound))
    ensures ProbeLog(Success(addrs), responds) == Candidates(addrs)
  {
  }

  lemma {:induction false} ResolveAt(addrs: seq<InterfaceAddr>, responds: string -> bool, n: nat)
    requires n < |Candidates(addrs)| && FirstResponding(Candidates(addrs), responds) == n
    ensures Resolve(Success(addrs), responds) == (Candidates(addrs)[n], None)
    ensures ProbeLog(Success(addrs), responds) == Candidates(addrs)[..n + 1]
  {
  }
}
