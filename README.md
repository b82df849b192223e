# sonnen-json-reader: the address resolver, in Dafny

`sonnen-json-reader` finds a sonnen battery on the local network and then
polls its status document every 30 seconds. This project models the part
that finds it: `determineUrl` in `main.go`. It also models the sign-driven
labels that `printValues` prints for each poll.

`determineUrl` walks the host's interface addresses in order. It skips an
address that is not an `*net.IPNet`, is loopback, is not IPv4, or whose
*classful default mask* (`ip.DefaultMask()`) is not `ffffff00`. For each
address that remains, it tries `http://a.b.c.N:80/api/v2/status` for
N = 100, 101, …, 253, where `a.b.c` are the address's first three octets. It
returns the first URL whose GET completes without error. If enumeration
fails it returns that error. If nothing answers it returns "nothing found".

Modules, one per concern:

- `Text` (`text.dfy`): decimal rendering (`%d` and the octets of
  `ip.String()`), and `strings.Split`/`strings.Join` on one separator, with
  their round trips.
- `Addresses` (`addresses.dfy`): interface addresses, `IsLoopback`,
  `DefaultMask`, and the test that decides whether an address is scanned.
- `ProbeUrls` (`probe_urls.dfy`): the probe URL and a parser that inverts it.
  Also `Candidates`: every URL the scan would try, in order.
- `Resolver` (`resolver.dfy`): `Resolve` and `ProbeLog` are the
  specification, a first-match search over `Candidates`. The imperative
  `DetermineUrl` (the source's nested loops, `continue` filters and early
  `return`) is proved equal to it. The inner loop over host octets is the
  method `ProbeSubnet`, proved against the first-match search on one subnet.
  A ghost out-parameter records the URLs probed.
- `Presentation` (`presentation.dfy`): buying/selling and
  charging/discharging, over whole numbers.

The two sources of input become parameters. The interface list is a
`Result<seq<InterfaceAddr>, string>`. The HTTP GET becomes
`responds: string -> bool`, which is true when a GET of that URL completes
without error.

One might expect `determineUrl` to scan an interface whose *configured*
mask is 255.255.255.0. The code in `main.go:59-66` instead tests the
classful default mask, which depends only on the first octet. So:

- An IPv4 address qualifies exactly when its first octet is at least 192.
- 10.x.x.x and 172.16.x.x networks are never scanned, whatever their prefix.
  A device at 10.0.0.150, seen from an interface on 10.0.0.0/24, is
  therefore never found (`Resolver.ClassANetworkNeverScanned`).
- A 192.168.x.x address with a /16 mask is scanned.

The configured mask is kept in `InterfaceAddr.IPNet` so that the model can
show it is never read. Two addresses on the same /24 are each scanned in
full (`ProbeUrls.SameSubnetScannedTwice`).

## Model

| member | source | states |
|---|---|---|
| `Addresses.IsLoopback` | main.go:51-53 | an IPv4 address is loopback exactly when its first octet is 127 |
| `Addresses.DefaultMask` | main.go:59-66 | the classful mask: A below 128, B below 192, C otherwise; it is class C exactly for an IPv4 address with first octet at least 192, and nil for a non-IPv4 address |
| `Addresses.Qualifies` | main.go:46-66 | an address is scanned exactly when it is an IPNet, IPv4 and its first octet is at least 192; the configured mask plays no part |
| `Addresses.IPv4String` | main.go:68-69 | splitting `ip.String()` of an IPv4 address at its dots gives back exactly the four decimal octets |
| `Addresses.DottedQuadFields` | main.go:68-72 | splitting `ip.String()` at dots gives exactly four fields, so the four-field guard never skips an IPv4 address, and each field reads back as its octet |
| `Addresses.ClassfulSelection` | main.go:59-66 | 10.0.0.5 and 172.16.0.1 are skipped and 192.168.1.5 qualifies, whatever their configured masks; an IPv4 loopback address would already fail the mask test |
| `Text.Decimal` | main.go:86 | the decimal text of a number is non-empty, all digits, has no leading zero, and starts with '0' only for zero |
| `Text.DecimalRoundTrip` | main.go:86 | parsing the decimal text of n gives n |
| `Text.CanonicalRoundTrip` | main.go:86 | every digit string without a leading zero is the decimal text of its value |
| `Text.DecimalInjective` | main.go:86 | different numbers have different decimal texts |
| `Text.Split` | main.go:69 | `strings.Split` returns at least one field, and no field contains the separator |
| `Text.SplitJoin` | main.go:69 | splitting a join of separator-free fields gives back those fields |
| `Text.JoinSplit` | main.go:69 | joining the fields of a split gives back the string |
| `ProbeUrls.ProbeUrl` | main.go:86 | the URL formatted at line 86 from the constants of lines 16-17 starts with `http://` and ends with `:80/api/v2/status`; `ParseProbeUrl` inverts it (`ParseProbeUrlRoundTrip`, `ParseProbeUrlExact`) |
| `ProbeUrls.ParseProbeUrlRoundTrip` | main.go:86 | parsing the probe URL built from a, b, c and N gives back a, b, c and N |
| `ProbeUrls.ParseProbeUrlExact` | main.go:86 | every string the parser accepts is exactly the probe URL of what it returns |
| `ProbeUrls.ProbeUrlInjective` | main.go:86 | different (a, b, c, N) give different probe URLs |
| `ProbeUrls.FormattedUrl` | main.go:68-86 | the `Sprintf` over the fields of `ip.String()` and the host octet is exactly the probe URL of the address's first three octets and that host octet |
| `ProbeUrls.SubnetUrls` | main.go:78-86 | one subnet's scan has 154 URLs; `SubnetScanOrder` gives the host octet of each |
| `ProbeUrls.SubnetScanOrder` | main.go:78-86 | a subnet's scan has 154 URLs; the i-th URL is `http://a.b.c.(100+i):80/api/v2/status`, so host octets rise strictly and none repeats |
| `ProbeUrls.CandidatesOf` | main.go:46-86 | an address contributes a whole subnet of 154 URLs when it qualifies and none otherwise |
| `ProbeUrls.Candidates` | main.go:45-98 | the URLs of all addresses, in address order, at most 154 per address; `CandidatesCount` gives the exact number and `CandidatesExactly` the exact set |
| `ProbeUrls.CandidatesExactly` | main.go:45-86 | a URL is ever probed exactly when it is the URL of a host octet in [100, 254) on the first three octets of a qualifying address; nothing is built from an address that does not qualify |
| `ProbeUrls.CandidatesCount` | main.go:78 | when nothing answers, the scan makes 154 probes for each qualifying address |
| `ProbeUrls.CandidatesPrefix` | main.go:45-96 | the URLs of earlier addresses come before those of later ones, in address order |
| `ProbeUrls.SameSubnetScannedTwice` | main.go:45-86 | two qualifying addresses on the same /24 are each scanned in full, so every URL of the first is probed again |
| `Resolver.FirstResponding` | main.go:78-95 | the search stops at the first URL that answers; every URL before it failed; it runs to the end only when none answers |
| `Resolver.Resolve` | main.go:39-99 | a nil error comes with a candidate URL that answers; any error comes with `""`; "nothing found" only after a successful enumeration. `ResolveSucceedsIff` and `ResolveIsFirstMatch` pin it down as the first answering candidate |
| `Resolver.ProbeLog` | main.go:40-96 | nothing is probed after an enumeration error; otherwise the probes are a prefix of the candidates, in their order. `ProbeLogShape` adds that every probe but the last failed and where the log stops |
| `Resolver.EnumerationErrorReturned` | main.go:40-43 | an enumeration error is returned with `""` |
| `Resolver.ResolveSucceedsIff` | main.go:45-99 | the resolver succeeds exactly when some candidate URL answers |
| `Resolver.ResolveIsFirstMatch` | main.go:45-96 | on success the result is the first candidate, in address order and then octet order, that answers, with a nil error |
| `Resolver.ResolveExhausted` | main.go:99 | when no candidate answers, the result is `""` with "nothing found" |
| `Resolver.NoQualifyingAddress` | main.go:45-99 | with no qualifying address nothing is probed, and the result is "nothing found" whatever answers |
| `Resolver.ClassANetworkNeverScanned` | main.go:59-66 | a device at 10.0.0.150 is not found from an interface on 10.0.0.0/24 |
| `Resolver.SingleDeviceFound` | main.go:78-95 | with one qualifying address and one device answering at host octet h of its /24, that device's URL is returned, whatever the configured mask |
| `Resolver.ProbeLogShape` | main.go:40-99 | the probe log is a prefix of the candidates in order. Every probe but the last failed. On success the last probe is the returned URL and nothing later is probed. On "nothing found" every candidate was probed once and failed. An enumeration error probes nothing |
| `Resolver.DetermineUrl` | main.go:39-100 | the nested scan returns exactly `Resolve` (URL and nil, or `""` and an error), and its probe log is exactly `ProbeLog` |
| `Resolver.ProbeSubnet` | main.go:68-96 | the scan of one address reports a find exactly when some URL of its subnet answers; the URL returned is the first that answers, and the probe log is the subnet's URLs up to it, or all of them with `""` when none answers |
| `Presentation.Present` | main.go:136-147 | negative feed-in is "Buying" its magnitude, otherwise "Selling" the value; negative battery power is "(charging)", otherwise "(discharging)"; the battery power shown is the negated value; consumption, production and charge pass through |
| `Presentation.GridLabel` | main.go:135-139 | the grid heading is as wide as "Consumption: ", so the values line up, and its first letter is 'B' exactly when buying |
| `Presentation.BatteryLabel` | main.go:142-146 | the battery tag is parenthesised, and its first letter inside is 'c' exactly when charging |
| `Presentation.PresentKeepsGridFeedIn` | main.go:136-140 | the grid label and magnitude together give back the feed-in value |
| `Presentation.ChargingIffShownPositive` | main.go:141-147 | "(charging)" appears exactly when the battery power shown is positive |
| `Presentation.BuyingWhileCharging` | main.go:136-147 | feed-in -200 and battery -50 show "Buying:" 200, "(charging)" 50 and state of charge 80 |
| `Presentation.SellingWhileDischarging` | main.go:136-147 | feed-in 150 and battery 40 show "Selling:" 150, "(discharging)" and battery power -40 |

## Left out

- `net.InterfaceAddrs` (main.go:40) is host I/O. Its result is an input: a list of interface addresses or an error message.
- `http.Client.Get`, its 50 ms timeout and `response.Body.Close()` (main.go:77, 87, 91) are network I/O and timing. They become the predicate `responds`. It is a fixed function, so a URL probed twice (same /24 on two interfaces) gets the same answer both times; the real network may differ between the two probes.
- `strconv.ParseUint` of the hex mask string (main.go:60-63) is not modelled. The mask is a number computed from the first octet, and the parse cannot fail for an IPv4 default mask.
- `Resolver.ProbeSubnet`: the `len(ip4Parts) != 4` guard (main.go:70-72) is not a branch of the method, which splits `ip.String()` and indexes its fields. `Addresses.DottedQuadFields` proves that the split always has four fields.
- An IPv6 address is reduced to its loopback flag; its bytes and its `String()` form are not modelled, because no IPv6 address is ever scanned.
- The `debug`-gated progress output and the `fmt.Println()` after each exhausted subnet (main.go:74-85, 92-94, 97) are console output only.
- `readData` (main.go:102-125) is HTTP, `io.ReadAll` and JSON decoding, and is not part of this model.
- The polling loop in `main` (main.go:19-37) never terminates and sleeps 30 s between polls; it is not part of this model.
- `Presentation.Present` works on whole numbers. It does not model the `float64` type assertions, which panic on a missing or non-numeric field (main.go:128-132). It does not model the `%4.0f` rounding, fractional watts, or a `-0.0` value, which prints as "Selling" with a minus sign.
