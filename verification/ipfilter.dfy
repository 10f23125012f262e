/**
 The IP settings of `classes/settings.py`: a comma-separated list of
 addresses, networks and host names parsed into entries. The `ipaddress`
 parsers and network membership are not modelled; they are the fields of an
 `IpParser` value handed in by the caller.
 */
module IpSettings {
  import opened Options
  import opened Strings

  /** An `IPv4Address` / `IPv6Address`: compared by value, as `ipaddress` does. */
  datatype IpAddress = IpAddress(isV6: bool, value: nat)

  /** An `IPv4Network` / `IPv6Network`. */
  datatype IpNetwork = IpNetwork(isV6: bool, base: nat, prefixLen: nat)

  /**
   `ipaddress.ip_address`, `ipaddress.ip_network(strict=False)` (each `None`
   where it raises `ValueError`), and `address in network`.
   */
  datatype IpParser = IpParser(
    address: string -> Option<IpAddress>,
    network: string -> Option<IpNetwork>,
    contains: (IpNetwork, IpAddress) -> bool)

  /** One element of a parsed list: a network, an address, or the raw text for host names. */
  datatype IpEntry = Network(net: IpNetwork) | Address(addr: IpAddress) | Raw(text: string)

  /** The settings the middleware reads. */
  datatype IpConfig = IpConfig(allowedIps: string, trustedProxies: string, enabled: bool)

  const DefaultAllowedIps: string := "127.0.0.1,::1,localhost"
  const DefaultTrustedProxies: string := ""

  /** The defaults: loopback addresses and "localhost" allowed, no trusted proxies, filtering off. */
  const DefaultConfig: IpConfig := IpConfig(DefaultAllowedIps, DefaultTrustedProxies, false)

  /** A stripped, non-empty piece: a network if it contains '/', otherwise an address, and the raw text if parsing fails. */
  function ParseEntry(p: IpParser, piece: string): (e: IpEntry)
    ensures e.Network? ==> '/' in piece && p.network(piece) == Some(e.net)
    ensures e.Address? ==> '/' !in piece && p.address(piece) == Some(e.addr)
    ensures e.Raw? <==> e == Raw(piece) && ('/' in piece ==> p.network(piece).None?) && ('/' !in piece ==> p.address(piece).None?)
  {
    if '/' in piece then
      match p.network(piece)
      case Some(n) => Network(n)
      case None => Raw(piece)
    else
      match p.address(piece)
      case Some(a) => Address(a)
      case None => Raw(piece)
  }

  /** The pieces of a split list that survive stripping, stripped. */
  function Kept(pieces: seq<string>): seq<string> {
    if |pieces| == 0 then []
    else
      var t := Strip(pieces[0]);
      if t == "" then Kept(pieces[1..]) else [t] + Kept(pieces[1..])
  }

  /** The loop of `_parse_ip_list` over the pieces. */
  function ParsePieces(p: IpParser, pieces: seq<string>): seq<IpEntry> {
    if |pieces| == 0 then []
    else
      var t := Strip(pieces[0]);
      if t == "" then ParsePieces(p, pieces[1..]) else [ParseEntry(p, t)] + ParsePieces(p, pieces[1..])
  }

  /** One entry per surviving piece, in order, each parsed from that piece stripped. */
  lemma {:induction false} ParsePiecesKept(p: IpParser, pieces: seq<string>)
    ensures |ParsePieces(p, pieces)| == |Kept(pieces)|
    ensures forall k :: 0 <= k < |Kept(pieces)| ==> ParsePieces(p, pieces)[k] == ParseEntry(p, Kept(pieces)[k])
  {
    if |pieces| > 0 {
      var t := Strip(pieces[0]);
      var r := ParsePieces(p, pieces[1..]);
      var kr := Kept(pieces[1..]);
      ParsePiecesKept(p, pieces[1..]);
      if t != "" {
        assert ParsePieces(p, pieces) == [ParseEntry(p, t)] + r;
        assert Kept(pieces) == [t] + kr;
        ParsedCons(p, t, r, kr);
      }
    }
  }

  /** Parsing piecewise survives putting one more piece in front. */
  lemma ParsedCons(p: IpParser, t: string, r: seq<IpEntry>, kr: seq<string>)
    requires |r| == |kr| && forall k :: 0 <= k < |kr| ==> r[k] == ParseEntry(p, kr[k])
    ensures var r' := [ParseEntry(p, t)] + r;
            var kr' := [t] + kr;
            |r'| == |kr'| && forall k :: 0 <= k < |kr'| ==> r'[k] == ParseEntry(p, kr'[k])
  {
    var r' := [ParseEntry(p, t)] + r;
    var kr' := [t] + kr;
    forall k | 1 <= k < |kr'| ensures r'[k] == ParseEntry(p, kr'[k]) {
      assert r'[k] == r[k - 1] && kr'[k] == kr[k - 1];
    }
  }

  /** The surviving pieces are non-empty and neither start nor end with whitespace. */
  lemma {:induction false} KeptStripped(pieces: seq<string>)
    ensures |Kept(pieces)| <= |pieces|
    ensures forall k :: 0 <= k < |Kept(pieces)| ==> IsStripped(Kept(pieces)[k])
  {
    if |pieces| > 0 {
      var t := Strip(pieces[0]);
      var kr := Kept(pieces[1..]);
      KeptStripped(pieces[1..]);
      if t != "" {
        assert Kept(pieces) == [t] + kr;
        assert IsStripped(t);
        StrippedCons(t, kr);
      }
    }
  }

  /** Every piece stays stripped when a stripped piece is put in front. */
  lemma StrippedCons(t: string, kr: seq<string>)
    requires IsStripped(t) && forall k :: 0 <= k < |kr| ==> IsStripped(kr[k])
    ensures forall k :: 0 <= k < |[t] + kr| ==> IsStripped(([t] + kr)[k])
  {
    forall k | 1 <= k < |kr| + 1 ensures IsStripped(([t] + kr)[k]) {
      assert ([t] + kr)[k] == kr[k - 1];
    }
  }

  /** A non-empty text with no surrounding whitespace. */
  predicate IsStripped(w: string) {
    w != "" && !IsSpace(w[0]) && !IsSpace(w[|w| - 1])
  }

  /** `_parse_ip_list`: split on ',', strip, drop empty pieces, parse the rest in order. */
  function ParseIpList(p: IpParser, s: string): seq<IpEntry> {
    ParsePieces(p, SplitOn(s, ','))
  }

  /** `allowed_networks`. */
  function AllowedNetworks(p: IpParser, c: IpConfig): seq<IpEntry> {
    ParseIpList(p, c.allowedIps)
  }

  /** `trusted_proxies_list`. */
  function TrustedProxiesList(p: IpParser, c: IpConfig): seq<IpEntry> {
    ParseIpList(p, c.trustedProxies)
  }

  /** A piece that is already a list item: non-empty, no surrounding whitespace, no comma. */
  predicate IsItem(w: string) {
    IsStripped(w) && ',' !in w
  }

  lemma {:induction false} KeptOfItems(ws: seq<string>)
    requires forall k :: 0 <= k < |ws| ==> IsItem(ws[k])
    ensures Kept(ws) == ws
  {
    if |ws| > 0 {
      KeptOfItems(ws[1..]);
      StripFixesStripped(ws[0]);
      assert ws == [ws[0]] + ws[1..];
    }
  }

  /** Parsing a comma-joined list of items gives one entry per item, in order. */
  lemma ParseJoinedList(p: IpParser, ws: seq<string>)
    requires |ws| > 0
    requires forall k :: 0 <= k < |ws| ==> IsItem(ws[k])
    ensures |ParseIpList(p, Join(ws, ","))| == |ws|
    ensures forall k :: 0 <= k < |ws| ==> ParseIpList(p, Join(ws, ","))[k] == ParseEntry(p, ws[k])
  {
    SplitJoin(ws, ',');
    assert [','] == ",";
    KeptOfItems(ws);
    ParsePiecesKept(p, ws);
  }

  /** The default trusted-proxy setting parses to no proxies. */
  lemma DefaultTrustedProxiesEmpty(p: IpParser, c: IpConfig)
    requires c.trustedProxies == DefaultTrustedProxies
    ensures TrustedProxiesList(p, c) == []
  {
    assert SplitOn("", ',') == [""];
    assert Strip("") == "";
    assert [""][1..] == [];
    assert ParsePieces(p, [""]) == ParsePieces(p, []);
  }

  /** The items of the default allow list. */
  const DefaultAllowedItems: seq<string> := ["127.0.0.1", "::1", "localhost"]

  /** The default allow list parses to one entry per item, in order: "127.0.0.1", "::1" and "localhost", each an address or kept raw. */
  lemma DefaultAllowedNetworks(p: IpParser, c: IpConfig)
    requires c.allowedIps == DefaultAllowedIps
    ensures |AllowedNetworks(p, c)| == |DefaultAllowedItems| == 3
    ensures forall k :: 0 <= k < 3 ==> AllowedNetworks(p, c)[k] == ParseEntry(p, DefaultAllowedItems[k])
  {
    var ws := DefaultAllowedItems;
    DefaultItems();
    DefaultAllowedJoin();
    ParseJoinedList(p, ws);
  }

  lemma DefaultAllowedJoin()
    ensures Join(DefaultAllowedItems, ",") == DefaultAllowedIps
  {
    var ws := DefaultAllowedItems;
    assert ws[1..][1..] == ["localhost"];
    assert Join(ws[1..][1..], ",") == "localhost";
    assert Join(ws[1..], ",") == "::1" + "," + "localhost";
    assert Join(ws, ",") == "127.0.0.1" + "," + ("::1" + "," + "localhost");
  }

  lemma DefaultItems()
    ensures forall k :: 0 <= k < |DefaultAllowedItems| ==> IsItem(DefaultAllowedItems[k])
  {
    assert IsItem("127.0.0.1") && IsItem("::1") && IsItem("localhost");
  }

  /** "localhost" is not an address, so the default allow list keeps it as a raw entry. */
  lemma DefaultListsLocalhost(p: IpParser, c: IpConfig, w: string)
    requires c.allowedIps == DefaultAllowedIps && w == "localhost" && p.address(w).None?
    ensures Raw(w) in AllowedNetworks(p, c)
  {
    assert '/' !in w by {
      assert w == "localhost";
    }
    RawWhenUnparsed(p, w);
    DefaultAllowedNetworks(p, c);
    assert DefaultAllowedItems[2] == w;
    assert AllowedNetworks(p, c)[2] == Raw(w);
  }

  /** A piece without '/' that the address parser rejects is kept raw. */
  lemma RawWhenUnparsed(p: IpParser, w: string)
    requires '/' !in w && p.address(w).None?
    ensures ParseEntry(p, w) == Raw(w)
  {
  }
}

/**
 `IPWhitelistMiddleware` of `middleware/ip_whitelist.py`: the resolution of
 the client address behind trusted proxies, the trusted-proxy and allow-list
 tests, and the decision taken for a request.
 */
module IpWhitelist {
  import opened Options
  import opened Strings
  import opened IpSettings

  /** What the middleware reads of a request: the peer host and the header values by name. */
  datatype Request = Request(peer: string, headers: map<string, string>)

  /**
   The middleware's answer: pass on untouched, refuse (the JSON body carries
   `Detail(ip)` and the configured allow list), or pass on with the resolved
   address recorded on the request.
   */
  datatype Decision =
    | PassThrough
    | Forbidden(status: nat, ip: string, allowedIps: string)
    | Admitted(clientIp: string)

  /** The `detail` field of the refusal body. */
  function Detail(ip: string): string {
    "Access denied for IP: " + ip
  }

  const RealIpHeader: string := "X-Real-IP"
  const ForwardedForHeader: string := "X-Forwarded-For"

  /** The header names in the order they are examined. */
  const ProxyHeaders: seq<string> := [RealIpHeader, ForwardedForHeader]

  /** Entry `e` admits the parsed address `a` whose text is `ip`: a network containing it, the same address, or the same text. */
  predicate EntryMatches(p: IpParser, e: IpEntry, a: IpAddress, ip: string) {
    match e
    case Network(n) => p.contains(n, a)
    case Address(b) => a == b
    case Raw(t) => t == ip
  }

  /** The loop over entries: true at the first entry that admits the address. */
  function AnyEntryMatches(p: IpParser, es: seq<IpEntry>, a: IpAddress, ip: string): bool {
    if |es| == 0 then false else EntryMatches(p, es[0], a, ip) || AnyEntryMatches(p, es[1..], a, ip)
  }

  lemma {:induction false} AnyEntryMatchesSpec(p: IpParser, es: seq<IpEntry>, a: IpAddress, ip: string)
    ensures AnyEntryMatches(p, es, a, ip) <==> exists k :: 0 <= k < |es| && EntryMatches(p, es[k], a, ip)
  {
    if |es| > 0 {
      AnyEntryMatchesSpec(p, es[1..], a, ip);
      assert forall k :: 1 <= k < |es| ==> es[k] == es[1..][k - 1];
    }
  }

  /** `is_trusted_proxy`: false for text that is not an address, otherwise whether some proxy entry admits it. */
  function IsTrustedProxy(p: IpParser, proxies: seq<IpEntry>, ip: string): bool {
    match p.address(ip)
    case None => false
    case Some(a) => AnyEntryMatches(p, proxies, a, ip)
  }

  /** The string fallback of `is_ip_allowed`: some entry is the raw text `ip`. */
  function AnyRawEquals(es: seq<IpEntry>, ip: string): bool {
    if |es| == 0 then false else es[0] == Raw(ip) || AnyRawEquals(es[1..], ip)
  }

  /** `is_ip_allowed`: an address is checked against every kind of entry, other text only against raw entries. */
  function IsIpAllowed(p: IpParser, nets: seq<IpEntry>, ip: string): bool {
    match p.address(ip)
    case Some(a) => AnyEntryMatches(p, nets, a, ip)
    case None => AnyRawEquals(nets, ip)
  }

  /** A text that is not an address is never a trusted proxy; an address is one exactly when some entry admits it. */
  lemma IsTrustedProxySpec(p: IpParser, proxies: seq<IpEntry>, ip: string)
    ensures p.address(ip).None? ==> !IsTrustedProxy(p, proxies, ip)
    ensures p.address(ip).Some? ==>
              (IsTrustedProxy(p, proxies, ip) <==> exists k :: 0 <= k < |proxies| && EntryMatches(p, proxies[k], p.address(ip).value, ip))
  {
    if p.address(ip).Some? {
      AnyEntryMatchesSpec(p, proxies, p.address(ip).value, ip);
    }
  }

  lemma {:induction false} AnyRawEqualsSpec(es: seq<IpEntry>, ip: string)
    ensures AnyRawEquals(es, ip) <==> Raw(ip) in es
  {
    if |es| > 0 {
      AnyRawEqualsSpec(es[1..], ip);
      assert es == [es[0]] + es[1..];
    }
  }

  /**
   An address is allowed exactly when some entry is a network containing it,
   the same address, or the same text; any other text only when it is listed
   verbatim as a raw entry.
   */
  lemma IsIpAllowedSpec(p: IpParser, nets: seq<IpEntry>, ip: string)
    ensures p.address(ip).Some? ==>
              (IsIpAllowed(p, nets, ip) <==> exists k :: 0 <= k < |nets| && EntryMatches(p, nets[k], p.address(ip).value, ip))
    ensures p.address(ip).None? ==> (IsIpAllowed(p, nets, ip) <==> Raw(ip) in nets)
  {
    if p.address(ip).Some? {
      AnyEntryMatchesSpec(p, nets, p.address(ip).value, ip);
    } else {
      AnyRawEqualsSpec(nets, ip);
    }
  }

  /** The stripped entries of one header value. */
  function HeaderEntries(v: string): (ips: seq<string>)
    ensures |ips| >= 1
    ensures forall i :: 0 <= i < |ips| ==> ',' !in ips[i]
    ensures forall i :: 0 <= i < |ips| ==> ips[i] == [] || (!IsSpace(ips[i][0]) && !IsSpace(ips[i][|ips[i]| - 1]))
  {
    var parts := SplitOn(v, ',');
    seq(|parts|, i requires 0 <= i < |parts| => Strip(parts[i]))
  }

  /** An entry that may be returned as the client address: non-empty and not a trusted proxy. */
  predicate Qualifies(p: IpParser, proxies: seq<IpEntry>, ip: string) {
    ip != "" && !IsTrustedProxy(p, proxies, ip)
  }

  /** `for ip in reversed(ips)`: the rightmost qualifying entry, if any. */
  function ScanFromRight(p: IpParser, proxies: seq<IpEntry>, ips: seq<string>): Option<string> {
    if |ips| == 0 then None
    else
      var ip := ips[|ips| - 1];
      if Qualifies(p, proxies, ip) then Some(ip) else ScanFromRight(p, proxies, ips[..|ips| - 1])
  }

  /** Entry `i` qualifies and no entry to its right does. */
  predicate RightmostQualifying(p: IpParser, proxies: seq<IpEntry>, ips: seq<string>, i: int) {
    && 0 <= i < |ips| && Qualifies(p, proxies, ips[i])
    && forall j :: i < j < |ips| ==> !Qualifies(p, proxies, ips[j])
  }

  /** The scan finds an entry exactly when one qualifies, and then it is the rightmost one. */
  lemma {:induction false} ScanFromRightSpec(p: IpParser, proxies: seq<IpEntry>, ips: seq<string>)
    ensures ScanFromRight(p, proxies, ips).None? <==> forall j :: 0 <= j < |ips| ==> !Qualifies(p, proxies, ips[j])
    ensures ScanFromRight(p, proxies, ips).Some? ==>
              exists i :: RightmostQualifying(p, proxies, ips, i) && ScanFromRight(p, proxies, ips).value == ips[i]
  {
    if |ips| > 0 {
      var n := |ips| - 1;
      var pre := ips[..n];
      ScanFromRightSpec(p, proxies, pre);
      assert forall j :: 0 <= j < n ==> pre[j] == ips[j];
      if Qualifies(p, proxies, ips[n]) {
        assert RightmostQualifying(p, proxies, ips, n);
      } else if ScanFromRight(p, proxies, pre).Some? {
        var i :| RightmostQualifying(p, proxies, pre, i) && ScanFromRight(p, proxies, pre).value == pre[i];
        assert RightmostQualifying(p, proxies, ips, i);
      }
    }
  }

  /** The header loop of `get_real_ip`; `fallback` is the last entry examined so far, initially the peer. */
  function ScanHeaders(p: IpParser, proxies: seq<IpEntry>, headers: map<string, string>, names: seq<string>, fallback: string): string
    decreases |names|
  {
    if |names| == 0 then fallback
    else if names[0] in headers then
      var ips := HeaderEntries(headers[names[0]]);
      match ScanFromRight(p, proxies, ips)
      case Some(ip) => ip
      case None => ScanHeaders(p, proxies, headers, names[1..], ips[0])
    else ScanHeaders(p, proxies, headers, names[1..], fallback)
  }

  /** `get_real_ip`. */
  function RealIp(p: IpParser, c: IpConfig, req: Request): string {
    var proxies := TrustedProxiesList(p, c);
    if |proxies| == 0 then req.peer else ScanHeaders(p, proxies, req.headers, ProxyHeaders, req.peer)
  }

  /** The entries of header `name` if it is present, otherwise none. */
  function EntriesOf(req: Request, name: string): seq<string> {
    if name in req.headers then HeaderEntries(req.headers[name]) else []
  }

  /** No entry of `ips` qualifies. */
  predicate NoneQualifies(p: IpParser, proxies: seq<IpEntry>, ips: seq<string>) {
    forall j :: 0 <= j < |ips| ==> !Qualifies(p, proxies, ips[j])
  }

  /**
   With trusted proxies configured: the rightmost qualifying entry of
   `X-Real-IP` wins; failing that, the rightmost qualifying entry of
   `X-Forwarded-For`; failing both, the leftmost entry of the last header
   present, or the peer when neither header is present.
   */
  lemma RealIpSpec(p: IpParser, c: IpConfig, req: Request)
    requires |TrustedProxiesList(p, c)| > 0
    ensures var proxies := TrustedProxiesList(p, c);
            var xr := EntriesOf(req, RealIpHeader);
            var xf := EntriesOf(req, ForwardedForHeader);
            var r := RealIp(p, c, req);
            && (!NoneQualifies(p, proxies, xr) ==> exists i :: RightmostQualifying(p, proxies, xr, i) && r == xr[i])
            && (NoneQualifies(p, proxies, xr) && !NoneQualifies(p, proxies, xf) ==>
                  exists i :: RightmostQualifying(p, proxies, xf, i) && r == xf[i])
            && (NoneQualifies(p, proxies, xr) && NoneQualifies(p, proxies, xf) ==>
                  r == (if |xf| > 0 then xf[0] else if |xr| > 0 then xr[0] else req.peer))
  {
    var proxies := TrustedProxiesList(p, c);
    var xr := EntriesOf(req, RealIpHeader);
    var xf := EntriesOf(req, ForwardedForHeader);
    ScanFromRightSpec(p, proxies, xr);
    ScanFromRightSpec(p, proxies, xf);
    var fb := if RealIpHeader in req.headers then xr[0] else req.peer;
    ScanLastHeader(p, proxies, req, fb);
    assert ProxyHeaders[1..] == [ForwardedForHeader];
    if RealIpHeader in req.headers {
      assert ScanFromRight(p, proxies, xr) == ScanFromRight(p, proxies, HeaderEntries(req.headers[RealIpHeader]));
    }
  }

  /** The `X-Forwarded-For` step, with `fb` the address carried over from `X-Real-IP`. */
  lemma ScanLastHeader(p: IpParser, proxies: seq<IpEntry>, req: Request, fb: string)
    ensures var xf := EntriesOf(req, ForwardedForHeader);
            var r := ScanHeaders(p, proxies, req.headers, [ForwardedForHeader], fb);
            && (ScanFromRight(p, proxies, xf).Some? ==> r == ScanFromRight(p, proxies, xf).value)
            && (ScanFromRight(p, proxies, xf).None? ==> r == (if |xf| > 0 then xf[0] else fb))
  {
    assert [ForwardedForHeader][1..] == [];
    assert ScanFromRight(p, proxies, []) == None;
  }

  /** Without trusted proxies the headers are ignored and the peer host is the client. */
  lemma RealIpWithoutProxies(p: IpParser, c: IpConfig, req: Request)
    requires TrustedProxiesList(p, c) == []
    ensures RealIp(p, c, req) == req.peer
  {
  }

  /** `dispatch`. */
  function Dispatch(p: IpParser, c: IpConfig, req: Request): (d: Decision)
    ensures !c.enabled <==> d == PassThrough
    ensures d.Forbidden? ==> d.status == 403 && d.allowedIps == c.allowedIps
    ensures c.enabled ==>
              (d.Admitted? <==> IsIpAllowed(p, AllowedNetworks(p, c), RealIp(p, c, req)))
    ensures d.Admitted? ==> d.clientIp == RealIp(p, c, req)
    ensures d.Forbidden? ==> d.ip == RealIp(p, c, req)
  {
    if !c.enabled then PassThrough
    else
      var ip := RealIp(p, c, req);
      if !IsIpAllowed(p, AllowedNetworks(p, c), ip) then Forbidden(403, ip, c.allowedIps)
      else Admitted(ip)
  }

  /** With the default settings every request passes through unchecked. */
  lemma DefaultPassesThrough(p: IpParser, req: Request)
    ensures Dispatch(p, DefaultConfig, req) == PassThrough
  {
  }

  /** Without trusted proxies, a peer that is not an address is admitted when it is listed verbatim. */
  lemma RawPeerAdmitted(p: IpParser, c: IpConfig, req: Request)
    requires c.enabled && TrustedProxiesList(p, c) == []
    requires p.address(req.peer).None? && Raw(req.peer) in AllowedNetworks(p, c)
    ensures Dispatch(p, c, req) == Admitted(req.peer)
  {
    RealIpWithoutProxies(p, c, req);
    IsIpAllowedSpec(p, AllowedNetworks(p, c), req.peer);
  }

  /**
   With filtering switched on and both lists at their defaults, a request
   from "localhost" (a host name the address parser rejects) is admitted
   through the raw entry, whatever headers it carries.
   */
  lemma LocalhostAdmittedByDefault(p: IpParser, c: IpConfig, req: Request)
    requires c.enabled && c.allowedIps == DefaultAllowedIps && c.trustedProxies == DefaultTrustedProxies
    requires req.peer == "localhost" && p.address(req.peer).None?
    ensures Dispatch(p, c, req) == Admitted(req.peer)
  {
    DefaultTrustedProxiesEmpty(p, c);
    DefaultListsLocalhost(p, c, req.peer);
    RawPeerAdmitted(p, c, req);
  }
}
