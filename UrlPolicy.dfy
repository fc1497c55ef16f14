/** The worker's SSRF guard (`_is_safe_url`): a URL may be fetched only if its
    scheme is http or https, it names a host, and every address the host
    resolves to lies outside the private, loopback, link-local and reserved
    blocks. URL parsing and name resolution are inputs: the parse outcome is a
    value and the resolver is a function from host name to its answer. */
module UrlPolicy {
  import opened Text

  /** An IPv4 address as a 32-bit number. */
  type Ipv4 = n: int | 0 <= n < 0x1_0000_0000

  /** An address as returned by the resolver; IPv6 addresses are kept as
      numbers and classified only by the `special` predicate below. */
  datatype IpAddress = V4(v4: Ipv4) | V6(v6: nat)

  /** What `urlparse` yields: the lower-cased scheme, the host name (absent
      when the URL has none) and whether reading the port succeeds. */
  datatype ParsedUrl = ParsedUrl(scheme: string, hostname: Option<string>, portOk: bool)

  /** `urlparse` either succeeds or raises (for instance on an unbalanced
      IPv6 bracket). */
  datatype UrlParse = Parsed(url: ParsedUrl) | ParseError

  /** One answer of `getaddrinfo`: an address that `ip_address` accepts, or a
      text it rejects (which raises). */
  datatype ResolvedEntry = Address(ip: IpAddress) | Unparsable

  /** The resolver's answer for a host: its addresses, or an error. */
  datatype Resolution = Resolved(entries: seq<ResolvedEntry>) | ResolveError

  /** A CIDR block given by its first address and its number of addresses. */
  datatype Block = Block(base: Ipv4, size: nat)

  predicate InBlock(ip: Ipv4, blk: Block) {
    blk.base <= ip < blk.base + blk.size
  }

  // The blocks named by the standards the policy follows (addresses written
  // as 32-bit numbers, 0x0A00_0000 being 10.0.0.0).

  /** Section 3 of RFC 1918: 10/8, 172.16/12, 192.168/16. */
  predicate IsRfc1918(ip: Ipv4) {
    InBlock(ip, Block(0x0A00_0000, 0x100_0000))
    || InBlock(ip, Block(0xAC10_0000, 0x10_0000))
    || InBlock(ip, Block(0xC0A8_0000, 0x1_0000))
  }

  /** Section 3.2.1.3 of RFC 1122: 127/8. */
  predicate IsLoopback(ip: Ipv4) {
    InBlock(ip, Block(0x7F00_0000, 0x100_0000))
  }

  /** RFC 3927: 169.254/16. */
  predicate IsLinkLocal(ip: Ipv4) {
    InBlock(ip, Block(0xA9FE_0000, 0x1_0000))
  }

  /** Further special-purpose blocks of RFC 6890: "this network" 0/8, the
      documentation blocks 192.0.2/24, 198.51.100/24 and 203.0.113/24,
      benchmarking 198.18/15, the reserved 240/4 and limited broadcast. */
  predicate IsOtherSpecial(ip: Ipv4) {
    InBlock(ip, Block(0x0000_0000, 0x100_0000))
    || InBlock(ip, Block(0xC000_0200, 0x100))
    || InBlock(ip, Block(0xC612_0000, 0x2_0000))
    || InBlock(ip, Block(0xC633_6400, 0x100))
    || InBlock(ip, Block(0xCB00_7100, 0x100))
    || InBlock(ip, Block(0xF000_0000, 0x1000_0000))
    || ip == 0xFFFF_FFFF
  }

  /** The IPv4 blocks Python's `ipaddress` lists as private (and so also
      loopback, link-local and reserved ones), in the order of its table,
      without the parts of 192.0.0/24 whose treatment differs between
      Python versions. */
  const PyPrivateV4: seq<Block> := [
    Block(0x0000_0000, 0x100_0000),   // 0.0.0.0/8
    Block(0x0A00_0000, 0x100_0000),   // 10.0.0.0/8
    Block(0x7F00_0000, 0x100_0000),   // 127.0.0.0/8
    Block(0xA9FE_0000, 0x1_0000),     // 169.254.0.0/16
    Block(0xAC10_0000, 0x10_0000),    // 172.16.0.0/12
    Block(0xC000_0200, 0x100),        // 192.0.2.0/24
    Block(0xC0A8_0000, 0x1_0000),     // 192.168.0.0/16
    Block(0xC612_0000, 0x2_0000),     // 198.18.0.0/15
    Block(0xC633_6400, 0x100),        // 198.51.100.0/24
    Block(0xCB00_7100, 0x100),        // 203.0.113.0/24
    Block(0xF000_0000, 0x1000_0000),  // 240.0.0.0/4
    Block(0xFFFF_FFFF, 1)             // 255.255.255.255/32
  ]

  predicate InTable(ip: Ipv4, table: seq<Block>) {
    exists k :: 0 <= k < |table| && InBlock(ip, table[k])
  }

  /** `ip.is_private or ip.is_loopback or ip.is_link_local or ip.is_reserved`.
      `special` stands for the classes this model does not spell out: the
      version-dependent parts of 192.0.0/24 and every IPv6 class. */
  function Blocked(ip: IpAddress, special: IpAddress -> bool): (b: bool)
    ensures ip.V4? && IsRfc1918(ip.v4) ==> b
    ensures ip.V4? && IsLoopback(ip.v4) ==> b
    ensures ip.V4? && IsLinkLocal(ip.v4) ==> b
    ensures ip.V4? && IsOtherSpecial(ip.v4) ==> b
    ensures b ==> special(ip) || (ip.V4? && (IsRfc1918(ip.v4) || IsLoopback(ip.v4)
                                            || IsLinkLocal(ip.v4) || IsOtherSpecial(ip.v4)))
  {
    if ip.V4? then TableMatchesRfcBlocks(ip.v4); special(ip) || InTable(ip.v4, PyPrivateV4)
    else special(ip)
  }

  /** The table covers exactly the blocks the RFCs name. */
  lemma TableMatchesRfcBlocks(ip: Ipv4)
    ensures InTable(ip, PyPrivateV4) <==> IsRfc1918(ip) || IsLoopback(ip) || IsLinkLocal(ip) || IsOtherSpecial(ip)
  {
    var t := PyPrivateV4;
    if IsRfc1918(ip) || IsLoopback(ip) || IsLinkLocal(ip) || IsOtherSpecial(ip) {
      var k := if InBlock(ip, t[0]) then 0 else if InBlock(ip, t[1]) then 1
        else if InBlock(ip, t[2]) then 2 else if InBlock(ip, t[3]) then 3
        else if InBlock(ip, t[4]) then 4 else if InBlock(ip, t[5]) then 5
        else if InBlock(ip, t[6]) then 6 else if InBlock(ip, t[7]) then 7
        else if InBlock(ip, t[8]) then 8 else if InBlock(ip, t[9]) then 9
        else if InBlock(ip, t[10]) then 10 else 11;
      assert InBlock(ip, t[k]);
    }
  }

  /** A host name is present and non-empty (`if not hostname`). */
  predicate HasHost(p: ParsedUrl) {
    p.hostname.Some? && p.hostname.value != ""
  }

  predicate HttpScheme(p: ParsedUrl) {
    p.scheme == "http" || p.scheme == "https"
  }

  /** The policy, stated declaratively: every condition the source checks
      holds and no resolved entry is unparsable or blocked. */
  predicate SafeUrl(u: UrlParse, dns: string -> Resolution, special: IpAddress -> bool) {
    && u.Parsed?
    && HttpScheme(u.url)
    && HasHost(u.url)
    && u.url.portOk
    && dns(u.url.hostname.value).Resolved?
    && forall e :: e in dns(u.url.hostname.value).entries ==> e.Address? && !Blocked(e.ip, special)
  }

  /** `_is_safe_url`: checks the scheme, the host, then walks the resolved
      addresses and rejects at the first unparsable or blocked one; every
      exception yields false. */
  method IsSafeUrl(u: UrlParse, dns: string -> Resolution, special: IpAddress -> bool)
    returns (safe: bool)
    ensures safe <==> SafeUrl(u, dns, special)
    ensures safe ==> u.Parsed? && HttpScheme(u.url) && HasHost(u.url)
    ensures safe ==> forall e :: e in dns(u.url.hostname.value).entries ==>
                       e.Address? && !(e.ip.V4? && (IsRfc1918(e.ip.v4) || IsLoopback(e.ip.v4)
                                                    || IsLinkLocal(e.ip.v4) || IsOtherSpecial(e.ip.v4)))
  {
    if u.ParseError? {
      return false;
    }
    var p := u.url;
    if p.scheme != "http" && p.scheme != "https" {
      return false;
    }
    if p.hostname.None? || p.hostname.value == "" {
      return false;
    }
    if !p.portOk {
      return false;
    }
    var answer := dns(p.hostname.value);
    if answer.ResolveError? {
      return false;
    }
    var i := 0;
    while i < |answer.entries|
      invariant 0 <= i <= |answer.entries|
      invariant forall j :: 0 <= j < i ==> answer.entries[j].Address? && !Blocked(answer.entries[j].ip, special)
    {
      var e := answer.entries[i];
      if e.Unparsable? || Blocked(e.ip, special) {
        assert e in answer.entries;
        return false;
      }
      i := i + 1;
    }
    return true;
  }

  /** A host that resolves to nothing passes: the check over its addresses
      holds vacuously. */
  lemma EmptyResolutionIsSafe(p: ParsedUrl, dns: string -> Resolution, special: IpAddress -> bool)
    requires HttpScheme(p) && HasHost(p) && p.portOk
    requires dns(p.hostname.value) == Resolved([])
    ensures SafeUrl(Parsed(p), dns, special)
  {
  }

  /** One bad address among many is enough to reject the URL. */
  lemma AnyBlockedAddressRejects(u: UrlParse, dns: string -> Resolution, special: IpAddress -> bool, ip: Ipv4)
    requires u.Parsed? && HasHost(u.url) && dns(u.url.hostname.value).Resolved?
    requires Address(V4(ip)) in dns(u.url.hostname.value).entries
    requires IsRfc1918(ip) || IsLoopback(ip) || IsLinkLocal(ip)
    ensures !SafeUrl(u, dns, special)
  {
    assert Blocked(V4(ip), special);
  }

  /** Whatever the host resolves to, a scheme other than http and https
      (including the empty scheme of a relative URL) is rejected. */
  lemma NonHttpSchemeRejected(p: ParsedUrl, dns: string -> Resolution, special: IpAddress -> bool)
    requires !HttpScheme(p)
    ensures !SafeUrl(Parsed(p), dns, special)
  {
  }
}
