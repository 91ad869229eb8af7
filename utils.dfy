/** The helper cluster of the exchange front end's `utils` file: address
    validation and shortening, explorer links, gas and slippage arithmetic,
    provider/signer selection, contract-handle construction, regular-expression
    escaping and the token-list membership test. */
module Utils {
  import opened Wrappers
  import opened Js

  // ---------------------------------------------------------------------------
  // Collaborators that live outside the file
  // ---------------------------------------------------------------------------

  /** The two calls the validator relies on, both outside this model and kept
      abstract. `validateAndParseAddress`, from the StarkNet library, either returns
      the canonical (zero-padded) form of an address or throws, which is `None`
      here; `isZero`, from the front end's own `isZero` module, says whether a
      string denotes the number 0. */
  datatype Starknet = Starknet(
    validateAndParseAddress: string -> Option<string>,
    isZero: string -> bool)

  /** A currency of the exchange SDK: the chain's native currency or an ERC-20 style token. */
  datatype Currency = Ether | Token(chainId: int, address: string)

  /** Imported constants: the reserved all-zero address and the three tokens
      every list is taken to contain (one from the SDK, two from the front end's
      own constants). */
  datatype Constants = Constants(
    zeroAddress: string,
    token0: Currency,
    token1: Currency,
    token2: Currency)

  /** The errors the helpers throw, each carrying the offending input. */
  datatype Error =
    | InvalidAddress(address: string)
    | UnexpectedSlippage(slippage: int)

  // ---------------------------------------------------------------------------
  // isAddress
  // ---------------------------------------------------------------------------

  /** `isAddress`: `None` stands for `false`. A missing, empty or zero input is
      rejected without consulting the parser; otherwise the parser's answer is
      returned, and a parser that throws yields `None` as well. */
  function IsAddress(sn: Starknet, addr: Option<string>): (r: Option<string>)
    ensures !IsTruthy(addr) ==> r == None
    ensures IsTruthy(addr) && sn.isZero(addr.value) ==> r == None
    ensures IsTruthy(addr) && !sn.isZero(addr.value) ==> r == sn.validateAndParseAddress(addr.value)
    ensures r.Some? ==> addr.Some? && sn.validateAndParseAddress(addr.value) == r
  {
    if IsTruthy(addr) && !sn.isZero(addr.value) then
      sn.validateAndParseAddress(addr.value)
    else
      None
  }

  /** The parser maps every form it returns to itself. */
  ghost predicate IsIdempotentParser(sn: Starknet) {
    forall s :: sn.validateAndParseAddress(s).Some? ==>
      sn.validateAndParseAddress(sn.validateAndParseAddress(s).value) == sn.validateAndParseAddress(s)
  }

  /** With an idempotent parser, validating the result of `isAddress` again gives the
      same result exactly when it is `false` or a truthy string that `isZero` does not
      flag: the guard tests `isZero` on the raw input only, so a canonical form that
      is empty or flagged is rejected the second time. */
  lemma IsAddressFixedPoint(sn: Starknet, addr: Option<string>)
    requires IsIdempotentParser(sn)
    ensures var r := IsAddress(sn, addr);
      IsAddress(sn, r) == r <==> r.None? || (IsTruthy(r) && !sn.isZero(r.value))
  {
    var r := IsAddress(sn, addr);
    if r.Some? {
      assert sn.validateAndParseAddress(addr.value) == r;
    }
  }

  /** A parser that pads `"0"` to the canonical zero `"0x00"`, which it keeps. */
  function ZeroPaddingParser(s: string): Option<string> {
    if s == "0" || s == "0x00" then Some("0x00") else None
  }

  /** An `isZero` that recognises only the canonical zero. */
  function FlagsCanonicalZero(s: string): bool {
    s == "0x00"
  }

  /** Validation is not idempotent in general: `"0"` slips past an `isZero` that
      flags only `"0x00"`, the parser pads it to `"0x00"`, and validating that
      again gives `false`. */
  lemma IsAddressNotIdempotentExample()
    ensures IsIdempotentParser(Starknet(ZeroPaddingParser, FlagsCanonicalZero))
    ensures var sn := Starknet(ZeroPaddingParser, FlagsCanonicalZero);
      && IsAddress(sn, Some("0")) == Some("0x00")
      && IsAddress(sn, IsAddress(sn, Some("0"))) == None
  {
    var sn := Starknet(ZeroPaddingParser, FlagsCanonicalZero);
    assert "0" != "0x00";
    assert IsAddress(sn, Some("0")) == Some("0x00");
  }

  // ---------------------------------------------------------------------------
  // getVoyagerLink
  // ---------------------------------------------------------------------------

  /** The per-chain host prefixes of the block explorer. */
  const EtherscanPrefixes: map<int, string> :=
    map[1 := "", 3 := "ropsten.", 4 := "rinkeby.", 5 := "goerli.", 42 := "kovan."]

  /** Every host prefix a link can carry, in the order the link parser tries them. */
  const KnownHosts: seq<string> := ["", "ropsten.", "rinkeby.", "goerli.", "kovan."]

  /** `ETHERSCAN_PREFIXES[chainId] || ETHERSCAN_PREFIXES[1]`: an unknown chain and
      a chain whose entry is the (falsy) empty string both fall back to chain 1. */
  function ChainHost(chainId: int): (h: string)
    ensures chainId in EtherscanPrefixes && EtherscanPrefixes[chainId] != "" ==> h == EtherscanPrefixes[chainId]
    ensures chainId in EtherscanPrefixes && EtherscanPrefixes[chainId] == "" ==> h == EtherscanPrefixes[1]
    ensures chainId !in EtherscanPrefixes ==> h == EtherscanPrefixes[1] == ""
    ensures h in KnownHosts
  {
    if chainId in EtherscanPrefixes && EtherscanPrefixes[chainId] != "" then
      EtherscanPrefixes[chainId]
    else
      EtherscanPrefixes[1]
  }

  /** The host prefix of every chain the table lists. */
  lemma ChainHostTable()
    ensures ChainHost(1) == "" && ChainHost(3) == "ropsten." && ChainHost(4) == "rinkeby."
    ensures ChainHost(5) == "goerli." && ChainHost(42) == "kovan."
  {
    assert EtherscanPrefixes[3] == "ropsten." && EtherscanPrefixes[4] == "rinkeby.";
    assert EtherscanPrefixes[5] == "goerli." && EtherscanPrefixes[42] == "kovan.";
  }

  /** The `https://<host>voyager.online` origin of every link on host prefix `h`. */
  function Origin(h: string): string {
    "https://" + h + "voyager.online"
  }

  /** The four branches of the link-type switch. */
  datatype LinkKind = TransactionLink | TokenLink | BlockLink | AddressLink

  /** The switch on the link type: `address` and every unrecognised type share
      the default branch. */
  function LinkKindOf(linkType: string): (k: LinkKind)
    ensures k == TransactionLink <==> linkType == "transaction"
    ensures k == TokenLink <==> linkType == "token"
    ensures k == BlockLink <==> linkType == "block"
    ensures k == AddressLink <==> linkType !in {"transaction", "token", "block"}
  {
    if linkType == "transaction" then TransactionLink
    else if linkType == "token" then TokenLink
    else if linkType == "block" then BlockLink
    else AddressLink
  }

  /** The path segment each branch appends before the data. */
  function LinkPath(k: LinkKind): string {
    match k
    case TransactionLink => "/tx/"
    case TokenLink => "/token/"
    case BlockLink => "/block/"
    case AddressLink => "/address/"
  }

  /** `getVoyagerLink`: the chain's origin, the type's path and the data verbatim. */
  function GetVoyagerLink(chainId: int, data: string, linkType: string): (link: string)
    ensures |link| == |Origin(ChainHost(chainId))| + |LinkPath(LinkKindOf(linkType))| + |data|
    ensures StartsWith(link, "https://" + ChainHost(chainId) + "voyager.online" + LinkPath(LinkKindOf(linkType)))
    ensures link[|link| - |data|..] == data
  {
    Origin(ChainHost(chainId)) + LinkPath(LinkKindOf(linkType)) + data
  }

  /** True when `p` is a prefix of `s`. */
  predicate StartsWith(s: string, p: string) {
    |p| <= |s| && s[..|p|] == p
  }

  /** Reads the host prefix back: the first known host, from index `i` on, whose
      origin starts the link, with what follows the origin. */
  function ParseHost(link: string, i: nat): (r: Option<(string, string)>)
    requires i <= |KnownHosts|
    ensures r.Some? ==> r.value.0 in KnownHosts && link == Origin(r.value.0) + r.value.1
    decreases |KnownHosts| - i
  {
    if i == |KnownHosts| then None
    else if StartsWith(link, Origin(KnownHosts[i])) then
      assert link == Origin(KnownHosts[i]) + link[|Origin(KnownHosts[i])|..];
      Some((KnownHosts[i], link[|Origin(KnownHosts[i])|..]))
    else
      ParseHost(link, i + 1)
  }

  /** Reads the path segment back: the link kind and the data after it. */
  function ParsePath(rest: string): (r: Option<(LinkKind, string)>)
    ensures r.Some? ==> rest == LinkPath(r.value.0) + r.value.1
  {
    if StartsWith(rest, "/tx/") then
      assert rest == "/tx/" + rest[4..];
      Some((TransactionLink, rest[4..]))
    else if StartsWith(rest, "/token/") then
      assert rest == "/token/" + rest[7..];
      Some((TokenLink, rest[7..]))
    else if StartsWith(rest, "/block/") then
      assert rest == "/block/" + rest[7..];
      Some((BlockLink, rest[7..]))
    else if StartsWith(rest, "/address/") then
      assert rest == "/address/" + rest[9..];
      Some((AddressLink, rest[9..]))
    else None
  }

  /** Decodes an explorer link into its host prefix, link kind and data. */
  function ParseVoyagerLink(link: string): (r: Option<(string, LinkKind, string)>)
    ensures r.Some? ==> r.value.0 in KnownHosts
    ensures r.Some? ==> link == Origin(r.value.0) + LinkPath(r.value.1) + r.value.2
  {
    match ParseHost(link, 0)
    case None => None
    case Some(hr) =>
      match ParsePath(hr.1)
      case None => None
      case Some(pr) => Some((hr.0, pr.0, pr.1))
  }

  /** No path segment is a prefix of another segment followed by data. */
  lemma ParsePathOfLinkPath(k: LinkKind, data: string)
    ensures ParsePath(LinkPath(k) + data) == Some((k, data))
  {
    var rest := LinkPath(k) + data;
    assert rest[..|LinkPath(k)|] == LinkPath(k);
    match k
    case TransactionLink =>
      assert rest[4..] == data;
    case TokenLink =>
      assert rest[2] == 'o';
      assert rest[7..] == data;
    case BlockLink =>
      assert rest[1] == 'b';
      assert rest[7..] == data;
    case AddressLink =>
      assert rest[1] == 'a';
      assert rest[9..] == data;
  }

  /** The host prefixes differ within their first two characters, so the origin
      of one known host never begins a link on another. */
  lemma OriginsDistinct(h: string, g: string, rest: string)
    requires h in KnownHosts && g in KnownHosts && h != g
    ensures !StartsWith(Origin(h) + rest, Origin(g))
  {
    var link := Origin(h) + rest;
    assert link[8] == Origin(h)[8] && link[9] == Origin(h)[9];
    assert Origin(h)[8] != Origin(g)[8] || Origin(h)[9] != Origin(g)[9];
  }

  /** Parsing the host of a link built on a known host finds that host. */
  lemma ParseHostOfOrigin(h: string, rest: string, i: nat)
    requires i <= |KnownHosts| && h in KnownHosts[i..]
    ensures ParseHost(Origin(h) + rest, i) == Some((h, rest))
    decreases |KnownHosts| - i
  {
    var link := Origin(h) + rest;
    assert link[..|Origin(h)|] == Origin(h);
    assert link[|Origin(h)|..] == rest;
    if KnownHosts[i] != h {
      OriginsDistinct(h, KnownHosts[i], rest);
      ParseHostOfOrigin(h, rest, i + 1);
    }
  }

  /** Decoding a link recovers the chain's host prefix, the branch of the type
      switch and the data, unchanged. */
  lemma VoyagerLinkRoundTrip(chainId: int, data: string, linkType: string)
    ensures ParseVoyagerLink(GetVoyagerLink(chainId, data, linkType))
         == Some((ChainHost(chainId), LinkKindOf(linkType), data))
  {
    var h, k := ChainHost(chainId), LinkKindOf(linkType);
    var link := GetVoyagerLink(chainId, data, linkType);
    assert link == Origin(h) + (LinkPath(k) + data);
    ParseHostOfOrigin(h, LinkPath(k) + data, 0);
    ParsePathOfLinkPath(k, data);
  }

  /** Two links coincide only when they name the same host, the same branch and
      the same data. */
  lemma VoyagerLinkInjective(c1: int, d1: string, t1: string, c2: int, d2: string, t2: string)
    requires GetVoyagerLink(c1, d1, t1) == GetVoyagerLink(c2, d2, t2)
    ensures ChainHost(c1) == ChainHost(c2)
    ensures LinkKindOf(t1) == LinkKindOf(t2)
    ensures d1 == d2
  {
    VoyagerLinkRoundTrip(c1, d1, t1);
    VoyagerLinkRoundTrip(c2, d2, t2);
  }

  /** On the main chain a transaction link has no host prefix. */
  lemma VoyagerLinkMainChainExample()
    ensures GetVoyagerLink(1, "0xabc", "transaction") == "https://voyager.online/tx/0xabc"
  {
    assert ChainHost(1) == "";
    assert LinkKindOf("transaction") == TransactionLink;
  }

  /** On Ropsten a block link carries the `ropsten.` host prefix. */
  lemma VoyagerLinkRopstenExample()
    ensures GetVoyagerLink(3, "0xabc", "block") == "https://ropsten.voyager.online/block/0xabc"
  {
    assert ChainHost(3) == "ropsten." by {
      assert 3 in EtherscanPrefixes && EtherscanPrefixes[3] == "ropsten.";
    }
    assert Origin(ChainHost(3)) == "https://ropsten.voyager.online";
    assert LinkPath(LinkKindOf("block")) == "/block/";
    assert "https://ropsten.voyager.online" + "/block/" + "0xabc" == "https://ropsten.voyager.online/block/0xabc";
  }

  /** An unknown chain falls back to the main chain and an unknown type to the address path. */
  lemma VoyagerLinkFallbackExample()
    ensures GetVoyagerLink(7, "0xabc", "contract") == "https://voyager.online/address/0xabc"
  {
    assert ChainHost(7) == "";
    assert LinkKindOf("contract") == AddressLink;
  }

  // ---------------------------------------------------------------------------
  // shortenAddress
  // ---------------------------------------------------------------------------

  /** The default number of characters kept on each side. */
  const DefaultShortenChars: int := 4

  /** `shortenAddress` as written: throws unless validation gives a truthy string,
      then keeps `parsed.substring(0, chars + 2)` and `parsed.substring(63 - chars)`. */
  function ShortenAddress(sn: Starknet, address: string, chars: int): (r: Result<string, Error>)
    ensures r.Err? <==> !IsTruthy(IsAddress(sn, Some(address)))
    ensures r.Err? ==> r.error == InvalidAddress(address)
    ensures r.Ok? ==> var p := IsAddress(sn, Some(address)).value;
      0 <= chars <= 63 && chars + 2 <= |p| && 63 - chars <= |p| ==>
        r.value == p[..chars + 2] + "..." + p[63 - chars..]
    ensures r.Ok? ==> var p := IsAddress(sn, Some(address)).value;
      0 <= chars && chars + 2 <= |p| <= 63 - chars ==> r.value == p[..chars + 2] + "..."
    ensures r.Ok? ==> var p := IsAddress(sn, Some(address)).value;
      r.value == Substring(p, 0, chars + 2) + "..." + SubstringFrom(p, 63 - chars)
  {
    var parsed := IsAddress(sn, Some(address));
    if !IsTruthy(parsed) then
      Err(InvalidAddress(address))
    else
      Ok(Substring(parsed.value, 0, chars + 2) + "..." + SubstringFrom(parsed.value, 63 - chars))
  }

  /** For a 66-character canonical address the literal offset 63 keeps `chars + 3`
      trailing characters, not `chars`. */
  lemma ShortenAddressCanonicalWidth(sn: Starknet, address: string, chars: int)
    requires 0 <= chars <= 63
    requires IsAddress(sn, Some(address)).Some? && |IsAddress(sn, Some(address)).value| == 66
    ensures ShortenAddress(sn, address, chars).Ok?
    ensures var p := IsAddress(sn, Some(address)).value;
      var short := ShortenAddress(sn, address, chars).value;
      && short == p[..chars + 2] + "..." + p[66 - (chars + 3)..]
      && |short| == 2 * chars + 8
  {
  }

  /** With the default of 4 the shortened canonical address is `0x` and four digits,
      the ellipsis, and the last seven characters. */
  lemma ShortenAddressDefaultTail(sn: Starknet, address: string)
    requires IsAddress(sn, Some(address)).Some? && |IsAddress(sn, Some(address)).value| == 66
    ensures var p := IsAddress(sn, Some(address)).value;
      ShortenAddress(sn, address, DefaultShortenChars) == Ok(p[..6] + "..." + p[59..])
  {
  }

  /** The validator of the example below: accepts exactly `CanonicalExample`. */
  function ExampleValidator(s: string): Option<string> {
    if s == CanonicalExample() then Some(s) else None
  }

  /** A 66-character canonical address: `0x` and 64 hexadecimal digits ending in `abcd`. */
  function CanonicalExample(): string {
    seq(66, i => HexDigitAt(i))
  }

  /** The character at index `i` of `CanonicalExample`. */
  function HexDigitAt(i: int): char {
    if i == 1 then 'x'
    else if i == 62 then 'a' else if i == 63 then 'b' else if i == 64 then 'c' else if i == 65 then 'd'
    else '0'
  }

  /** For `chars = 4` the offset 63 keeps the seven trailing characters
      `000abcd`, where the doc comment of `shortenAddress` promises four. */
  lemma ShortenAddressTailExample()
    ensures |CanonicalExample()| == 66
    ensures ShortenAddress(Starknet(ExampleValidator, s => false), CanonicalExample(), 4)
         == Ok("0x0000...000abcd")
  {
    var sn := Starknet(ExampleValidator, s => false);
    assert IsAddress(sn, Some(CanonicalExample())) == Some(CanonicalExample());
    assert CanonicalExample()[..6] == "0x0000";
    assert CanonicalExample()[59..] == "000abcd";
    assert ShortenAddress(sn, CanonicalExample(), 4) == Ok("0x0000" + "..." + "000abcd");
    assert "0x0000" + "..." + "000abcd" == "0x0000...000abcd";
  }

  /** A parse shorter than `63 - chars` keeps its head and gets no tail: `0x1`
      with `chars = 4` becomes `0x1...`. */
  lemma ShortenAddressShortParseExample()
    ensures ShortenAddress(Starknet(s => if s == "0x1" then Some(s) else None, s => false), "0x1", 4)
         == Ok("0x1...")
  {
    var sn := Starknet(s => if s == "0x1" then Some(s) else None, s => false);
    assert IsAddress(sn, Some("0x1")) == Some("0x1");
    assert Substring("0x1", 0, 6) == "0x1";
    assert SubstringFrom("0x1", 59) == "";
    assert "0x1" + "..." + "" == "0x1...";
  }

  /** `shortenAddress` as its comment intends it: the tail is the last `chars`
      characters of the canonical address, whatever its width. */
  function ShortenAddressLastChars(sn: Starknet, address: string, chars: int): (r: Result<string, Error>)
    ensures r.Err? <==> !IsTruthy(IsAddress(sn, Some(address)))
    ensures r.Err? ==> r.error == InvalidAddress(address)
    ensures r.Ok? ==> var p := IsAddress(sn, Some(address)).value;
      0 <= chars && chars + 2 <= |p| ==>
        && r.value == p[..chars + 2] + "..." + p[|p| - chars..]
        && |r.value| == 2 * chars + 5
  {
    var parsed := IsAddress(sn, Some(address));
    if !IsTruthy(parsed) then
      Err(InvalidAddress(address))
    else
      Ok(Substring(parsed.value, 0, chars + 2) + "..." + SubstringFrom(parsed.value, |parsed.value| - chars))
  }

  // ---------------------------------------------------------------------------
  // calculateGasMargin
  // ---------------------------------------------------------------------------

  /** `calculateGasMargin`: `value * 11000 / 10000` with truncating division, that
      is the value plus a tenth of it rounded toward zero. */
  function CalculateGasMargin(value: int): (r: int)
    ensures 0 <= value ==> r == value + value / 10
    ensures value < 0 ==> r == value - (-value) / 10
    ensures 0 <= value ==> value <= r
    ensures value % 10 == 0 ==> r == value + value / 10
  {
    GasMarginClosedForm(value);
    TruncDiv(value * (10000 + 1000), 10000)
  }

  /** The product-then-divide of the source equals the value plus its tenth,
      truncated toward zero. */
  lemma GasMarginClosedForm(value: int)
    ensures 0 <= value ==> TruncDiv(value * 11000, 10000) == value + value / 10
    ensures value < 0 ==> TruncDiv(value * 11000, 10000) == value - (-value) / 10
  {
    var a := if value < 0 then -value else value;
    var q, m := a / 10, a % 10;
    assert a == 10 * q + m && 0 <= m < 10;
    assert a * 11000 == 10000 * (a + q) + 1000 * m;
    assert (a * 11000) / 10000 == a + q;
  }

  /** The margin of a negated value is the negated margin. */
  lemma GasMarginOdd(value: int)
    ensures CalculateGasMargin(-value) == -CalculateGasMargin(value)
  {
  }

  /** The worked example: an estimate of 100000 becomes exactly 110000. */
  lemma GasMarginExample()
    ensures CalculateGasMargin(100000) == 110000
  {
  }

  // ---------------------------------------------------------------------------
  // basisPointsToPercent
  // ---------------------------------------------------------------------------

  /** An exact, unreduced fraction, as the SDK's `Percent` stores it. */
  datatype Fraction = Fraction(numerator: int, denominator: int)

  /** Two fractions with non-zero denominators denote the same rational number. */
  predicate SameRatio(x: Fraction, y: Fraction) {
    x.numerator * y.denominator == y.numerator * x.denominator
  }

  /** `basisPointsToPercent`: the exact fraction `num / 10000`, neither reduced nor rounded. */
  function BasisPointsToPercent(num: int): (p: Fraction)
    ensures p.denominator == 10000
    ensures p.numerator == num
  {
    Fraction(num, 10000)
  }

  /** `n` basis points are `m` percent exactly when `n == 100 * m`. */
  lemma BasisPointsArePercent(n: int, m: int)
    ensures SameRatio(BasisPointsToPercent(n), Fraction(m, 100)) <==> n == 100 * m
  {
  }

  /** The worked example: 250 basis points are 2.5 percent, that is 1/40. */
  lemma BasisPointsExample()
    ensures SameRatio(BasisPointsToPercent(250), Fraction(1, 40))
    ensures SameRatio(BasisPointsToPercent(250), Fraction(25, 1000))
  {
  }

  // ---------------------------------------------------------------------------
  // calculateSlippageAmount
  // ---------------------------------------------------------------------------

  /** `calculateSlippageAmount`: throws for a slippage outside `[0, 10000]`,
      otherwise the pair of truncated bounds `value * (1 -/+ slippage / 10000)`. */
  function CalculateSlippageAmount(value: int, slippage: int): (r: Result<(int, int), Error>)
    ensures r.Err? <==> slippage < 0 || slippage > 10000
    ensures r.Err? ==> r.error == UnexpectedSlippage(slippage)
    ensures r.Ok? && 0 <= value ==> r.value.0 <= value <= r.value.1
    ensures r.Ok? && value < 0 ==> r.value.1 <= value <= r.value.0
    ensures slippage == 0 ==> r == Ok((value, value))
  {
    if slippage < 0 || slippage > 10000 then
      Err(UnexpectedSlippage(slippage))
    else
      SlippageBoundsOrder(value, slippage);
      Ok((TruncDiv(value * (10000 - slippage), 10000), TruncDiv(value * (10000 + slippage), 10000)))
  }

  /** Scaling by a non-negative factor preserves order. */
  lemma {:induction false} MulMonotone(a: int, b: int, c: int)
    requires 0 <= a && b <= c
    ensures a * b <= a * c
  {
    if a > 0 {
      MulMonotone(a - 1, b, c);
      assert a * b == (a - 1) * b + b;
      assert a * c == (a - 1) * c + c;
    }
  }

  /** Dividing by 10000 with truncation toward zero preserves order. */
  lemma TruncDivMonotone(x: int, y: int)
    requires x <= y
    ensures TruncDiv(x, 10000) <= TruncDiv(y, 10000)
  {
  }

  /** The truncated bounds lie on either side of the amount. */
  lemma SlippageBoundsOrder(value: int, slippage: int)
    requires 0 <= slippage <= 10000
    ensures 0 <= value ==> TruncDiv(value * (10000 - slippage), 10000) <= value <= TruncDiv(value * (10000 + slippage), 10000)
    ensures value < 0 ==> TruncDiv(value * (10000 + slippage), 10000) <= value <= TruncDiv(value * (10000 - slippage), 10000)
  {
    var lo, mid, hi := value * (10000 - slippage), value * 10000, value * (10000 + slippage);
    assert TruncDiv(mid, 10000) == value;
    if 0 <= value {
      MulMonotone(value, 10000 - slippage, 10000);
      MulMonotone(value, 10000, 10000 + slippage);
      TruncDivMonotone(lo, mid);
      TruncDivMonotone(mid, hi);
    } else {
      MulMonotone(-value, 10000 - slippage, 10000);
      MulMonotone(-value, 10000, 10000 + slippage);
      assert -lo == (-value) * (10000 - slippage);
      assert -hi == (-value) * (10000 + slippage);
      TruncDivMonotone(hi, mid);
      TruncDivMonotone(mid, lo);
    }
  }

  /** For a non-negative amount and a valid slippage the bounds are the floor
      quotients, each the largest integer whose product with 10000 does not
      exceed the exact bound: both are rounded down. */
  lemma SlippageFloorBounds(value: int, slippage: int)
    requires 0 <= value && 0 <= slippage <= 10000
    ensures CalculateSlippageAmount(value, slippage)
         == Ok(((value * (10000 - slippage)) / 10000, (value * (10000 + slippage)) / 10000))
    ensures var (lower, upper) := CalculateSlippageAmount(value, slippage).value;
      && lower * 10000 <= value * (10000 - slippage) < lower * 10000 + 10000
      && upper * 10000 <= value * (10000 + slippage) < upper * 10000 + 10000
  {
    MulMonotone(value, 0, 10000 - slippage);
    MulMonotone(value, 0, 10000 + slippage);
  }

  /** A wider slippage never tightens the bounds of a non-negative amount. */
  lemma SlippageMonotone(value: int, s1: int, s2: int)
    requires 0 <= value && 0 <= s1 <= s2 <= 10000
    ensures CalculateSlippageAmount(value, s2).value.0 <= CalculateSlippageAmount(value, s1).value.0
    ensures CalculateSlippageAmount(value, s1).value.1 <= CalculateSlippageAmount(value, s2).value.1
  {
    MulMonotone(value, 10000 - s2, 10000 - s1);
    MulMonotone(value, 10000 + s1, 10000 + s2);
    TruncDivMonotone(value * (10000 - s2), value * (10000 - s1));
    TruncDivMonotone(value * (10000 + s1), value * (10000 + s2));
  }

  /** The out-of-range examples: one below and one above the accepted range. */
  lemma SlippageRejectsExamples(value: int)
    ensures CalculateSlippageAmount(value, -1) == Err(UnexpectedSlippage(-1))
    ensures CalculateSlippageAmount(value, 10001) == Err(UnexpectedSlippage(10001))
  {
  }

  // ---------------------------------------------------------------------------
  // getProviderOrSigner and getContract
  // ---------------------------------------------------------------------------

  /** A read-only connection to the chain. */
  datatype Provider = Provider(name: string)

  /** A wallet connector. */
  datatype Connector = Connector(name: string)

  /** A write-capable signer: the one `connector.getSigner()` returns. */
  datatype Signer = SignerOf(connector: Connector)

  /** What a contract handle is bound to. */
  datatype Access = ReadOnly(provider: Provider) | Signing(signer: Signer)

  /** An interface descriptor. */
  datatype Abi = Abi(name: string)

  /** `new Contract(abi, address, providerOrSigner)`. */
  datatype Contract = Contract(abi: Abi, address: string, access: Access)

  /** `getProviderOrSigner`: the connector's signer when both a (truthy) account and a
      connector are given, otherwise the library's provider. */
  function GetProviderOrSigner(library: Provider, connector: Option<Connector>, account: Option<string>): (r: Access)
    ensures r.Signing? <==> IsTruthy(account) && connector.Some?
    ensures r.Signing? ==> r.signer == SignerOf(connector.value)
    ensures r.ReadOnly? ==> r.provider == library
  {
    if IsTruthy(account) && connector.Some? then Signing(SignerOf(connector.value)) else ReadOnly(library)
  }

  /** `getContract`: throws when validation gives no truthy address or gives the
      zero address; otherwise binds the ABI, the address AS PASSED IN and the
      provider-or-signer into a handle. */
  function GetContract(sn: Starknet, consts: Constants, address: string, abi: Abi,
                       library: Provider, connector: Option<Connector>, account: Option<string>): (r: Result<Contract, Error>)
    ensures r.Err? <==> !IsTruthy(IsAddress(sn, Some(address))) || IsAddress(sn, Some(address)) == Some(consts.zeroAddress)
    ensures r.Err? ==> r.error == InvalidAddress(address)
    ensures r.Ok? ==> && r.value.abi == abi
                      && r.value.address == address
                      && r.value.access == GetProviderOrSigner(library, connector, account)
  {
    var parsedAddress := IsAddress(sn, Some(address));
    if !IsTruthy(parsedAddress) || parsedAddress.value == consts.zeroAddress then
      Err(InvalidAddress(address))
    else
      Ok(Contract(abi, address, GetProviderOrSigner(library, connector, account)))
  }

  /** The zero address never yields a handle: either `isZero` rejects it or the
      parser, if it canonicalises it to itself, hits the explicit comparison. */
  lemma GetContractRejectsZero(sn: Starknet, consts: Constants, abi: Abi,
                               library: Provider, connector: Option<Connector>, account: Option<string>)
    requires sn.isZero(consts.zeroAddress)
             || sn.validateAndParseAddress(consts.zeroAddress) == Some(consts.zeroAddress)
             || sn.validateAndParseAddress(consts.zeroAddress).None?
    ensures GetContract(sn, consts, consts.zeroAddress, abi, library, connector, account)
         == Err(InvalidAddress(consts.zeroAddress))
  {
  }

  /** A handle is built only for an address the validator accepts as non-zero, and
      it is bound to the signer exactly when an account and a connector are present. */
  lemma GetContractSuccess(sn: Starknet, consts: Constants, address: string, abi: Abi,
                           library: Provider, connector: Option<Connector>, account: Option<string>)
    requires GetContract(sn, consts, address, abi, library, connector, account).Ok?
    ensures address != "" && !sn.isZero(address)
    ensures sn.validateAndParseAddress(address).Some?
    ensures sn.validateAndParseAddress(address).value !in {"", consts.zeroAddress}
    ensures GetContract(sn, consts, address, abi, library, connector, account).value.access.Signing?
        <==> IsTruthy(account) && connector.Some?
  {
  }

  // ---------------------------------------------------------------------------
  // escapeRegExp
  // ---------------------------------------------------------------------------

  /** The characters of the class `[.*+?^${}()|[\]\\]`. */
  predicate IsRegExpMeta(c: char) {
    c in ".*+?^${}()|[]\\"
  }

  /** How many metacharacters `s` holds. */
  function MetaCount(s: string): nat {
    if s == [] then 0 else (if IsRegExpMeta(s[0]) then 1 else 0) + MetaCount(s[1..])
  }

  /** `escapeRegExp`: every metacharacter gains a backslash in front, every other
      character is copied. */
  function EscapeRegExp(s: string): (r: string)
    ensures |r| == |s| + MetaCount(s)
    ensures s == [] <==> r == []
  {
    if s == [] then []
    else (if IsRegExpMeta(s[0]) then ['\\', s[0]] else [s[0]]) + EscapeRegExp(s[1..])
  }

  /** Removes the backslash in front of each escaped character. */
  function Unescape(t: string): (r: string)
    ensures |r| <= |t|
  {
    if t == [] then []
    else if t[0] == '\\' && |t| >= 2 then [t[1]] + Unescape(t[2..])
    else [t[0]] + Unescape(t[1..])
  }

  /** A pattern that matches itself literally: each metacharacter is escaped by
      a backslash and no bare metacharacter is left. */
  predicate IsLiteralPattern(t: string) {
    if t == [] then true
    else if !IsRegExpMeta(t[0]) then IsLiteralPattern(t[1..])
    else |t| >= 2 && t[0] == '\\' && IsRegExpMeta(t[1]) && IsLiteralPattern(t[2..])
  }

  /** Removing the inserted backslashes recovers the input. */
  lemma {:induction false} UnescapeEscapeRegExp(s: string)
    ensures Unescape(EscapeRegExp(s)) == s
  {
    if s != [] {
      var rest := EscapeRegExp(s[1..]);
      UnescapeEscapeRegExp(s[1..]);
      if IsRegExpMeta(s[0]) {
        assert EscapeRegExp(s) == ['\\', s[0]] + rest;
        assert (['\\', s[0]] + rest)[2..] == rest;
      } else {
        assert EscapeRegExp(s) == [s[0]] + rest;
        assert ([s[0]] + rest)[1..] == rest;
      }
    }
  }

  /** Every escaped string is a literal pattern. */
  lemma {:induction false} EscapeRegExpIsLiteral(s: string)
    ensures IsLiteralPattern(EscapeRegExp(s))
  {
    if s != [] {
      var rest := EscapeRegExp(s[1..]);
      EscapeRegExpIsLiteral(s[1..]);
      if IsRegExpMeta(s[0]) {
        assert EscapeRegExp(s) == ['\\', s[0]] + rest;
        assert (['\\', s[0]] + rest)[2..] == rest;
      } else {
        assert EscapeRegExp(s) == [s[0]] + rest;
        assert ([s[0]] + rest)[1..] == rest;
      }
    }
  }

  /** Every literal pattern is the escape of what it matches, so escaping is a
      bijection between strings and literal patterns. */
  lemma {:induction false} EscapeRegExpOfLiteral(t: string)
    requires IsLiteralPattern(t)
    ensures EscapeRegExp(Unescape(t)) == t
  {
    if t != [] {
      if !IsRegExpMeta(t[0]) {
        EscapeRegExpOfLiteral(t[1..]);
        assert Unescape(t) == [t[0]] + Unescape(t[1..]);
        assert Unescape(t)[1..] == Unescape(t[1..]);
      } else {
        EscapeRegExpOfLiteral(t[2..]);
        assert Unescape(t) == [t[1]] + Unescape(t[2..]);
        assert Unescape(t)[1..] == Unescape(t[2..]);
        assert t == ['\\', t[1]] + t[2..];
      }
    }
  }

  /** A string without metacharacters comes back unchanged. */
  lemma {:induction false} EscapeRegExpNoMeta(s: string)
    requires MetaCount(s) == 0
    ensures EscapeRegExp(s) == s
  {
    if s != [] {
      EscapeRegExpNoMeta(s[1..]);
    }
  }

  // ---------------------------------------------------------------------------
  // isTokenOnList
  // ---------------------------------------------------------------------------

  /** `isTokenOnList`: the three distinguished tokens are always on the list; any
      other currency is on it when it is a token whose chain and address have an
      entry in the list's chain-by-address table. */
  function IsTokenOnList<T>(defaultTokens: map<int, map<string, T>>, consts: Constants,
                            currency: Option<Currency>): (b: bool)
    ensures currency.Some? && currency.value in {consts.token0, consts.token1, consts.token2} ==> b
    ensures currency.None? ==> !b
    ensures currency == Some(Ether) && Ether !in {consts.token0, consts.token1, consts.token2} ==> !b
    ensures currency.Some? && currency.value !in {consts.token0, consts.token1, consts.token2} ==>
      (b <==> && currency.value.Token?
              && currency.value.chainId in defaultTokens
              && currency.value.address in defaultTokens[currency.value.chainId])
  {
    if currency.Some? && currency.value in {consts.token0, consts.token1, consts.token2} then true
    else
      && currency.Some? && currency.value.Token?
      && currency.value.chainId in defaultTokens
      && currency.value.address in defaultTokens[currency.value.chainId]
  }

  /** A token table that contains another, chain by chain, keeps every token on the list. */
  lemma IsTokenOnListMonotone<T>(small: map<int, map<string, T>>, large: map<int, map<string, T>>,
                                 consts: Constants, currency: Option<Currency>)
    requires forall c :: c in small ==> c in large && small[c].Keys <= large[c].Keys
    requires IsTokenOnList(small, consts, currency)
    ensures IsTokenOnList(large, consts, currency)
  {
  }
}
