# Exchange front-end utilities: a Dafny model

This project models the helper cluster of a StarkNet decentralised-exchange
front end, the file `src/utils/index.ts`. Each helper is a pure function, so
the model is a set of Dafny functions with lemmas about them:

- `isAddress` validates and canonicalises an address. It never throws.
- `getVoyagerLink` builds a block-explorer URL for a chain, a link type and a datum.
- `shortenAddress` abbreviates a validated address. It throws when validation fails.
- `calculateGasMargin` adds a 10% margin to a gas estimate.
- `basisPointsToPercent` turns basis points into an exact fraction.
- `calculateSlippageAmount` computes the lower and upper bounds of a trade amount for a slippage tolerance.
- `getProviderOrSigner` picks the connector's signer or the read-only provider.
- `getContract` builds a contract handle and rejects invalid and zero addresses.
- `escapeRegExp` escapes regular-expression metacharacters.
- `isTokenOnList` tests whether a token is on the default token list.

The files:

- `wrappers.dfy` (module `Wrappers`): `Option` and `Result`. They stand for the
  source's `false`/`undefined` sentinels and its thrown errors.
- `js.dfy` (module `Js`): the JavaScript semantics the helpers depend on.
  This covers string truthiness, the clamping and swapping of `String.prototype.substring`,
  and big-integer division truncating toward zero.
- `utils.dfy` (module `Utils`): the helpers themselves, with the lemmas about them.

The two calls the validator makes to code outside this model are parameters,
bundled in the datatype `Utils.Starknet`. One is `validateAndParseAddress`
from the StarkNet library; a parser that throws returns `None`. The other is
`isZero` from the front end's own `isZero` module, which is not part of this
model. The unseen constants `ZERO_ADDRESS`, `TOKEN0`, `TOKEN1` and
`TOKEN2` are parameters too, bundled in `Utils.Constants`. Amounts are
unbounded integers, as `JSBI` and `BigNumber` values are.

Some of the code's behaviour may surprise a reader. The model keeps each case
as the code is written:

- `getContract` binds the handle to the address as passed in, not to the
  canonical address the validator returns.
- `shortenAddress` cuts its tail at the literal offset `63 - chars`. The
  comment above it (`src/utils/index.ts:57`) promises the last `chars`
  characters, which this offset does not keep (see Findings).
- Both bounds of `calculateSlippageAmount` are rounded toward zero. So for a
  non-negative amount the upper bound is rounded down, not up.
- `isAddress` tests `isZero` on the raw input only, never on the parsed form.
  So validating a validated address again is not always a no-op.

## Model

| member | source | states |
|---|---|---|
| `Js.IsTruthy` | src/utils/index.ts:15 | JavaScript truthiness of `string \| false \| undefined`: only a present, non-empty string is truthy |
| `Js.Clamp` | src/utils/index.ts:63 | a `substring` index below 0 becomes 0, an index past the end becomes the length, any other is kept |
| `Js.Substring` | src/utils/index.ts:63 | `substring(start, end)` clamps both indices into the string and swaps them when reversed: stated for every combination of an index below, inside or past the string |
| `Js.SubstringFrom` | src/utils/index.ts:63 | `substring(start)` is the suffix from the clamped start; a start at or past the end gives the empty string |
| `Js.TruncDiv` | src/utils/index.ts:81-82 | `JSBI.divide` truncates toward zero: `q * d` has the sign of the dividend and lies within one divisor of it without passing it |
| `Utils.IsAddress` | src/utils/index.ts:13-23 | a missing, empty or zero input gives `false`; otherwise the result is the parser's answer, and a parser that throws gives `false` |
| `Utils.IsAddressFixedPoint` | src/utils/index.ts:13-23 | with a parser that maps its outputs to themselves, validating `isAddress`'s result again leaves it unchanged exactly when it is `false` or a truthy string `isZero` does not flag |
| `Utils.IsAddressNotIdempotentExample` | src/utils/index.ts:15-17 | with an idempotent parser that pads `"0"` to `"0x00"` and an `isZero` that flags only `"0x00"`, `isAddress(isAddress("0"))` is `false` while `isAddress("0")` is `"0x00"` |
| `Utils.ChainHost` | src/utils/index.ts:25-31 | the host prefix is the chain's table entry; an unknown chain or an empty entry falls back to chain 1's entry, which is empty |
| `Utils.ChainHostTable` | src/utils/index.ts:25-31 | chains 1, 3, 4, 5 and 42 get the prefixes `""`, `ropsten.`, `rinkeby.`, `goerli.` and `kovan.` |
| `Utils.Origin` | src/utils/index.ts:38 | the link origin is `https://`, the host prefix, then `voyager.online` |
| `Utils.LinkKindOf` | src/utils/index.ts:40-54 | `transaction`, `token` and `block` select their own branches, each if and only if; every other type, `address` included, takes the default branch |
| `Utils.LinkPath` | src/utils/index.ts:41-52 | the branches append `/tx/`, `/token/`, `/block/` and `/address/` |
| `Utils.GetVoyagerLink` | src/utils/index.ts:38-54 | the link starts with `https://<host>voyager.online<path>` and ends with the data verbatim; its length is the sum of the three parts |
| `Utils.ParseHost` | src/utils/index.ts:25-38 | a host found by the decoder is a known host, and the link is that host's origin followed by the rest |
| `Utils.ParsePath` | src/utils/index.ts:40-54 | an accepted remainder splits into a branch's path segment followed by the data |
| `Utils.ParseVoyagerLink` | src/utils/index.ts:38-54 | an accepted link splits into a known host's origin, a path segment and the data |
| `Utils.ParsePathOfLinkPath` | src/utils/index.ts:40-54 | no path segment is mistaken for another: parsing a segment followed by data gives back that branch and that data |
| `Utils.OriginsDistinct` | src/utils/index.ts:25-31 | the origin of one known host never begins a link built on another |
| `Utils.ParseHostOfOrigin` | src/utils/index.ts:38 | parsing the host of a link built on a known host finds that host and the rest of the link |
| `Utils.VoyagerLinkRoundTrip` | src/utils/index.ts:38-54 | decoding any link recovers the chain's host prefix, the branch of the type switch and the data |
| `Utils.VoyagerLinkInjective` | src/utils/index.ts:38-54 | two links are equal only if their host prefix, branch and data are equal |
| `Utils.VoyagerLinkMainChainExample` | src/utils/index.ts:41-42 | a chain-1 transaction link is `https://voyager.online/tx/0xabc` |
| `Utils.VoyagerLinkRopstenExample` | src/utils/index.ts:47-48 | a chain-3 block link is `https://ropsten.voyager.online/block/0xabc` |
| `Utils.VoyagerLinkFallbackExample` | src/utils/index.ts:50-53 | an unknown chain and an unknown type give `https://voyager.online/address/0xabc` |
| `Utils.ShortenAddress` | src/utils/index.ts:58-64 | throws, carrying the input, exactly when validation gives no truthy string; otherwise, for every `chars` and every parse length, the JavaScript `substring(0, chars + 2)`, `...`, and `substring(63 - chars)` of the parse; spelled out as `p[..chars+2] + "..." + p[63-chars..]` when both slices fit, and as `p[..chars+2] + "..."` (no tail) when the parse is no longer than `63 - chars` |
| `Utils.ShortenAddressCanonicalWidth` | src/utils/index.ts:63 | for a 66-character canonical address and `0 <= chars <= 63`, the tail is `chars + 3` characters and the result `2 * chars + 8` |
| `Utils.ShortenAddressDefaultTail` | src/utils/index.ts:58-63 | with the default `chars = 4` and a 66-character address the result is `p[..6] + "..." + p[59..]` |
| `Utils.ShortenAddressTailExample` | src/utils/index.ts:57-63 | the concrete input of the finding: a padded address ending in `abcd` shortens to `0x0000...000abcd` |
| `Utils.ShortenAddressShortParseExample` | src/utils/index.ts:63 | a parse shorter than the tail offset keeps its head and no tail: `0x1` with `chars = 4` becomes `0x1...` |
| `Utils.ShortenAddressLastChars` | src/utils/index.ts:57-64 | the corrected helper: same errors; the tail is the last `chars` characters whatever the width; the result is `2 * chars + 5` long |
| `Utils.CalculateGasMargin` | src/utils/index.ts:66-69 | `value * 11000 / 10000`, truncated, is the value plus a tenth of it rounded toward zero; never below a non-negative value; exact for multiples of 10 |
| `Utils.GasMarginClosedForm` | src/utils/index.ts:68 | the multiply-then-divide equals `value + value / 10` for non-negative values and `value - (-value) / 10` for negative ones |
| `Utils.GasMarginOdd` | src/utils/index.ts:68 | the margin of a negated estimate is the negated margin |
| `Utils.GasMarginExample` | src/utils/index.ts:67-69 | an estimate of 100000 becomes exactly 110000 |
| `Utils.BasisPointsToPercent` | src/utils/index.ts:72-74 | the fraction has numerator `num` and denominator 10000, neither reduced nor rounded |
| `Utils.BasisPointsArePercent` | src/utils/index.ts:72-74 | `n` basis points equal `m` percent exactly when `n == 100 * m` |
| `Utils.BasisPointsExample` | src/utils/index.ts:72-74 | 250 basis points are 1/40, that is 2.5 percent |
| `Utils.CalculateSlippageAmount` | src/utils/index.ts:76-84 | fails, carrying the slippage, exactly when it lies outside `[0, 10000]`; the bounds surround a non-negative amount and swap roles for a negative one; zero slippage gives `(value, value)` |
| `Utils.SlippageBoundsOrder` | src/utils/index.ts:80-83 | for a valid slippage the two truncated quotients lie on either side of the amount |
| `Utils.SlippageFloorBounds` | src/utils/index.ts:80-83 | for a non-negative amount the bounds are the floor quotients `v*(10000-s)/10000` and `v*(10000+s)/10000`: both rounded down, each within 10000 of the exact product |
| `Utils.SlippageMonotone` | src/utils/index.ts:80-83 | a wider slippage never raises the lower bound or lowers the upper bound of a non-negative amount |
| `Utils.SlippageRejectsExamples` | src/utils/index.ts:77-79 | slippages -1 and 10001 are both rejected |
| `Utils.GetProviderOrSigner` | src/utils/index.ts:87-93 | the result is the connector's signer if and only if a truthy account and a connector are given; otherwise it is the library's provider |
| `Utils.GetContract` | src/utils/index.ts:96-112 | fails, carrying the input, exactly when validation gives no truthy string or gives the zero address; otherwise the handle holds the ABI, the address as passed in and the resolved provider or signer |
| `Utils.GetContractRejectsZero` | src/utils/index.ts:103-107 | the zero address never yields a handle when `isZero` flags it, the parser rejects it, or the parser maps it to itself |
| `Utils.GetContractSuccess` | src/utils/index.ts:103-111 | a handle exists only for a non-empty, non-zero input the parser accepts as neither empty nor the zero address; it is signer-bound exactly when account and connector are present |
| `Utils.IsRegExpMeta` | src/utils/index.ts:120 | the metacharacters are exactly the class `[.*+?^${}()\|[\]\\]` |
| `Utils.EscapeRegExp` | src/utils/index.ts:119-121 | the output is longer than the input by the number of metacharacters; only the empty string escapes to the empty string |
| `Utils.UnescapeEscapeRegExp` | src/utils/index.ts:119-121 | removing the inserted backslashes recovers the input |
| `Utils.EscapeRegExpIsLiteral` | src/utils/index.ts:119-121 | in every escaped string, each metacharacter is preceded by a backslash and no bare metacharacter is left |
| `Utils.EscapeRegExpOfLiteral` | src/utils/index.ts:119-121 | every such literal pattern is the escape of its unescaped form, so escaping is a bijection onto literal patterns |
| `Utils.EscapeRegExpNoMeta` | src/utils/index.ts:119-121 | a string without metacharacters is returned unchanged |
| `Utils.IsTokenOnList` | src/utils/index.ts:123-126 | the three distinguished tokens are on every list; no currency is on it when absent; any other currency is on it if and only if it is a token whose chain and address have an entry |
| `Utils.IsTokenOnListMonotone` | src/utils/index.ts:123-126 | a table containing another, chain by chain, keeps every token the smaller one lists |

## Left out

- `src/hooks/useContract.ts`: React hooks. They add memoisation, the wallet context, diagnostic logging and constant address tables from files that are not part of this model. The four role hooks look their address up per chain, falling back to the default chain when none is connected (`chainId ?? DEFAULT_CHAIN_ID`, `src/hooks/useContract.ts:44, 50, 56, 62`); those tables are not modelled. Their only other logic is "null if an input is missing, otherwise `getContract` with errors turned into null".
- The hook passes no `account` to `getContract` (`src/hooks/useContract.ts:24`). So every handle it builds is read-only, and its `withSignerIfPossible` argument has no effect.
- The internals of `validateAndParseAddress`, `Contract` construction and `connector.getSigner()`: these are StarkNet and wallet library calls. They are parameters or opaque datatypes here. The signer is `SignerOf(connector)`.
- The internals of `isZero`: it comes from the front end's own `isZero` module, which is not part of this model. It is a parameter here.
- `isZero` is modelled as total. A throw from it, which the source's `catch` would also turn into `false`, is not modelled.
- Non-integer `number` arguments (`slippage`, `num`, `chars`) are not modelled: for the BigInt ones `JSBI.BigInt` would throw a `RangeError`. All three are integers here.
- JavaScript `===` on currencies compares object identity. The model compares values. The `instanceof Token` test is the `Token?` constructor test.
- Token-list entries are arbitrary values of a type parameter. A present entry is an object, so it always counts as truthy.
- Strings are sequences of Unicode characters. JavaScript's `substring` indices and lengths count UTF-16 code units instead. The two agree on hexadecimal addresses and on the ASCII metacharacters.
- Overflow is not modelled: `JSBI` and `BigNumber` are arbitrary precision.

## Findings

| source | as written | input that shows it | evidently intended | confidence | as-written member | corrected member |
|---|---|---|---|---|---|---|
| src/utils/index.ts:57-63 | the tail is `parsed.substring(63 - chars)`, which for a 66-character canonical StarkNet address keeps `chars + 3` characters | `chars = 4` and an address that validates to `0x` plus 64 hex digits ending in `abcd`: the result is `0x0000...000abcd`, with 7 trailing characters | the comment promises 4 characters at the end: `parsed.substring(parsed.length - chars)` | medium; depends on the parser padding to 66 characters; not executed | `Utils.ShortenAddress` (with `Utils.ShortenAddressTailExample`, `Utils.ShortenAddressCanonicalWidth`) | `Utils.ShortenAddressLastChars` |
