# Uniswap v3 unclaimed-fees report, modelled in Dafny

`uni/uniswappos.js` is a status-bar script. It finds every Uniswap v3
liquidity position owned by a wallet and reads each position's unclaimed
fees by simulating `collect`. It then resolves token symbols and decimals,
prices the tokens in USD (CoinGecko first, DefiLlama for whatever CoinGecko
leaves unpriced) and works out whether each position's tick range holds the
pool's current tick. It prints a total line and one line per position.

The model also covers the two helpers the script starts with:

- reading `uniswappos.env`, where shell variables win over the file;
- choosing the wallet address and RPC URL by the first non-empty variable of
  each fallback chain.

Modules, following the script's structure:

- `Base`, `Text` (`text.dfy`): `Option`/`Result`, an insertion-ordered set
  (the JS `Set`), and the string operations the script uses: `trim`,
  `split`, `indexOf`, `toLowerCase`, decimal rendering and `shorten`.
- `EnvFile` (`env.dfy`): `loadEnvFromFile` and the `WALLET_ADDRESS` /
  `RPC_URL` fallback chains.
- `Tokens` (`tokens.dfy`): `getTokenMeta` with `tokenMetaCache`.
- `Prices` (`prices.dfy`): `fetchPrices`, the normalisation of DefiLlama's
  `coins` object, and the price-merge precedence.
- `Range` (`range.dfy`): `isInRange` with `poolTickCache`, the range label
  and the range colour.
- `Positions` (`positions.dfy`): the position loop of `main`, covering the
  skip rule, the `err-i` placeholders, `tokenAddrSet` and the fee amounts.
- `Valuation` (`valuation.dfy`): the valuation loop (USD value, total and
  range status) and `formatFees`.
- `Report` (`report.dfy`): `main` as a whole, with its early stops in order.

Everything the script learns from outside is an input:

- the environment file's text, or its absence;
- the shell environment;
- per position index, the result of `tokenOfOwnerByIndex`, `positions` and
  the simulated `collect`, each either a value or a failure message;
- per token address, what `symbol()` and `decimals()` return or that they
  fail;
- `getPool` and `slot0().tick`;
- each price provider as a function from the addresses it is asked about to
  its parsed answer. A transport or parse failure gives an empty answer, as
  the script resolves such failures to `{}`.

Each loop of the script is a method that keeps the script's caches. Each
method is proved equal to an uncached specification function. A cache is
proved harmless by a soundness invariant: every cached value is what a fresh
read would return.

A live position with zero fees on both sides is valued as `null`
(unknown), not as a known 0: neither price term counts, so `hasUsd` stays
false. `Report.LiveWithoutFees` proves `usd` is None and the total is 0.

## Model

| member | source | states |
|---|---|---|
| Base.SetAdd | uni/uniswappos.js:166-167 | `Set.add`: membership grows by exactly `x`, insertion order is kept, a present element changes nothing, no duplicates |
| Base.Unique | uni/uniswappos.js:263 | `Array.from(new Set(xs))`: same members as `xs`, no duplicates |
| Text.TrimStartSpec | uni/uniswappos.js:390 | stripping leading whitespace leaves a suffix that starts with a non-whitespace character, and everything removed is whitespace |
| Text.TrimEndSpec | uni/uniswappos.js:390 | stripping trailing whitespace leaves a prefix that ends with a non-whitespace character, and everything removed is whitespace |
| Text.Trim | uni/uniswappos.js:390 | the trimmed string is empty or starts and ends with a non-whitespace character |
| Text.TrimIsSlice | uni/uniswappos.js:390 | `trim` removes only leading and trailing whitespace: the result is a contiguous slice whose surroundings are all whitespace |
| Text.TrimFixed | uni/uniswappos.js:390 | a string with no whitespace at either end is its own trim |
| Text.TrimIdempotent | uni/uniswappos.js:390 | trimming twice is trimming once |
| Text.TrimUnique | uni/uniswappos.js:390 | `trim` keeps exactly the slice between a whitespace prefix and a whitespace suffix whose end characters are not whitespace |
| Text.TrimOfTrimStart | uni/uniswappos.js:390 | trimming after stripping the front is trimming the original |
| Text.TrimOfTrimEnd | uni/uniswappos.js:390 | trimming after stripping the back is trimming the original |
| Text.TrimDropTrailingSpace | uni/uniswappos.js:390 | a trailing whitespace character does not change the trim |
| Text.TrimStartBefore | uni/uniswappos.js:390 | before a non-whitespace character, stripping the front only touches what precedes it |
| Text.TrimEndAfter | uni/uniswappos.js:390 | after a non-whitespace character, stripping the back only touches what follows it |
| Text.TrimAround | uni/uniswappos.js:390 | around a non-whitespace character, `trim` strips the front of what precedes it and the back of what follows it |
| Text.IndexOf | uni/uniswappos.js:393 | `indexOf` gives the first position of the character, or none exactly when it does not occur |
| Text.Split | uni/uniswappos.js:389 | `split` gives at least one piece, no piece has the separator, and joining the pieces with it gives back the input |
| Text.SplitAfterFirst | uni/uniswappos.js:329 | splitting `p + sep + q`, where `p` has no separator, gives `p` followed by the pieces of `q` |
| Text.ToLower | uni/uniswappos.js:203-204 | `toLowerCase` keeps the length and maps each character to its lower-case form |
| Text.DecimalString | uni/uniswappos.js:117 | `BigNumber.toString()`: at least one character, all decimal digits, reading back (left to right, base 10) as the number itself, and a leading `0` only for zero |
| Text.ToLowerIdempotent | uni/uniswappos.js:263 | lower-casing twice is lower-casing once |
| Text.Shorten | uni/uniswappos.js:359-362 | an address shorter than 10 is kept; otherwise the result has 11 characters: the first 6, an ellipsis and the last 4 |
| Text.ShortenIdempotent | uni/uniswappos.js:359-362 | shortening a shortened address changes nothing |
| EnvFile.ParseLine | uni/uniswappos.js:390-397 | a blank line, a `#` comment or a line without `=` gives nothing; any other line splits at its first `=`, gives nothing exactly when the part before it trims to nothing, and otherwise binds that trimmed part to the trimmed part after it |
| EnvFile.ParseLineSpec | uni/uniswappos.js:390-397 | a line yields a binding only if its trimmed form holds `=` and does not start with `#`; the key is non-empty, trimmed and has no `=`, and the value is trimmed |
| EnvFile.ParseLinePadded | uni/uniswappos.js:390-397 | a line `p=q` with whitespace anywhere around either side (`KEY = value`) binds the trimmed `p` to the trimmed `q`, when `p` has no `=` and does not trim to a comment or to nothing |
| EnvFile.ParseLineOfBinding | uni/uniswappos.js:390-397 | round trip: the line `key=value` parses back to that key and value |
| EnvFile.Apply | uni/uniswappos.js:398-401 | one line applied: every variable already set keeps its value, a new variable can only come from that line's binding, and a bound key is present afterwards |
| EnvFile.ApplyAll | uni/uniswappos.js:392-402 | all lines applied: variables already set keep their values, and every new variable is the binding of some line |
| EnvFile.EnvAfter | uni/uniswappos.js:388-402 | the environment after the file: variables already set keep their values, and every new variable is what some line of the file parses to |
| EnvFile.FirstValueSpec | uni/uniswappos.js:388-402 | the first value the file gives a key is the binding of some line and no earlier line binds that key; none exactly when no line binds the key |
| EnvFile.EnvAfterBinding | uni/uniswappos.js:398-401 | a variable already set keeps its value; an unset one ends up bound exactly when some line binds it, to the FIRST such line's value |
| EnvFile.LoadEnvFromFile | uni/uniswappos.js:384-406 | a missing or unreadable file changes nothing; otherwise the environment is the line-by-line fold of the file's lines |
| EnvFile.FirstNonEmpty | uni/uniswappos.js:10-19 | the `a \|\| b \|\| c \|\| ''` chain: empty exactly when every name is unset or empty, else the value of a set name |
| EnvFile.StartupConfig | uni/uniswappos.js:7-19 | the wallet and RPC URL are their chains' first non-empty values over the environment after loading the file, and each is empty exactly when none of its three variables is set to a non-empty value |
| EnvFile.FileChainHeadWins | uni/uniswappos.js:7-19 | a file line `UNI_WALLET_ADDRESS=B` decides the wallet when the shell does not set that name, whatever the shell's `WALLET_ADDRESS` |
| EnvFile.FirstNonEmptyAgree | uni/uniswappos.js:10-19 | two environments that agree on the chain's names choose the same value |
| EnvFile.ShellWalletWins | uni/uniswappos.js:7-14 | when the shell defines all wallet variables, the file cannot change the wallet address |
| EnvFile.ShellRpcWins | uni/uniswappos.js:7-19 | when the shell defines all RPC variables, the file cannot change the RPC URL |
| Tokens.ResolveMeta | uni/uniswappos.js:96-109 | a fresh lookup: the symbol read, or `shorten(addr)` when it fails; the decimals read (below 256), or 18 when it fails |
| Tokens.GetTokenMeta | uni/uniswappos.js:94-111 | a cached address is answered from the cache without reads; otherwise `symbol()` falls back to `shorten(addr)` and `decimals()` to 18 and the result is stored; over a sound cache the answer is a fresh lookup and the cache stays sound |
| Prices.Lowered | uni/uniswappos.js:263 | every address lower-cased, in order, each already in canonical form |
| Prices.PriceOf | uni/uniswappos.js:206-213 | a price is known exactly when the map entry is truthy and its `usd` is a number, and then it is that `usd` |
| Prices.Missing | uni/uniswappos.js:269 | the addresses left for the secondary are exactly the unpriced ones, without duplicates |
| Prices.LlamaKey | uni/uniswappos.js:329-330 | a DefiLlama key is kept exactly when its `:`-split has a second, non-empty piece, and then it is that piece lower-cased |
| Prices.LlamaKeyNoColon | uni/uniswappos.js:329-330 | a key without `:` is dropped |
| Prices.LlamaKeyAfterPrefix | uni/uniswappos.js:329-330 | after any prefix without `:`, the kept key is the text up to the next `:`, lower-cased, and an empty such piece is dropped |
| Prices.LlamaKeyOfQuery | uni/uniswappos.js:312-329 | the key of the coin asked for as `ethereum:a` is `a` lower-cased |
| Prices.LlamaPrices | uni/uniswappos.js:327-332 | the normalised DefiLlama map has only non-empty keys and only numeric prices |
| Prices.LlamaPricesLast | uni/uniswappos.js:327-332 | the last DefiLlama entry sets the price of the address it names with a numeric price, and leaves every other address as the earlier entries made it |
| Prices.LlamaPricesKeys | uni/uniswappos.js:327-332 | every value taken from DefiLlama is numeric; an address is present exactly when some entry with a key and a numeric price names it |
| Prices.LlamaPricesLastWins | uni/uniswappos.js:327-332 | the price kept for an address is that of the last entry naming it |
| Prices.NormalizeLlama | uni/uniswappos.js:327-333 | the normalisation loop builds exactly the map of the specification fold |
| Prices.FetchPrices | uni/uniswappos.js:262-276 | no provider is asked when there are no addresses; otherwise the primary is asked about the lower-cased addresses, once each |
| Prices.FetchPricesMerge | uni/uniswappos.js:268-274 | the secondary is asked exactly about the addresses the primary left unpriced, and not at all when there are none (the result is then the primary's answer); primary entries win the merge; every price the secondary gives for an address the primary did not answer is in the result; nothing else is |
| Prices.BlankPrimaryWinsMerge | uni/uniswappos.js:269-274 | a falsy primary entry sends the address to the secondary, yet the merge keeps the falsy entry, so the address stays unpriced |
| Range.RangeStatus | uni/uniswappos.js:364-382 | the status is known exactly when `getPool` succeeds, returns a non-zero pool and its tick can be read; it is true exactly when `tickLower <= tick <= tickUpper` |
| Range.ExistingPool | uni/uniswappos.js:366-368 | a pool is used exactly when `getPool` succeeds with an address that is neither empty nor the zero address |
| Range.IsInRange | uni/uniswappos.js:364-382 | over a sound cache the answer is the uncached status and the cache stays sound; the tick is read exactly when the pool exists and is not cached, and the read value is stored exactly when the read succeeds |
| Range.RangeExamples | uni/uniswappos.js:377-378 | with bounds -100..100, tick 0 is in range, tick 150 is out of range, and a zero pool address gives unknown |
| Range.RangeLabel | uni/uniswappos.js:253 | the label is `RANGE ?` exactly for unknown, `IN RANGE` exactly for in range and `OUT RANGE` exactly for out of range |
| Range.RangeColour | uni/uniswappos.js:254 | the colour is gray exactly for unknown, green exactly for in range and orange exactly for out of range |
| Range.RangeDisplayDistinct | uni/uniswappos.js:253-254 | the three states get three different labels and three different colours |
| Positions.HumanAmount | uni/uniswappos.js:159-164 | a fee amount is never negative, and positive exactly when the raw amount is |
| Positions.HumanAmountScales | uni/uniswappos.js:159-164 | scaling the human amount back by 10^decimals gives the raw amount |
| Positions.HumanAmountExample | uni/uniswappos.js:159-161 | 1500000 base units at 6 decimals is 1.5 |
| Positions.CollectedFees | uni/uniswappos.js:130-144 | the fees are the amounts the `collect` simulation returns, and zero when it fails |
| Positions.ErrTokenId | uni/uniswappos.js:183-186 | a placeholder id is `err-` followed by decimal digits that read back as the index |
| Positions.ErrTokenIdIsNotTokenId | uni/uniswappos.js:184 | a placeholder id never equals the decimal id of a real position |
| Positions.StepAt | uni/uniswappos.js:114-187 | an index is skipped exactly when both reads succeed, the liquidity is 0 and both fees are 0; a failed read gives the `err-i` placeholder with the failure's message, and only a failed read does; a kept position has its decimal token id, its two tokens in pool order, its fee tier and ticks, each token's own symbol, and each fee scaled by that token's own decimals (zero when the `collect` simulation fails), with no value or range status yet |
| Positions.Collect | uni/uniswappos.js:114-188 | the `positions` array never has more entries than there are positions, and every entry is what some index contributes |
| Positions.FlattenByIndex | uni/uniswappos.js:114-188 | the entries pushed by a run of visits are, one for one, the contributions of the visits that push something, at their indices |
| Positions.KeptOrdered | uni/uniswappos.js:114-188 | the visits that push something are listed in strictly increasing index order, and none is missing |
| Positions.CollectSnoc | uni/uniswappos.js:114-186 | visiting one more index appends its contribution, if any, to `positions` and changes nothing before it |
| Positions.CollectByIndex | uni/uniswappos.js:114-188 | the k-th entry is what the k-th contributing index gives, and there are never more entries than positions |
| Positions.KeptIndicesOrdered | uni/uniswappos.js:114-188 | entries keep index order, and every contributing index has its entry |
| Positions.TokenAddrs | uni/uniswappos.js:166-167 | `tokenAddrSet` has no duplicates |
| Positions.TokenAddrsContents | uni/uniswappos.js:166-167 | `tokenAddrSet` holds exactly the lower-cased tokens of the kept positions; placeholders add nothing |
| Positions.VisitIndex | uni/uniswappos.js:115-186 | one index's `try` block: over a sound metadata cache it pushes what the uncached specification gives, the cache stays sound, and a kept position adds its two token addresses to the cache keys |
| Positions.CollectPositions | uni/uniswappos.js:114-188 | the loop's `positions` is the uncached collection and `tokenAddrSet` its token set; `tokenMetaCache` ends sound and keyed by the kept positions' tokens |
| Valuation.UsdValue | uni/uniswappos.js:215-232 | the value is unknown exactly when neither term counts (known price and positive fees); otherwise it is the sum of the terms that count |
| Valuation.UsdValueNonNegative | uni/uniswappos.js:215-225 | non-negative fees and prices never give a negative value |
| Valuation.Valued | uni/uniswappos.js:200-235 | a placeholder is left as it is; a position changes only in `usd` and `inRange`; `usd` is the value of its fees at the prices of its lower-cased token addresses (unknown exactly when neither price term counts), and `inRange` is the range status of its own pair, fee tier and ticks |
| Valuation.ValuedAll | uni/uniswappos.js:200-236 | the valuation loop keeps the entries, their order and their ids, leaves placeholders untouched, and values each entry by itself, at its own index |
| Valuation.SumKnownAppend | uni/uniswappos.js:228-231 | the total of two blocks is the sum of their totals |
| Valuation.SumKnownSkips | uni/uniswappos.js:200-232 | placeholders and unknown values add nothing to the total |
| Valuation.SumKnownRemove | uni/uniswappos.js:228-231 | the total is the total without one entry plus that entry's known value |
| Valuation.SumKnownOrder | uni/uniswappos.js:228-231 | any rearrangement of the positions (same multiset) has the same total |
| Valuation.SumKnownNonNegative | uni/uniswappos.js:228-231 | a total of non-negative values is non-negative |
| Valuation.TickStateStep | uni/uniswappos.js:364-382 | a range check that reads only an uncached pool and caches only a successful read keeps the cache sound and never reads a successfully read pool twice |
| Valuation.TickRunState | uni/uniswappos.js:370-375 | along the range checks of a run the tick cache stays sound, holds every pool read successfully, and no such pool is read twice |
| Valuation.TickRunContents | uni/uniswappos.js:366-375 | a pool is read exactly when some position's range check looks at it, and ends up cached exactly when its `slot0()` also succeeds |
| Valuation.ValuedAllSnoc | uni/uniswappos.js:200-236 | valuing one more entry appends its valuation and adds its known value to the total |
| Valuation.ValueEntry | uni/uniswappos.js:199-235 | one pass of the loop body: a placeholder is skipped and changes nothing; over a sound tick cache a position gets the uncached value and range status, adds its known value to the total, and the tick cache and the `slot0()` reads change exactly as one step of the specification run |
| Valuation.ValuateStep | uni/uniswappos.js:199-235 | after one more pass, the first k+1 entries are valued, the rest untouched, and the total is the sum of the known values of the valued prefix |
| Valuation.TickRunSnoc | uni/uniswappos.js:234 | one more entry extends the specification run by that entry's range-check step, and the run so far keeps the tick state |
| Valuation.Valuate | uni/uniswappos.js:198-236 | each entry gets the uncached value and range status, in place; the total is the sum of the known values; the cache and the `slot0()` reads are those of the specification run: every pool a position looks at is read, a pool whose read succeeds is read once, and the cache holds exactly the pools read successfully |
| Valuation.FormatFees | uni/uniswappos.js:343-353 | the text is `0` exactly when neither fee is positive; otherwise it is the positive parts, token0 first, joined by ` + ` |
| Report.ReportOf | uni/uniswappos.js:49-236 | a missing wallet or RPC URL stops the run; a finished run has between one entry and as many entries as positions, and its total is the sum of the known values |
| Report.BuildReport | uni/uniswappos.js:49-236 | the run with its caches has the same outcome as the uncached run |
| Report.HaltOrder | uni/uniswappos.js:49-195 | the order of the early stops: missing config, then provider, then `balanceOf`, then an empty wallet, then no retained position, each exactly under its condition |
| Report.PricesNonNegative | uni/uniswappos.js:262-276 | when both providers quote only non-negative prices, every merged price is non-negative |
| Report.CollectFeesNonNegative | uni/uniswappos.js:159-164 | the fees of every kept position are non-negative |
| Report.LlamaNonNegative | uni/uniswappos.js:327-332 | when every DefiLlama price is non-negative, every price taken from it is a non-negative number |
| Report.ValuedAllNonNegative | uni/uniswappos.js:200-232 | with non-negative fees and prices, the sum of the known values of the valued positions is non-negative |
| Report.TotalNonNegative | uni/uniswappos.js:198-238 | when the providers quote only non-negative prices, the title total is never negative |
| Report.EmptyWallet | uni/uniswappos.js:82-87 | a wallet with no positions stops with the no-positions message and a zero total |
| Report.LiveWithoutFees | uni/uniswappos.js:146-232 | a live position with zero fees is kept, its fees read `0`, its value is unknown and the total is 0 |
| Report.FailureThenPosition | uni/uniswappos.js:114-236 | a failure at index 0 then a good position gives two entries: `err-0` first with the failure's message, then the position; the total is that position's value alone |

## Left out

- `install.js`: it only installs dependencies at start-up; it is not part of this model.
- The ethers calls (`balanceOf`, `tokenOfOwnerByIndex`, `positions`, `callStatic.collect`, `symbol`, `decimals`, `getPool`, `slot0`) and the HTTPS requests are inputs, so the model says nothing about what the chain or the price services return.
- JSON parsing and URL building in `fetchFromCoingecko`/`fetchFromLlama`: a provider is given by its parsed answer, with `{}` for a request error or an unparsable body, as the code resolves those.
- Neither provider request has a timeout (uni/uniswappos.js:280-304, 310-339), so a connection that never ends leaves the run waiting for ever. The model's providers always answer, so it does not capture a stalled run.
- Console output, including the `---` separators, the `#id [label] pair fee% fees: … ($…)` line and the link, is not modelled. The parts with logic are modelled: the range label, the colour and `formatFees`.
- `trimNum`, `toFixed(2)`, `feePct` and `parseFloat`: floating-point rendering is a parameter (`trimNum`) or left out.
- Positions.HumanAmount: the fee amount is the exact rational raw / 10^decimals, not the nearest IEEE double that `parseFloat(formatUnits(...))` gives, so rounding is not modelled.
- Positions.StepAt: assumes `pos.x || pos[i]` and `collectRes.x || collectRes[i]` read the same value. They are the named and the positional view of one ethers result.
- `String.prototype.toLowerCase` and `trim` are modelled on their ASCII and JS-whitespace behaviour. Full Unicode case mapping is not modelled.
- Report.BuildReport: `balanceOf(...).toNumber()` overflowing is not a separate case. It is a failed `balanceOf`, as the code catches both in one place.
- Report.BuildReport: the final `main().catch` handler is not modelled. Failure messages are taken to be non-empty (`Base.Message`). `(e && e.message) || String(e)` is non-empty for every `Error` object, since an empty message falls back to the error's name. A thrown empty string would give an empty message. Its placeholder, which has no `token0`, would then pass `if (p.error) continue` (uni/uniswappos.js:201), and `p.token0.toLowerCase()` (line 203) would throw a TypeError. The run would end in `main().catch` (lines 408-411), printing `UNI $: 0.00`, `---` and the TypeError's message. The model does not represent that case.
- Report.BuildReport: the chain is one snapshot for the whole run. `getPool`, `slot0`, `symbol` and `decimals` give one fixed answer per argument, so the model cannot show a transient failure followed by a success, or a tick that moves between two reads of the same pool. The cache results (`Tokens.GetTokenMeta`, `Range.IsInRange`, `Valuation.Valuate`, `Report.BuildReport`) rest on this.
- Prices, USD values and `totalUsd` are exact reals, not IEEE doubles. `Valuation.SumKnownOrder` (the total does not depend on the order of the positions) holds in the model; in the script the double-precision sum can differ in its last bits from one order to another.
- Concurrency: `await` is modelled as sequential evaluation, which is what the script's single `main` does.
- The shared dictionaries `tokenMetaCache` and `poolTickCache`, and the arrays `positions` and `tokenAddrSet`, are values passed into and out of the loop methods. Aliasing of the JS objects is not modelled, because only `main` holds references to them.
