# ONYX "Completed" page: event-log formatter

This project models the one piece of local logic in the ONYX dApp's
`Completed` page: the callback that `getEvents` passes to `event.get`. It
receives the `Validated` event logs of the engineer's account, reverses them so
the newest comes first, and turns each log into a display row
`{headers: [name, "<value> ETH"], vals: [{contract}, {requester}, {validator}, {deadline}, {value}]}`.
Along the way it shortens the three addresses, strips the zero padding from the
hex-encoded `bytes32` name, decodes the name, and shortens the name when it is long.
Then it replaces the component's `tableData` with the result in a single `setState`.

Modules:

- `Seqs`: `Reverse` and `Map`, the value counterparts of `Array.prototype.reverse` and `map`.
- `JsStrings`: `SliceTo`, which is `String.prototype.slice(0, n)`.
- `Names`: the trailing-zero strip `replace(/0+$/g, "")`, the hex form of a `bytes32` name, and a whole-byte strip.
- `Formatter`: the log, six-slot array and row datatypes, the per-field rewrites, the whole pipeline `FormatLogs`, and `Describes`. `Describes` is an independent specification of a row, and it is proved to determine the row uniquely.
- `Completed`: the component state and the update the callback makes.

The three library conversions, plus `BigNumber.toNumber` which feeds two of
them, are the four fields of a `Library` datatype holding arbitrary total
functions. Every result holds for all of them. They are `BigNumber.toNumber`,
`moment(n).format(pattern)`, `web3.fromWei` and `web3.toAscii`.

In two places the code does something a reader might not expect, and the model follows the code:

- The formatter does not keep the chain's order. The logs are reversed first (line 105), so row `i` comes from log `n - 1 - i`.
- The ellipsis is appended to every address, not only to those longer than 20 characters (lines 118-120). `ShortAddressStillElided` shows this.

## Model

| member | source | states |
|---|---|---|
| Seqs.Reverse | dapp/src/containers/Completed.js:105 | the reversed array has the same length, and position `i` holds the element from position `n - 1 - i` |
| Seqs.ReverseInvolutive | dapp/src/containers/Completed.js:105 | reversing twice restores the original order |
| Seqs.Map | dapp/src/containers/Completed.js:107-117 | `map` gives exactly one output per input, each at the input's position |
| JsStrings.SliceTo | dapp/src/containers/Completed.js:118-123 | `slice(0, n)` is a prefix of its input of length `min(n, length)` |
| Names.StripTrailingZeros | dapp/src/containers/Completed.js:121 | the strip yields a prefix of the raw name that does not end in `'0'`, and only `'0'`s follow it in the input |
| Names.ZeroStrippedUnique | dapp/src/containers/Completed.js:121 | exactly one string meets that description, so it fully specifies the regex replace |
| Names.StripTrailingZerosIdempotent | dapp/src/containers/Completed.js:121 | stripping twice equals stripping once |
| Names.StripIgnoresZeroSuffix | dapp/src/containers/Completed.js:121 | any amount of extra zero padding strips to the same result |
| Names.StripAsWrittenKeepsLastByteIff | dapp/src/containers/Completed.js:121 | a padded name strips back to its exact hex if and only if its last byte has a non-zero low nibble; otherwise that nibble's digit is lost too, leaving an odd digit count |
| Names.NameEndingInLetterP | dapp/src/containers/Completed.js:121 | the name `"p"` (byte 0x70) padded to 32 bytes strips to `"0x7"` |
| Names.StripZeroBytes | dapp/src/containers/Completed.js:121 | the whole-byte strip yields a prefix of its input, followed only by `'0'` digits and an even number of them, that does not end in a `"00"` byte past the `"0x"` prefix |
| Names.StripZeroBytesRoundTrip | dapp/src/containers/Completed.js:121 | the whole-byte strip recovers the hex of any name whose last byte is non-zero, for any amount of padding |
| Formatter.TruncateAddress | dapp/src/containers/Completed.js:118-120 | an address field is its first `min(20, length)` characters followed by `"..."`, so its length is `min(20, length) + 3` |
| Formatter.ShortAddressStillElided | dapp/src/containers/Completed.js:118-120 | an address of 20 characters or fewer still gets `"..."` appended and is never shown unchanged |
| Formatter.ShortenName | dapp/src/containers/Completed.js:122-124 | a name of more than 23 characters becomes its first 20 plus `"..."` (length 23); a shorter one is unchanged |
| Formatter.ShortenNameIdempotent | dapp/src/containers/Completed.js:122-124 | shortening an already shortened name changes nothing |
| Formatter.ShortenNameFixedIff | dapp/src/containers/Completed.js:122-124 | a name is left unchanged if and only if it has at most 23 characters |
| Formatter.DecodeName | dapp/src/containers/Completed.js:121-124 | the shown name is the abbreviation of the decoded text of the zero-stripped raw name |
| Formatter.ToSlots | dapp/src/containers/Completed.js:107-116 | slots 0-3 carry `_contract`, `_name`, `_req` and `_val` unchanged; slot 4 is `moment(toNumber(_deadline)).format("MM/DD/YYYY hh:mm:ss A")` and slot 5 is `fromWei(toNumber(value), "ether")` |
| Formatter.ToRow | dapp/src/containers/Completed.js:117-133 | from the six slots it builds headers `[decoded name, slot 5 + " ETH"]` and five entries keyed contract, requester, validator, deadline, value. The addresses are elided, the name is abbreviated, the deadline slot is passed through, and the value entry equals `headers[1]` |
| Formatter.FormatLog | dapp/src/containers/Completed.js:107-133 | each record has headers `[name, value + " ETH"]` and exactly five entries keyed contract, requester, validator, deadline, value. The addresses are elided, the deadline is the date formatter's output for `_deadline`, and the value entry equals `headers[1]` |
| Formatter.FormatLogs | dapp/src/containers/Completed.js:105-133 | one row per log, nothing filtered, and row `i` is the record of log `n - 1 - i` |
| Formatter.DescribesUnique | dapp/src/containers/Completed.js:107-133 | at most one row meets the row specification for a given log |
| Formatter.FormatLogsCharacterized | dapp/src/containers/Completed.js:105-133 | a table is the formatter's output if and only if it has one row per log and row `i` meets the specification for log `n - 1 - i` |
| Formatter.FormatLogsOfReversed | dapp/src/containers/Completed.js:105-133 | formatting the logs in the opposite order yields the rows in the opposite order |
| Completed.OnEventsFetched | dapp/src/containers/Completed.js:104-135 | after a fetch, the provider and binding fields are unchanged. A failed fetch leaves `tableData` as it was; a successful one replaces it with one row per log, newest first |
| Completed.TableReplacedWholesale | dapp/src/containers/Completed.js:134 | the new table does not depend on the previous table |
| Completed.LastFetchWins | dapp/src/containers/Completed.js:134 | of two completed fetches, the later one alone decides the state |
| Completed.ErrorIgnored | dapp/src/containers/Completed.js:104-105 | the callback's `error` argument has no effect on the update |

## Findings

| source | as written | input that shows it | evidently intended | confidence | as-written member | corrected member |
|---|---|---|---|---|---|---|
| dapp/src/containers/Completed.js:121 | `replace(/0+$/g, "")` removes every trailing `'0'` hex digit, including the low nibble of the last name byte | the name `"p"`: `0x70` followed by 31 zero bytes strips to `"0x7"`, and `toAscii` then sees an odd-length string | remove whole zero bytes only, giving `"0x70"` | not executed; high, because names ending in a byte 0x10, 0x20, ... 0xf0 (for example `' '`, `'0'`, `'@'`, `'P'`, `'p'`) are all affected | Names.NameEndingInLetterP | Names.StripZeroBytesRoundTrip |

`Names.StripAsWrittenKeepsLastByteIff` gives the exact condition under which the
as-written strip goes wrong. `Formatter.FormatLogs` keeps the as-written strip,
because it models the page's behaviour. `Names.StripZeroBytes` is the corrected
strip, and it stands beside the as-written one.

## Left out

- Wallet/provider bootstrap and contract instantiation (`componentWillMount`, `instantiateContract`, lines 25-67): these are asynchronous calls into web3 and truffle-contract with no local logic. The `Handle` fields of the state stand for their results.
- The live `Validated` watch and the re-fetch it triggers (lines 57-62), and the query itself (lines 101-104: account lookup, `deployed()`, the filter from block 960000): these are network and event-loop plumbing. The model starts where `event.get` calls back. Fetches that overlap are modelled only as a sequence of completed callbacks (`LastFetchWins`).
- `handleDownload` and `handleValidate` (lines 69-98): these are fire-and-forget transactions, a `setTimeout` delay and browser navigation, all I/O.
- `render` (lines 140-148): React presentation only.
- dev/src/containers/Main.js: route declarations. Path matching happens inside react-router, which is not part of this model.
- The behaviour of `toNumber`, `moment().format`, `fromWei` and `toAscii`: these are foreign libraries, kept as arbitrary functions. `toNumber` yields a floating-point number; here it is an arbitrary function into `int`, so any precision loss is folded into it.
- `console.log(logs)` (line 106): a logging side effect that does not affect the table.
- Exceptions thrown inside the library calls: the conversions are total functions here. The only failure modelled is the missing `logs` array of a failed fetch.
- Formatter.ShortenName: a JavaScript string's length counts UTF-16 code units, while the model counts `char`s. The two agree for the single-byte characters `toAscii` produces.
