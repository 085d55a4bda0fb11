# Wallet dashboard amounts and fetchers, in Dafny

This project models `src/composable/useWallet.ts` of the Wallet Dashboard. That Vue composable looks up one Ethereum address. It keeps the address, the ether balance, the transaction table, the token holdings, a `loading` flag and an `error` message as state.

The model has six modules:

- `Wrappers` (`wrappers.dfy`) holds the `Option` type used for fields that may be missing, with `GetOr` for `?? fallback`.
- `DecimalText` (`decimal.dfy`) covers digit strings as JavaScript handles them:
  - `BigInt(...)` on decimal input, as `Parse`;
  - `toString()` of a non-negative integer, as `NatToString`;
  - `padStart`, `slice(0, k)`, and `replace(/0+$/, '')`;
  - the value of a digit string.
- `Units` (`units.dfy`) covers the two amount converters:
  - `weiToEthString` with exponent 18;
  - `tokenBalanceToString` with exponent `decimals`.

  Both use one algorithm, `Format`. `ReadDecimal` reads a display string back into base units, so the converters' promises can be stated as arithmetic.
- `Transactions` (`transactions.dfy`) covers `mapEtherscanTxsToTable`. The current address is a parameter. The locale formatting of a timestamp is a function parameter.
- `Tokens` (`tokens.dfy`) covers the item mapping of `fetchTokens`. It includes the JavaScript `contract_decimals ?? contract_decimals === 0 ? contract_decimals : 18` expression, over a small model of JavaScript values.
- `Wallet` (`wallet.dfy`) covers the composable's state as a class `WalletState`. `setAddress`, `fetchBalance`, `fetchTxs`, `fetchTokens` and `fetchAll` are methods on it. Each HTTP exchange is an input: the response that arrived, or the error it failed with.

The central property, `Units.FormatReadBack`, concerns n base units shown with exponent e:

- Read the display string back in units of 10^-e.
- The result is exactly n rounded down to a multiple of 10^(e-k).
- Here k is the number of fractional digits `slice(0, precision)` keeps.

So the converters truncate and never round. `Units.FormatShape` adds that the output is always canonical:

- The whole part has no leading zeros.
- A point appears only with a fraction.
- A fraction never ends in `0`.

Line 97 has an operator-precedence quirk. `===` binds tighter than `??`, and `?:` binds looser than both, so `it.contract_decimals ?? it.contract_decimals === 0 ? it.contract_decimals : 18` parses as `(d ?? (d === 0)) ? d : 18`. The `d === 0` test can never change the result. When `d` is nullish that test is false, and otherwise `??` does not evaluate it. So the expression is `Number(d || 18)`, and an explicit `contract_decimals` of 0 becomes 18, like a missing one. The model follows the code (`Tokens.SelectDecimals`, `Tokens.SelectDecimalsIsOr`, `Tokens.ExampleZeroDecimals`).

## Model

| member | source | states |
|---|---|---|
| `DecimalText.ParseNatToString` | src/composable/useWallet.ts:28-32 | `BigInt` reading the numeral that `toString()` writes gives back the same number |
| `DecimalText.PadStartShape` | src/composable/useWallet.ts:35 | `padStart` keeps the string as its suffix and puts only fill characters in front |
| `DecimalText.StripShape` | src/composable/useWallet.ts:38 | `replace(/0+$/, '')` removes only trailing zeros, and no `0` is left at the end |
| `DecimalText.DigitsUnique` | src/composable/useWallet.ts:35 | two digit strings of one length with the same value are the same string, so the padded remainder is determined by its value |
| `Units.FormatReadBack` | src/composable/useWallet.ts:28-41 | the display read back in units of 10^-e is n truncated to a multiple of 10^(e-k) |
| `Units.ReadFormat` | src/composable/useWallet.ts:32-41 | the display reads back as the whole part (n / 10^e) * 10^e plus the truncated remainder |
| `Units.TruncateSplit` | src/composable/useWallet.ts:32-35 | truncating the remainder n % 10^e is truncating n |
| `Units.FractionValue` | src/composable/useWallet.ts:35-38 | the fraction digits are at most k digits, and scaled back they give the remainder truncated to a multiple of 10^(e-k) |
| `Units.FractionEmpty` | src/composable/useWallet.ts:38-41 | a fraction, and so a point, appears exactly when the remainder is at least 10^(e-k) |
| `Units.FormatShape` | src/composable/useWallet.ts:40-41 | the output is canonical, starts with the numeral of n / 10^e, and has a point exactly when the fraction is non-empty |
| `Units.FormatDigits` | src/composable/useWallet.ts:31-41 | on digits: the numeral of q followed by e digits f shows q, then the first `precision` digits of f with trailing zeros removed; the input parses as q·10^e + value(f) |
| `Units.WeiToEthReadBack` | src/composable/useWallet.ts:25-41 | a wei string worth n shows n truncated to `precision` fractional digits of ether |
| `Units.WeiToEthTruncates` | src/composable/useWallet.ts:31-38 | for 0 <= precision <= 18, the value r shown satisfies r <= n < r + 10^(18-precision), and r is a multiple of it |
| `Units.WeiToEthShape` | src/composable/useWallet.ts:25-45 | the output is canonical; unparsable input gives "0"; the output starts with the numeral of n / 10^18 |
| `Units.WeiToEthDigits` | src/composable/useWallet.ts:31-41 | the digits before the last 18 are the whole part, and the first `precision` of the last 18, without trailing zeros, are the fraction |
| `Units.WeiToEthDocExample` | src/composable/useWallet.ts:23 | 1234560000000000000 wei is "1.23456" |
| `Units.WeiToEthOneEther` | src/composable/useWallet.ts:23 | 10^18 wei is "1" |
| `Units.WeiToEthBelowUnit` | src/composable/useWallet.ts:35-41 | any amount below 10^12 wei shows as "0" at the default precision of 6 |
| `Units.WeiToEthDust` | src/composable/useWallet.ts:35-41 | 123 wei shows as "0" |
| `Units.WeiToEthZero` | src/composable/useWallet.ts:42-45 | "0" and "" give "0", and "invalid", which `BigInt` rejects, falls back to "0" |
| `Units.TokenAt18IsWei` | src/composable/useWallet.ts:73-84 | with 18 decimals the token converter equals the wei converter on every input |
| `Units.EmptyBalanceIsZero` | src/composable/useWallet.ts:75 | reading an empty balance as "0" reads the same number as `BigInt('')` |
| `Units.TokenReadBack` | src/composable/useWallet.ts:75-80 | a balance worth n with integer decimals e shows n truncated to `precision` fractional digits |
| `Units.TokenIntegerOnly` | src/composable/useWallet.ts:77-80 | with 0 decimals or precision 0, the output is exactly the numeral of n / 10^e |
| `Units.TokenFallback` | src/composable/useWallet.ts:75-83 | an unparsable balance, or negative or fractional decimals, gives "0" |
| `Units.TokenHalf` | src/composable/useWallet.ts:78-80 | 50 units at 2 decimals show as "0.5"; the trailing zero is stripped |
| `Units.TokenCutNotRounded` | src/composable/useWallet.ts:78 | 1239 units at 3 decimals and precision 2 show as "1.23", cut rather than rounded |
| `Units.TokenEmptyBalance` | src/composable/useWallet.ts:75 | an empty balance shows as "0" |
| `Units.TokenBadDecimals` | src/composable/useWallet.ts:76 | decimals 1.5 or -1 make `10n ** BigInt(decimals)` throw, so the output is "0" |
| `Transactions.LowerEqual` | src/composable/useWallet.ts:51-55 | comparing lowercased strings is exactly case-insensitive equality, character by character |
| `Transactions.LowerShape` | src/composable/useWallet.ts:51-53 | lowercasing leaves no uppercase letter, changes each character only by case, and is idempotent |
| `Transactions.DirectionSpec` | src/composable/useWallet.ts:51-56 | a row is Outgoing if and only if `from` is present, non-empty, and equal to the current address up to case |
| `Transactions.TypeTextSpec` | src/composable/useWallet.ts:55-56 | the `type` text is "Outgoing" if and only if `from` is non-empty and equal to the current address up to case, and "Incoming" otherwise |
| `Transactions.CounterpartySpec` | src/composable/useWallet.ts:57 | `object` is the record's `to`, as written, on an outgoing row, and its `from` otherwise |
| `Transactions.AmountSpec` | src/composable/useWallet.ts:58 | the amount is a canonical number followed by " ETH"; it reads back as the value truncated to 10^12 wei; an unreadable value is "0 ETH" |
| `Transactions.AmountMissing` | src/composable/useWallet.ts:58 | a missing or empty value gives "0 ETH" |
| `Transactions.TimeSpec` | src/composable/useWallet.ts:59 | time is the locale timestamp when `timeStamp` is non-empty, else "block N" when `blockNumber` is non-empty, else "" |
| `Transactions.MapTxsPointwise` | src/composable/useWallet.ts:49-69 | row i is the row of record i; it keeps that record's `hash` and has the record itself as `raw` |
| `Transactions.MapTxsAppend` | src/composable/useWallet.ts:50 | mapping a concatenation concatenates the mapped parts, so order is kept |
| `Transactions.MapTxsRaw` | src/composable/useWallet.ts:67 | the records can be recovered from the rows' `raw` fields |
| `Transactions.ExampleOutgoing` | src/composable/useWallet.ts:49-69 | a record from "0xAbC", seen from "0xabc", is an outgoing "1 ETH" row to "0xDeF" at "block 17" |
| `Transactions.ExampleEmpty` | src/composable/useWallet.ts:49-69 | an empty record is an incoming row with no counterparty, "0 ETH" and an empty time |
| `Tokens.SelectDecimals` | src/composable/useWallet.ts:97 | absent, null, 0 and false give 18; any other number gives itself and true gives 1; the result is never 0 |
| `Tokens.SelectDecimalsIsOr` | src/composable/useWallet.ts:97 | the selected decimals are `Number(d)` for a truthy d and 18 otherwise: the `d === 0` test never decides the result |
| `Tokens.HoldingsOf` | src/composable/useWallet.ts:94-95 | a list of items gives one holding per item; absent items, or a non-list on which `.map` throws, give [] |
| `Tokens.MapItemsPointwise` | src/composable/useWallet.ts:95-105 | holding i is the holding of item i, with its contract address, name and symbol |
| `Tokens.HoldingBalance` | src/composable/useWallet.ts:96 | a missing balance becomes "0", and a present one, even "", is kept |
| `Tokens.HoldingNeverZeroDecimals` | src/composable/useWallet.ts:97 | no holding has 0 decimals |
| `Tokens.HoldingDefaultsTo18` | src/composable/useWallet.ts:97-104 | missing, null or 0 decimals make `formatted` the wei converter's output on the balance |
| `Tokens.HoldingFormatted` | src/composable/useWallet.ts:104 | with e > 0 decimals, `formatted` reads back as the balance truncated to 6 fractional digits of the token |
| `Tokens.HoldingBadBalance` | src/composable/useWallet.ts:104 | a balance `BigInt` rejects is formatted as "0" |
| `Tokens.ExampleZeroDecimals` | src/composable/useWallet.ts:97 | an item stating 0 decimals and holding 7 units gets 18 decimals and shows "0" |
| `Wallet.BalanceOf` | src/composable/useWallet.ts:139 | the stored balance is always canonical, and a missing or empty result gives "0" |
| `Wallet.BalanceReadBack` | src/composable/useWallet.ts:139 | a wei result worth n is stored as n truncated to 10^12 wei |
| `Wallet.WalletState.constructor` | src/composable/useWallet.ts:6-11 | the initial values: address "", balance "0", no transactions, no tokens, not loading, no error |
| `Wallet.WalletState.SetAddress` | src/composable/useWallet.ts:204 | only the address changes |
| `Wallet.WalletState.FetchBalance` | src/composable/useWallet.ts:121-148 | empty address: balance "0", and `loading` and `error` untouched. Otherwise `loading` ends false. Success stores the converted balance and clears the error. Failure stores "0" and the error text. The balance stays canonical, and nothing else changes |
| `Wallet.WalletState.FetchTxs` | src/composable/useWallet.ts:154-178 | empty address: [] with `loading` untouched. Otherwise `loading` ends false. A list result is mapped from the stored address, while a non-list result or a failure gives []. `error` and the other fields are untouched |
| `Wallet.WalletState.FetchTokens` | src/composable/useWallet.ts:86-113 | empty address: [] with `loading` untouched. Otherwise `loading` ends false. A response gives its holdings, and a failure gives []. `error` and the other fields are untouched |
| `Wallet.WalletState.FetchAll` | src/composable/useWallet.ts:184-186 | the balance and transaction outcomes combined, with `tokens` and the address untouched |

## Left out

- The network calls are not modelled: `axios.get`, the URLs, the query parameters, and the API keys read from the environment. Each response is an input.
- Vue's `ref` and `watch` plumbing is not modelled. The refs are plain fields. The automatic `fetchAll` after an address change is not modelled.
- Wallet.WalletState.FetchAll: it models the balance response arriving before the transaction list. `Promise.all` can interleave the two handlers in other orders. They write different fields and both clear `loading`, so only the intermediate states differ. Overlapping fetches and stale responses are not modelled.
- The locale date formatting of `timeStamp` is a function parameter, because it depends on the clock and the locale.
- `console.log` and `console.error` are not modelled, and neither are the unused `ethers` imports.
- `BigInt` accepts more input than the model's `Parse`: hexadecimal, binary and octal prefixes (`0x`, `0b`, `0o`), surrounding whitespace, and a sign. The converters take every string, and they show "0" whenever `Parse` fails. So `" 1000000000000000000"` is "1" in the program but "0" in the model, and so are `"+1000000000000000000"` and `"0xde0b6b3a7640000"`. A negative amount would make `%` produce odd digits. It is not modelled either.
- Lowercasing covers ASCII letters only. JavaScript's `toLowerCase` also folds other Unicode letters.
- JavaScript numbers are `real`. NaN, infinities and double rounding are not modelled. `contract_decimals` is undefined, null, a boolean or a number, but not a string or an object.
- Items or records that are themselves `null` are not modelled. Reading a field of one throws inside `.map`, and the handler stores []. Record fields are strings or missing.
- The `chainId` argument of `fetchTokens` only enters the URL and is not modelled.
- A fractional `precision` argument to the converters is not modelled. `slice` would truncate it toward zero.
- `BigInt` size limits are not modelled: integers are unbounded.
