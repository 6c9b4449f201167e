# snakeGame utilities in Dafny

This project models the parts of the snakeGame repository that contain logic:

- `formatNumber(n, pad, fill = '0')` prints `n` in base 10. It then puts copies of `fill` in front until the text is at least `pad` characters long.
- `contains(arr, predicat)` scans an array for an element that satisfies a predicate.
- `formatDateTime(date)` renders a date as `YYYY/MM/DD HH:mm`. It uses `formatNumber(_, 2)` for the month, day, hour and minute.
- `GameStorage` is an append-only list of game results. It mirrors that list into the browser's local storage under the key `snakeGame:gameResults`.

Each operation is paired with something independent that it is proved against:

- Number printing (`Decimal`) is paired with a parser, and both round trips are proved.
- The padding loop (`NumberFormat`) is paired with a closed form: the least number of fill copies that reaches `pad`.
- `contains` (`Search`) is paired with the existential "some element satisfies the predicate" and with the first matching index.
- Date formatting (`DateTime`) is paired with a parser that recovers every field.
- The storage (`GameStorageModel`) is paired with its sync invariant and with a fresh storage object reloaded from local storage.

Files: `optional.dfy` (`Maybe`), `decimal.dfy`, `number_format.dfy`, `search.dfy`, `date_time.dfy`, `game_storage.dfy`.

Modelling choices:

- `n` in `formatNumber` is a natural number. `Decimal.NatToString` prints its exact decimal digits, which is what `Number.prototype.toString(10)` prints for integers up to 2^53.
- `pad` is an integer. String lengths are JavaScript lengths (`NumberFormat.JsLength`): a character outside the Basic Multilingual Plane counts as two UTF-16 code units. A Dafny string holds Unicode scalar values only, so a JavaScript string with an unpaired surrogate (a fill such as `'\uD83D'`) is outside the model.
- The year is an integer printed with a leading `-` when negative (`Decimal.IntToString`).
- A `Date` is the five fields `formatDateTime` reads: `getFullYear`, `getMonth` (0-based), `getDate`, `getHours` and `getMinutes`.
- Search.Contains: the predicate is a total function without side effects. A predicate that throws, or one that changes `arr` during the scan, is not modelled. The source reads `arr.length` once (src/utils/contains.ts:2) but `arr[i]` on every step, and such a change would show there.
- Parsing a string into a `Date` is the host's job. It is a function parameter of `DateTime.FormatDateTime`.
- Arrays are immutable sequences.
- Local storage is a map from keys to stored result lists. `JSON.stringify` followed by `JSON.parse` is taken to give back the same list.
- The clock reading of `new Date()` in `saveResult` is a parameter.
- The `GameStorage` class is a value. `saveResult` returns the new object together with the new local storage. `getResults` is a pure read, so it cannot change any state.
- With an empty `fill` and a number shorter than `pad`, the loop in formatNumber.ts never ends. The precondition `|fill| > 0 || |str(n)| >= pad` excludes exactly that case.

## Model

| member | source | states |
|---|---|---|
| Decimal.NatToString | src/utils/formatNumber.ts:2 | the base-10 text of `n` is non-empty, made only of digits, and has no leading zero unless it is "0" |
| Decimal.ParseNatToString | src/utils/formatNumber.ts:2 | reading the printed text of `n` back gives `n` |
| Decimal.NatToStringParse | src/utils/formatNumber.ts:2 | every canonical digit string is the printed text of the number it denotes, so printing is one-to-one onto canonical strings |
| Decimal.NatToStringLength | src/utils/formatNumber.ts:2-3 | the printed text of `n` has at most `k` characters exactly when `n < 10^k`; this decides whether padding happens |
| Decimal.IntToString | src/utils/formatDateTime.ts:11 | the printed year starts with '-' exactly when it is negative, and the rest is a canonical digit string |
| Decimal.ParseIntToString | src/utils/formatDateTime.ts:11 | reading the printed year back gives the year |
| NumberFormat.PadCountLeast | src/utils/formatNumber.ts:3-5 | the number of fill copies the loop adds is the least `k` with `len + k * width >= pad` |
| NumberFormat.PadLeft | src/utils/formatNumber.ts:3-5 | the padding loop, comparing JavaScript lengths (UTF-16 code units), yields exactly `PadCount` copies of the fill followed by the original text |
| NumberFormat.FormatNumber | src/utils/formatNumber.ts:1-8 | the result ends with the decimal text of `n` and is preceded by copies of `fill`; it is unchanged when already `pad` long; its JavaScript length (UTF-16 code units) is at least `pad`, below `pad` plus the fill's length when padding happened, and exactly the larger of `pad` and the length of str(n) for a fill of one code unit; `fill` defaults to "0" |
| NumberFormat.FormatNumberLoop | src/utils/formatNumber.ts:2-7 | the while loop as written terminates and returns what `FormatNumber` describes |
| NumberFormat.AstralFillExample | src/utils/formatNumber.ts:3-4 | a fill outside the Basic Multilingual Plane counts two towards the length: `formatNumber(5, 4, '\u{1F600}')` adds two copies |
| NumberFormat.TwoDigits | src/utils/formatDateTime.ts:11 | `formatNumber(v, 2)` with the default fill is exactly two digits denoting `v` for every `v < 100` |
| Search.FirstMatch | src/utils/contains.ts:2-5 | the first index whose element satisfies the predicate: every earlier element fails it, and there is none exactly when no element satisfies it |
| Search.Contains | src/utils/contains.ts:1-9 | the scan returns true iff some index `i` below the length of `arr` has `predicat(arr[i])`, and so false on an empty array; the same as having a first match |
| Search.FirstMatchIgnoresRest | src/utils/contains.ts:3-4 | the scan stops at the first match: replacing everything after it leaves the outcome unchanged |
| DateTime.DateArgumentUsedDirectly | src/utils/formatDateTime.ts:4-9 | a `Date` argument never reaches the string parser: with any two parsers the output is the same, the rendering of the date's own fields |
| DateTime.Format | src/utils/formatDateTime.ts:11 | the text starts with the printed year; for in-range fields it is 12 characters longer than the year, has '/', '/', ' ', ':' after the year at offsets 0, 3, 6 and 9, and the two-digit fields denote month index + 1, day, hour and minute |
| DateTime.FormatDateTime | src/utils/formatDateTime.ts:3-12 | for in-range fields the output is the printed year followed by `/MM/DD HH:mm`: 12 more characters with the separators at offsets 0, 3, 6 and 9 after the year, and parsing it back yields exactly the date's fields |
| DateTime.FourDigitYearLayout | src/utils/formatDateTime.ts:11 | with a four-digit year the text is 16 characters with '/' at 4 and 7, ' ' at 10 and ':' at 13 |
| DateTime.FormatRoundTrip | src/utils/formatDateTime.ts:11 | parsing the formatted text gives back every field of an in-range date |
| DateTime.FormatInjective | src/utils/formatDateTime.ts:11 | two in-range dates format to the same text exactly when they are the same date |
| GameStorageModel.ReloadLaw | src/GameStorage.ts:17-21 | when the persisted copy agrees with a list, constructing a storage object from local storage yields exactly that list |
| GameStorageModel.NewStartsEmpty | src/GameStorage.ts:15-21 | a new storage object has no results exactly when nothing is stored under the results key or the stored list is empty |
| GameStorageModel.SaveResult | src/GameStorage.ts:24-32 | the list grows by exactly one record; earlier records are unchanged; the new record holds the given result and the clock reading; the persisted copy equals the whole list; no other key of local storage changes |
| GameStorageModel.SaveAllAppends | src/GameStorage.ts:24-36 | after any series of saves, `getResults()` is the earlier list followed by one record per save, in save order |
| GameStorageModel.ReloadSeesSaves | src/GameStorage.ts:17-31 | after one or more saves, the list and the persisted copy agree, and a storage object constructed afresh sees the same list |
| GameStorageModel.SaveAllKeepsOtherKeys | src/GameStorage.ts:30-31 | a series of saves leaves every other local-storage key as it was |

## Left out

- NumberFormat.FormatNumber: `n` is a natural number. Negative, fractional and non-finite numbers are not modelled. Neither is the exponent notation `toString` uses from 10^21 upward, since the callers only pass small date fields.
- Decimal.NatToString: it prints exact digits. Above 2^53, `toString(10)` prints the shortest digits that identify the double, followed by zeros (`(2**64).toString(10)` is "18446744073709552000"). Fidelity is therefore limited to n <= 2^53, far above the date fields formatNumber is called with.
- NumberFormat.FormatNumber: `pad` is an integer. A fractional `pad` behaves in the source as its ceiling (`formatNumber(5, 2.5)` gives "005"), and a NaN `pad` never pads; neither is modelled.
- NumberFormat.FormatNumber: an empty `fill` with a short number makes the source loop forever. The precondition rules that input out instead of modelling the hang.
- Search.Contains: the predicate is a total function without side effects. A predicate that throws, or one that changes `arr` during the scan, is not modelled. The source reads `arr.length` once (src/utils/contains.ts:2) but `arr[i]` on every step, and such a change would show there.
- Parsing a string into a `Date` (src/utils/formatDateTime.ts:5-6) is a host API and is passed in as a function. An unparsable string gives an invalid date that prints `NaN` fields; this is not modelled.
- DateTime.FormatDateTime: its contract covers only dates whose fields lie in the host `Date` ranges. The host always produces such dates.
- `localStorage.getItem`/`setItem` and the JSON text format (src/GameStorage.ts:18-20, 30-31) are abstracted as a map holding the lists themselves. After a reload, `JSON.parse` returns record dates as strings rather than `Date` objects. formatDateTime accepts both, and the model does not distinguish them.
- The clock reading of `new Date()` (src/GameStorage.ts:26) is a parameter.
- Storage errors are not modelled: a quota failure in `setItem`, or malformed stored JSON making the constructor throw. Neither is an empty stored string, which `if (savedData)` would treat as absent and `JSON.stringify` never writes.
- `getResults` returns the internal array by reference, so a caller could mutate it. Values have no aliasing, so this is not modelled.
- src/main.ts only draws a fixed list of cells on a canvas. src/utils/domLib.ts only creates DOM elements. Both are rendering glue with no rules to state. The game engine the repository describes in prose (movement, collision, particles, levels, lives) has no source code, so it is not part of this model.
- webpack.config.js and jest.config.js are build configuration.
