# Order-book depth ladder — a Dafny model

This project models the core of a small order-book viewer for one futures
market. An exchange sends order-book messages: a **snapshot** that replaces
both sides of the book, and **deltas** that change, add or remove price
levels. The viewer keeps, per side (asks and bids), a ladder of at most 8
`(price, size)` levels. It keeps both a `latest` book and a `previous`
book. After a snapshot both are the snapshot's book. After a delta,
`previous` is the book the delta replaced. Any other message leaves both
as they were. A page turns the latest
book into rows with running size totals. A separate trade feed keeps the
newest price of the latest event and of the event before it (the first
event's second trade at first), so the page can show whether the price went
up or down. Small helpers add and multiply decimal values, and put thousands
separators into numbers.

Modules, one per source file (plus two of shared definitions):

- `Ladder` (`ladder.dfy`): levels and ladders, `Object.fromEntries` as
  `FromEntries`, a change batch folded into a price-keyed dictionary
  (`Apply`, `Merge`), and `Listing`, the unique strictly descending
  listing of a dictionary that the engine's sort produces.
- `TradeInfoList` (`trade_info_list.dfy`): the reconciliation engine of
  `useTradeInfoList`. The class `OrderBook` has the fields `latest` and
  `previous` and the methods `ApplySnapshot`, `ApplyDelta` and `OnMessage`.
  Each method is proved against a specification function (`SnapshotBook`,
  `DeltaBook`, `Step`) whose properties are proved as lemmas. The method
  `ApplyChanges` does one side of a delta with a loop over the batch that
  updates a `map`, then sorts and cuts to 8 levels.
- `Display` (`display.dfy`): `calculateTotal` (a loop with a running
  total), the projection of the book onto rendered rows, the page's own
  snapshot handler, and the higher/equal/lower flags of the last price.
- `LastPrice` (`last_price.dfy`): the two-slot `previous`/`latest`
  trade-price tracker of `useLastPrice`.
- `NumberUtil` (`number_util.dfy`): `numAdd`, `numMultiply` and
  `numberWithThousandSeparator`.
- `Wrappers` (`wrappers.dfy`): `Option`, standing for `undefined`.

Prices and sizes are exact `real` values that have already been parsed
from the wire's decimal strings. The depth of 8 is the constant
`Ladder.Depth`.

Notes on what the code does:

- The hook and the page pass `previous` through unchanged. Nothing
  computes per-level change flags from it.
- A snapshot is stored as received, neither sorted nor filtered for zero
  sizes, nor deduplicated: the first delta keeps each price's last entry
  (`FromEntriesAt`). Every delta leaves each side strictly descending
  (`DeltaSideShape`). If the book a delta merged had no size-0 level,
  neither does the result (`DeltaSideNoZero`); a batch can also replace a
  stored size 0 by giving that price a nonzero size. A price the batch does
  not mention keeps the size of its last entry in the old side (a size 0
  included), unless 8 higher prices push it out (`DeltaSideAt`).
- The ask rows keep the shown ladder's stored order (highest first after any delta), and each row's total sums the sizes from that row to the last shown ask. So the topmost row carries the full sum, and the last row carries only its own size. After a snapshot whose asks are 100 (size 2) then 101 (size 3), the rows are 100 with total 5, then 101 with total 3. `Display.ProjectAsks` states it that way.
- `numberWithThousandSeparator` is modelled as written, for any input text.

## Model

| member | source | states |
|---|---|---|
| `Ladder.Take` | components/hooks/useTradeInfoList.tsx:42-43 | `slice(0, n)`: the first `n` elements, or all of them when there are fewer |
| `Ladder.FromEntries` | components/hooks/useTradeInfoList.tsx:53-54 | `Object.fromEntries` of a ladder has exactly the ladder's prices as keys |
| `Ladder.FromEntriesLast` | components/hooks/useTradeInfoList.tsx:53-54 | `FromEntriesAt` for every key of the dictionary at once |
| `Ladder.FromEntriesAt` | components/hooks/useTradeInfoList.tsx:53-54 | each key keeps the size of the last ladder entry with that price (later entries overwrite earlier ones) |
| `Ladder.FromEntriesOfDescending` | components/hooks/useTradeInfoList.tsx:53-54 | a ladder that is already strictly descending is exactly the listing of its own dictionary |
| `Ladder.LastFor` | components/hooks/useTradeInfoList.tsx:56-70 | the size of the last entry for a price is absent exactly when the price does not occur; otherwise it comes from an entry with no later entry for that price |
| `Ladder.Apply` | components/hooks/useTradeInfoList.tsx:57-61 | one change: size 0 removes the price, any other size stores it; every other price keeps its entry |
| `Ladder.Merge` | components/hooks/useTradeInfoList.tsx:56-70 | the batch folded in order; it only holds prices of the old dictionary or of the batch (per-price outcome in `MergeAt`) |
| `Ladder.MergeAt` | components/hooks/useTradeInfoList.tsx:56-70 | after the batch is folded in order, the last change for a price decides it: size 0 removes it (a no-op if it was absent), any other size inserts or overwrites; prices the batch does not mention keep their old entry |
| `Ladder.MergeNoNewZero` | components/hooks/useTradeInfoList.tsx:56-70 | the fold never stores a size 0 that the old dictionary did not already hold |
| `Ladder.InsertCorrect` | components/hooks/useTradeInfoList.tsx:72-81 | inserting a level with a new price into a strictly descending ladder keeps it strictly descending and adds exactly that level |
| `Ladder.Listing` | components/hooks/useTradeInfoList.tsx:72-81 | the entries of a dictionary sorted by descending price: strictly descending, and holding exactly the dictionary's entries |
| `Ladder.ListingUnique` | components/hooks/useTradeInfoList.tsx:72-81 | a dictionary has exactly one listing, so the sort's result does not depend on the order in which the entries are enumerated |
| `TradeInfoList.SnapshotBook` | components/hooks/useTradeInfoList.tsx:41-47 | a snapshot keeps the first 8 levels of each side in received order, without sorting or filtering |
| `TradeInfoList.DeltaSide` | components/hooks/useTradeInfoList.tsx:53-81 | one side after a delta (dictionary, fold, sort, cut to 8) has at most 8 levels; shape and per-price outcome in `DeltaSideShape` and `DeltaSideAt` |
| `TradeInfoList.DeltaBook` | components/hooks/useTradeInfoList.tsx:53-90 | the delta's new `latest`, each side computed from that side alone, within depth |
| `TradeInfoList.Run` | components/hooks/useTradeInfoList.tsx:104-112 | messages processed in arrival order; a stream keeps both books within depth when it starts from books within depth |
| `TradeInfoList.Step` | components/hooks/useTradeInfoList.tsx:104-112 | a snapshot sets `latest` and `previous` to the same book; a delta moves the old `latest` to `previous` and computes the new `latest` from the old `latest` and the batch; a message without `data`, or whose type is neither, changes nothing |
| `TradeInfoList.ListingIs` | components/hooks/useTradeInfoList.tsx:72-81 | any strictly descending ladder holding exactly a dictionary's entries is the sorted result |
| `TradeInfoList.DeltaSideShape` | components/hooks/useTradeInfoList.tsx:72-81 | after a delta a side is strictly descending (no repeated price), has at most 8 levels, holds only merged entries, and every merged price left out ranks below all 8 kept ones |
| `TradeInfoList.DeltaSideAt` | components/hooks/useTradeInfoList.tsx:56-81 | per price: a last change of size 0 leaves it off the side; a nonzero last change puts it on with that size unless 8 better prices push it out; an unmentioned price keeps its old size under the same rule; no price is invented |
| `TradeInfoList.DeltaSideNoChanges` | components/hooks/useTradeInfoList.tsx:53-81 | a delta with no changes for a side leaves it unchanged when it is already strictly descending and within depth |
| `TradeInfoList.DeltaSideNoZero` | components/hooks/useTradeInfoList.tsx:56-70 | if the old side had no size-0 level, neither does the new one |
| `TradeInfoList.ReachableBounded` | components/hooks/useTradeInfoList.tsx:41-90 | from the initial state, every message stream keeps at most 8 levels per side in both `latest` and `previous` |
| `TradeInfoList.RunLag` | components/hooks/useTradeInfoList.tsx:87-90 | after a delta `previous` is the `latest` of the preceding state; after a snapshot `previous` equals `latest` |
| `TradeInfoList.ExampleAsksResorted` | components/hooks/useTradeInfoList.tsx:72-76 | a delta without ask changes re-sorts snapshot asks 100/2, 101/3 into 101/3, 100/2 |
| `TradeInfoList.ExampleBidOverwritten` | components/hooks/useTradeInfoList.tsx:64-81 | bid 99/5 with change 99/7 becomes 99/7 |
| `TradeInfoList.ExampleBidRemoved` | components/hooks/useTradeInfoList.tsx:64-81 | bid 99/7 with change 99/0 becomes empty |
| `TradeInfoList.ExampleStream` | components/hooks/useTradeInfoList.tsx:41-90 | snapshot, update, removal: the state after each message, with `previous` lagging by one message |
| `TradeInfoList.SortedEntries` | components/hooks/useTradeInfoList.tsx:72-75 | `Object.entries` sorted by descending price, with entries taken in any order: the result is the dictionary's listing |
| `TradeInfoList.ApplyChanges` | components/hooks/useTradeInfoList.tsx:53-81 | one side of a delta (dictionary from the old side, loop over the batch, sort, cut to 8) computes `DeltaSide` |
| `TradeInfoList.OrderBook.constructor` | components/hooks/useTradeInfoList.tsx:30-39 | both books start with empty sides |
| `TradeInfoList.OrderBook.ApplySnapshot` | components/hooks/useTradeInfoList.tsx:41-49 | `latest` becomes the snapshot book and `previous` the identical value |
| `TradeInfoList.OrderBook.ApplyDelta` | components/hooks/useTradeInfoList.tsx:51-92 | `previous` becomes exactly the old `latest`; `latest` becomes the merged book, each side computed from that side alone |
| `TradeInfoList.OrderBook.OnMessage` | components/hooks/useTradeInfoList.tsx:104-112 | the new state is `Step` of the old state and the message |
| `Display.Totals` | app/page.tsx:48-56 | one row per level |
| `Display.TotalsAt` | app/page.tsx:51-54 | row `i` keeps level `i`'s price and size, and its total is the exact sum of sizes `0..i` |
| `Display.TotalsNondecreasing` | app/page.tsx:53 | with non-negative sizes the totals never decrease |
| `Display.CalculateTotal` | app/page.tsx:48-56 | the running-total loop keeps length, prices and sizes in order, gives prefix-sum totals, and its last total is the sum of all sizes |
| `Display.ReverseCons` | app/page.tsx:103 | `.reverse()` of a non-empty list is the reversed tail followed by the head |
| `Display.Project` | app/page.tsx:99-115 | `formattedDisplayTradeInfoList`: at most 8 rows per side, one per shown level, and `previous` passed through; row contents in `ProjectBids` and `ProjectAsks` |
| `Display.ProjectBids` | app/page.tsx:104-113 | bid rows are the first 8 bids in stored order with prefix-sum totals, the last row carrying the full sum; `previous` is passed through unchanged |
| `Display.ProjectAsks` | app/page.tsx:100-110 | ask rows are the first 8 asks in stored order, row `i` carrying the sum of sizes from `i` to the last shown ask, so the first row carries the full sum |
| `Display.ProjectExample` | app/page.tsx:99-115 | bids 99/5, 98/3 give totals 5, 8; asks 101/3, 100/2 give totals 5, 2 |
| `Display.PageSnapshot` | app/page.tsx:64-71 | the page's snapshot stores every snapshot price, with the size of its last entry, and `latest` equals `previous` |
| `Display.Flags` | app/page.tsx:120-126 | with both prices set exactly one of higher/equal/lower holds; with either unset none does (`NaN` comparisons) |
| `Display.ArrowOf` | app/page.tsx:177-183 | an arrow exactly when a latest price is set and not equal; up only when higher, down only when not higher |
| `Display.ArrowShown` | app/page.tsx:177-183 | the arrow shows exactly when `latest` is set and `previous` is unset or different; it points up exactly when both are set and `latest` is above `previous`, so with `previous` unset it points down |
| `LastPrice.InitialUpdate` | components/hooks/useLastPrice.tsx:19-25 | initially both slots are unset; an event without `data` keeps them so, and the first event with trades sets `latest` to its first trade and `previous` to its second |
| `LastPrice.Update` | components/hooks/useLastPrice.tsx:39-43 | `latest` is set exactly when the event has `data`, to its first trade; once `previous` is set it takes the old `latest`; while unset it takes the event's second trade, or stays unset without `data` |
| `LastPrice.Feed` | components/hooks/useLastPrice.tsx:39-43 | starting from both slots unset, a stream of events that carry trades leaves both slots set |
| `LastPrice.FeedLag` | components/hooks/useLastPrice.tsx:39-43 | `latest` is the first trade of the last event; `previous` is the second trade after the first event, and the first trade of the event before the last one afterwards |
| `NumberUtil.ValueOf` | utils/numberUtil.ts:23 | the `num` operand or 0 (a logical or): the value is 0 exactly when the argument is falsy or zero, and the argument's value otherwise |
| `NumberUtil.NumAdd` | utils/numberUtil.ts:22-26 | the exact sum of the arguments, falsy ones as 0; non-negative when every value is (additivity in `NumAddAppend`) |
| `NumberUtil.NumAddAppend` | utils/numberUtil.ts:22-26 | the sum over a concatenation of argument lists is the sum of their sums (the empty sum is 0) |
| `NumberUtil.NumAddIgnoresFalsy` | utils/numberUtil.ts:23 | a falsy argument adds nothing |
| `NumberUtil.NumMultiply` | utils/numberUtil.ts:31-38 | the loop computes the product of the arguments' values, starting from 1 |
| `NumberUtil.ProductZero` | utils/numberUtil.ts:31-38 | the product is 1 for no arguments, and 0 exactly when some argument is falsy or zero |
| `NumberUtil.DigitRunMaximal` | utils/numberUtil.ts:51 | the digit run counted from an index is maximal: digits throughout, and a non-digit or the end right after it |
| `NumberUtil.StripCommas` | utils/numberUtil.ts:51 | removing the commas leaves no comma |
| `NumberUtil.InsertSeparators` | utils/numberUtil.ts:51 | the regular-expression replacement only adds characters; its grouping is stated by `InsertSeparatorsChunked`, `InsertSeparatorsGroups` and `InsertSeparatorsStrip` |
| `NumberUtil.InsertSeparatorsStrip` | utils/numberUtil.ts:51 | removing the commas from the grouped text gives back the input (for input without commas) |
| `NumberUtil.InsertSeparatorsShort` | utils/numberUtil.ts:51 | a text of at most 3 characters is unchanged |
| `NumberUtil.InsertSeparatorsNoDot` | utils/numberUtil.ts:51 | grouping never adds a `.` |
| `NumberUtil.SeparatorAt` | utils/numberUtil.ts:51 | a comma can go only before a digit preceded by a word character, and only where the digit run from there has a length divisible by 3 |
| `NumberUtil.SeparatorInDigits` | utils/numberUtil.ts:51 | in a digit string a comma goes before index `i` exactly when `i > 0` and a positive multiple of 3 digits follows |
| `NumberUtil.InsertSeparatorsChunked` | utils/numberUtil.ts:51 | for a digit string the regular-expression replacement agrees with grouping by threes from the right |
| `NumberUtil.InsertSeparatorsGroups` | utils/numberUtil.ts:51 | a non-empty digit string is grouped as 1 to 3 digits, then groups of exactly 3 digits each after a comma, with no comma at either end |
| `NumberUtil.BeforeDot` | utils/numberUtil.ts:50 | the first field of `split('.')`: the longest prefix without a `.` |
| `NumberUtil.SecondField` | utils/numberUtil.ts:50 | the second field of `split('.')`: absent exactly when the text has no `.`; otherwise the dot-free text that starts right after the first `.` and ends at the next `.` or at the end |
| `NumberUtil.NumberWithThousandSeparator` | utils/numberUtil.ts:49-53 | the result starts with the grouped integer part, and anything after it starts with `.`; the fraction cases in `FractionKept`, `NoDotNoFraction` and `EmptyFractionDropped` |
| `NumberUtil.FractionKept` | utils/numberUtil.ts:50-52 | the text between the first and the second `.` is kept verbatim after a single `.`; anything after a second `.` is dropped |
| `NumberUtil.NoDotNoFraction` | utils/numberUtil.ts:50-52 | without a `.` the result is the grouped input and holds no `.` |
| `NumberUtil.EmptyFractionDropped` | utils/numberUtil.ts:50-52 | with an empty fraction (`"1234."`) the result is the grouped integer part and holds no `.` |

## Left out

- WebSocket connections, subscribe and unsubscribe messages, and teardown: these are network I/O. A message reaches the model already parsed.
- React state, memoisation, effects and rendering. State changes are modelled directly: as the `OrderBook` class for the engine, and as functions on a state value for the page and the price tracker. Because `Display.Project` is a function, two calls on the same state give the same rows.
- `SafeJSON`: when it cannot parse a payload it returns `{}`, which the model represents as a message without `data`.
- Parsing with `Number(...)` and floating-point arithmetic: prices and sizes are exact reals. So the model does not capture rounding in `calculateTotal`, `NaN` from malformed strings, or two spellings of one price (`"100"` and `"100.0"`) being separate dictionary keys.
- The order in which `Object.entries` yields keys (engine-specific): `SortedEntries` takes them in an arbitrary order, and `ListingUnique` shows the sorted result does not depend on it. Likewise, the page's `Record` ladders are not enumerated: the projection is applied to the engine's sequence ladders.
- The page's own `onmessage` handler (app/page.tsx:83-88) is left out. It handles only snapshots and reads `data.type` without optional chaining; it is connection plumbing around `PageSnapshot`.
- `prevSeqNum`, `seqNum`, `timestamp` and `symbol` are carried in the messages but never read, so they are not modelled.
- Trade fields other than `price` are not modelled, because the tracker reads none of them.
- `LastPrice.Update`: its precondition excludes events whose `data` has no trade, or only one trade while `previous` is unset. The source throws a `TypeError` on these, so they have no result to model.
- `toAmount` and `numDivide` are left out. They are wrappers over decimal.js division, rounding and rendering.
- `NumAdd`, `NumMultiply`: `Decimal.set` (utils/numberUtil.ts:12-16) sets a precision of 70 significant digits, so decimal.js rounds each sum and product to 70 digits. The model's exact reals do not capture this rounding, nor the exponent thresholds for rendering.
- `NumAdd` and `NumMultiply` return the exact value, not its decimal.js `toString()` text.
- `NumAdd` takes the empty sum to be 0. decimal.js's `Decimal.sum` is not part of this model, so the model does not capture what that call does with no arguments.
- The rendering of `latest` as `"--"` when it is falsy (including 0) is left out, as it is display text.
