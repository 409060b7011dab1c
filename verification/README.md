# Finance: the account ledger

A Dafny model of the bookkeeping inside the CS50 "finance" web application
(`finance/app.py`). Registered users deposit cash, buy and sell shares at
quoted prices, and view a portfolio and a trade history. The routes keep
their state in SQLite: a `users` table (username, password hash, cash) and
an append-only `stock` table with one row per trade. Each row holds
`user_id`, `symbol`, `name`, `shares_number`, `shares_price` and
`shares_cost`.

The model keeps both tables in one immutable value,
`Store.Ledger(users, rows, nextId)`. Each mutating route is a pure function
from a ledger to `Result<Ledger>`:

- `Finance.Deposit` models `/add`.
- `Finance.Buy` models `/buy`.
- `Finance.Sell` models `/sell`.
- `Finance.Register` models `/register`.

Each of these runs the route's checks in the route's order. The first check
that fails decides the error, and nothing is written. An accepted request
writes the new cash and, for a trade, appends exactly one row.

The two pages are pure queries:

- `Finance.Index` is the portfolio page `/`.
- `Store.History` is `/history`.

Because they are functions of the ledger, they change no state.

The SQL aggregates are written as folds over the trade log:

- `Store.Holding` is `SUM(shares_number)`.
- `Grouping.Groups` and `Grouping.Held` are `GROUP BY symbol HAVING ... > 0`.

`Runs.Run` applies any sequence of requests. A rejected request leaves the
ledger unchanged. The invariant `Store.Valid` holds across every sequence:

- no negative cash;
- no negative holding;
- unique usernames;
- well-formed trades owned by existing users.

Requests for one user never touch another user's account or history.

Choices made in the model:

- Money is exact, in whole cents. A quote price is a `nat` number of cents.
- A form field is a `string`. A missing field is the empty string; Flask's
  `form.get` returns `None` for it, and the route treats `None` and `""` the
  same way.
- The quote service (`lookup` in the `helpers` module) is a pure function
  parameter `Lookup = string -> Option<Quote>`. Each trade request in
  `Runs.Request` carries its own, so prices can move between requests.
- The password hash is a function parameter `hash`. The opening cash of a
  new account (a column default of the schema) is a parameter `openingCash`.
  The `helpers` module and the database schema are not part of this model.
- `Ledger.nextId` is the id SQLite gives the next inserted user. Users are
  never deleted, so this is one more than the largest id issued.
- Some source paths raise a Python exception instead of returning an
  apology. The generic error handler then answers, and nothing has been
  written yet. These paths are typed errors in the model:
  - `NoSuchUser`: indexing `[0]` of an empty cash query;
  - `QuoteFailed`: indexing `["price"]` of a `None` quote;
  - `NoHoldings`: comparing shares with the `NULL` sum of a symbol never traded.

The model follows the code, including where a reader might expect
otherwise:

- A deposit of 0 is accepted, because the code refuses only amounts `< 0`.
- A sale row's `shares_cost` is positive (`shares × price`), not the signed
  share count × price.
- `/sell` checks, in order: symbol present, shares present, shares all
  digits, the quote (an unknown symbol raises here), shares ≥ 1, any trades
  in the symbol, enough shares.
- A deposit writes no trade row, so deposits do not appear in the history.

## Model

| member | source | states |
|---|---|---|
| `Text.DigitsValue` | finance/app.py:139 | `int(shares)` of a digit string; a numeral of k digits is below 10^k |
| `Text.NatToDigits` | finance/app.py:132-139 | every count has a numeral that passes `isdigit()` and that `int()` reads back as that count; no leading zero except for 0 itself |
| `Text.ParseDecimal` | finance/app.py:84-87 | `float(amount)` on decimal notation: without a sign, or after a '+', the literal reads as its unsigned part; after a '-' it parses exactly when the unsigned part does, with the same scale and the negated mantissa |
| `Text.IsDigits` | finance/app.py:132 | `isdigit()` passes only non-empty text with no sign and no decimal point, so an accepted share count is a whole number that is not negative |
| `Text.ParseUnsigned` | finance/app.py:84-87 | a literal parses exactly when the part before the first point and the part after it are all digits and at least one digit is present; the scale is the number of places after the point (0 without a point); the mantissa is the number the digits spell once the point is removed |
| `Text.ParseUnsignedValue` | finance/app.py:84-87 | a literal with a point is worth its whole part times 10^scale plus the number its places spell |
| `Text.ToCents` | finance/app.py:90-101 | the cents credited, times 10^scale, equal the literal's mantissa times 100: the conversion is exact |
| `Text.FewPlaces` | finance/app.py:90 | every literal with at most two places passes the `round(x, 2) == x` check |
| `Text.WholeCentsPlaces` | finance/app.py:89-91 | a literal with k ≥ 2 places passes the `round(x, 2) == x` check iff its last k−2 digits are zero |
| `Text.ParseFormatCents` | finance/app.py:84-101 | an amount written with two places ("150.05") parses back to exactly that many cents and passes the two-place check |
| `Store.Holding` | finance/app.py:322 | the fold of `SUM(shares_number)` is 0 for a symbol the user never traded (SQL gives NULL there, which `Finance.Sell` turns into NoHoldings before comparing) |
| `Store.HoldingConcat` | finance/app.py:322 | the sum over two logs is the sum over the first plus the sum over the second |
| `Store.HoldingOne` | finance/app.py:322 | a single trade contributes its own signed share count, once, to its own user and symbol and nothing to any other; with HoldingConcat this fixes the sum over every log |
| `Store.History` | finance/app.py:171-180 | the history holds the user's trades and no one else's; every trade of the user is in it |
| `Store.HistoryConcat` | finance/app.py:177 | the history of two logs is the first one's history followed by the second one's: every trade keeps its place in the log (rowid order) |
| `Store.HistoryOne` | finance/app.py:177 | a single trade appears in its own user's history exactly once and in no other; with HistoryConcat, two identical trades stay two entries |
| `Grouping.Groups` | finance/app.py:49 | one group per symbol, never two for the same symbol, each group being a trade of that user |
| `Grouping.GroupsCover` | finance/app.py:49 | a symbol has a group exactly when the user has a trade in it |
| `Grouping.Held` | finance/app.py:49 | `HAVING num_shares > 0` keeps a group exactly when it is one of the input groups and its summed holding is positive |
| `Grouping.HeldDistinct` | finance/app.py:49 | the filtered groups still name each symbol at most once |
| `Grouping.GroupsValue` | finance/app.py:49-62 | valuing the groups at the quoted prices gives the same total as valuing every trade at the quoted price |
| `Grouping.HeldValue` | finance/app.py:49-62 | with no negative holding, dropping the groups whose sum is not positive does not change the value |
| `Finance.Deposit` | finance/app.py:72-104 | missing amount → MissingAmount; unparseable, over two places or negative → InvalidAmount; accepted iff well formed and the user exists; the cash grows by exactly the amount, with no row and no other account changed |
| `Finance.Buy` | finance/app.py:113-163 | the checks in order (missing symbol, unknown symbol, missing shares, non-digit shares, shares < 1, cost > cash); accepted iff all pass; cash becomes cash − shares×price, never negative; exactly one row (+shares, price, shares×price) is appended |
| `Finance.Sell` | finance/app.py:293-342 | the checks in order (missing symbol, missing shares, non-digit shares, no quote, shares < 1, no trades in the symbol, shares > sum); accepted iff all pass; cash becomes cash + shares×price; one row (−shares, price, +shares×price) is appended |
| `Finance.Register` | finance/app.py:255-284 | missing username, missing password, mismatched confirmation and a taken username are refused in that order; otherwise exactly one account is added under the next id, with the hashed password and the opening cash |
| `Finance.PricePositions` | finance/app.py:60-62 | the page fails exactly when some listed symbol has no quote; otherwise each position carries its summed shares and its quoted price |
| `Finance.Index` | finance/app.py:45-65 | an unknown user fails; every listed position has a positive summed holding and today's quoted price; the cash is the user's cash; the total is cash plus Σ shares×price |
| `Properties.DepositPreservesValid` | finance/app.py:94-101 | an accepted deposit keeps the ledger invariant and never lowers the cash |
| `Properties.DepositAddsToBook` | finance/app.py:98-101 | a deposit raises the user's cash plus cost basis by exactly the amount, appends no row, and leaves other users and histories alone |
| `Properties.DepositFormattedAmount` | finance/app.py:79-101 | depositing "d.cc" credits exactly that many cents |
| `Properties.DepositWhole` | finance/app.py:84-101 | an amount written as a plain numeral, such as "100", credits that many dollars |
| `Properties.DepositRefusesNegative` | finance/app.py:94-95 | a '-' followed by a literal with a non-zero value, such as "-5", is refused as InvalidAmount |
| `Properties.DepositExtraPlaces` | finance/app.py:89-91 | any amount whose digits beyond the second place are not all zero is refused as InvalidAmount, whatever its sign, leading zeros or number of places ("1.0051", "+150.005") |
| `Properties.DepositThreePlaces` | finance/app.py:89-91 | a whole number, a point and exactly three digits, the last of them not zero (such as "150.005"), is refused as InvalidAmount |
| `Properties.TradePreservesValid` | finance/app.py:155-160 | writing a trade's cash update and its row keeps the ledger valid when the new cash and the traded holding stay non-negative |
| `Properties.BuyPreservesValid` | finance/app.py:142-160 | an accepted purchase keeps cash and holdings non-negative, usernames unique and rows well formed |
| `Properties.BuyAccounting` | finance/app.py:146-160 | a purchase leaves cash plus cost basis unchanged, raises the symbol's holding by the share count, appends only the buyer's row and touches no other user |
| `Properties.SellPreservesValid` | finance/app.py:318-339 | an accepted sale keeps cash and holdings non-negative and rows well formed |
| `Properties.SellAccounting` | finance/app.py:325-339 | a sale leaves cash plus cost basis unchanged, lowers the holding by the share count without going below 0, appends only the seller's row and touches no other user |
| `Properties.BuyThenSellRestores` | finance/app.py:146-160 | selling, at the same quote, the count just bought is accepted and restores every account's cash and the symbol's holding |
| `Properties.SellBoundary` | finance/app.py:322-326 | with h ≥ 1 shares held, selling h is accepted and selling h+1 is refused as InvalidShares |
| `Properties.RegisterPreservesValid` | finance/app.py:276-281 | registration keeps usernames unique and non-empty and every id fresh |
| `Properties.RegisterFresh` | finance/app.py:281 | the new account has a fresh id, the opening cash, no trades and a book value of the opening cash; existing accounts are unchanged |
| `Properties.IndexListsHeld` | finance/app.py:49 | every symbol with a positive summed holding appears on the portfolio page |
| `Properties.IndexDistinct` | finance/app.py:49 | no symbol appears twice on the portfolio page |
| `Properties.IndexAccepts` | finance/app.py:49-62 | the page renders iff the user exists and every symbol still held has a quote |
| `Properties.IndexTotal` | finance/app.py:49-62 | with no negative holding, the total is cash plus the value of every trade of the user at today's prices |
| `Properties.BuySellScenario` | finance/app.py:146-160 | $10,000.00, buy 10 AAA at $50.00 → $9,500.00 and row (+10, 50.00, 500.00); sell 10 at $60.00 → $10,100.00 and row (−10, 60.00, 600.00); holding 0 |
| `Runs.StepPreservesValid` | finance/app.py:70-342 | any single request, accepted or refused, keeps the ledger invariant |
| `Runs.RunPreservesValid` | finance/app.py:70-342 | after any sequence of requests, at any prices, no cash and no holding is negative and usernames are unique |
| `Runs.Reachable` | finance/app.py:70-342 | every state reachable from the empty database satisfies the ledger invariant |
| `Runs.StepFrames` | finance/app.py:101 | a request not made for a user keeps that user's account, history and book value, and keeps every earlier row |
| `Runs.RunIsolation` | finance/app.py:157-160 | requests for other users never change a user's account or history, and the trade log only grows at the end |
| `Runs.RunConservesBook` | finance/app.py:157-160 | without deposits, a user's cash plus cost basis is the same after any sequence of buys, sells and registrations |

## Left out

- HTTP and presentation are not modelled: Flask routing, the GET branches
  that render forms (including the symbol list of `/sell`), templates,
  redirects, the `after_request` cache headers, and the `apology` page. A
  refusal is an `Error` value, not an HTTP status.
- `login`, `logout` and session handling are not modelled. The session user
  is an explicit `user` argument. Password hashing and checking are foreign
  library calls; the hash is a function parameter.
- `/quote` is not modelled. It only calls the quote service and renders the
  answer.
- The quote service itself is a network call in the `helpers` module, which
  is not part of this model. It is replaced by a pure `Lookup` function.
  `/buy` asks for the same symbol three times (finance/app.py:124, 136, 160)
  and `/sell` twice (finance/app.py:312, 339); `/` asks once per listed
  position (finance/app.py:61). The model assumes every answer for a symbol
  within one request is the same. This rules out one source path: if the
  name lookup at finance/app.py:160 or 339 fails after the cash UPDATE at
  finance/app.py:157 or 336, the cash has already changed and no trade row
  is written.
- SQLite and the cs50 `SQL` wrapper are replaced by a map and a sequence.
  The schema is not shown: the opening cash is a parameter, and new ids come
  from a counter.
- The trade row's timestamp is not modelled. The INSERT statements never
  write one.
- Python floats are not modelled; money is exact cents.
  - `float()` is modelled only on plain decimal notation. Python also
    accepts surrounding whitespace, exponents, underscores, "inf" and
    "nan"; the model refuses all of these as `InvalidAmount`. The route
    itself does the following with them:
    - " 5 ", "1e2" and "1_0" are credited as 5, 100 and 10.
    - "inf", and any exponent large enough to overflow such as "1e400",
      read as infinity. Infinity passes both `round(x, 2) != x` and `x < 0`
      (finance/app.py:90-95), so the deposit is accepted and the cash becomes
      infinite.
    - "nan" is refused, because `round(nan, 2) != nan` holds.
    - "-inf" is refused as negative.
  - Float rounding is not modelled. A literal with more digits than a double
    holds (e.g. "1.0000000000000000001") passes Python's check, but the model
    refuses it.
  - Float accumulation error in the cash column is not modelled.
- `str.isdigit` is modelled for ASCII digits only. Python also accepts other
  Unicode digit characters. `int()` then either reads them or raises.
- Concurrency is not modelled. The source writes the cash UPDATE and the
  trade INSERT as two separate statements. The model makes each request one
  atomic transition.
- The `name` column of the `GROUP BY` query is not pinned down by SQLite;
  the model takes it from the group's first trade. SQLite also leaves the
  order of the groups open; the model lists them in order of first trade.
- `SELECT * FROM stock WHERE user_id = ?` has no `ORDER BY`, so SQLite does
  not fix the order of the history. The model takes the order in which the
  rows were inserted (rowid order).
- Finance.Index: its contract does not say which of the user's trades a
  position's `name` comes from. SQLite leaves that open.
