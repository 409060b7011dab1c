/**
  The data the finance routes keep in SQLite, as one immutable value: the
  `users` table (username, password hash, cash) and the append-only `stock`
  table of trades. Money is in whole cents. The SQL aggregates the routes
  issue (`SUM(shares_number)`, `SELECT * ... WHERE user_id = ?`,
  `GROUP BY symbol`) are folds over the trade log.
 */
module Store {
  import opened Wrappers

  type UserId = nat

  /** What the quote service answers for a known symbol: display name and price in cents. */
  datatype Quote = Quote(name: string, price: nat)

  /** The quote service as a pure function; `None` for a symbol it does not know. */
  type Lookup = string -> Option<Quote>

  /** A row of `users`; the credential is the opaque password hash. */
  datatype Account = Account(username: string, credential: string, cash: int)

  /**
    A row of `stock`: one trade. `shares` is positive for a purchase and
    negative for a sale; `price` is the per-share price at the time and
    `cost` is the (unsigned) amount of cash that changed hands.
   */
  datatype Row = Row(userId: UserId, symbol: string, name: string, shares: int, price: nat, cost: nat)

  /** Both tables, plus the id SQLite hands to the next inserted user. */
  datatype Ledger = Ledger(users: map<UserId, Account>, rows: seq<Row>, nextId: UserId)

  predicate Owns(r: Row, user: UserId, symbol: string) {
    r.userId == user && r.symbol == symbol
  }

  /** Whether the user has any trade in the symbol, that is, whether `SUM(shares_number)` has a row to add up. */
  predicate HasRows(rows: seq<Row>, user: UserId, symbol: string) {
    exists i :: 0 <= i < |rows| && Owns(rows[i], user, symbol)
  }

  /**
    `SELECT SUM(shares_number) FROM stock WHERE user_id = ? AND symbol = ?`.
    SQL answers NULL when there is no such row; the fold answers 0.
   */
  function Holding(rows: seq<Row>, user: UserId, symbol: string): (h: int)
    ensures !HasRows(rows, user, symbol) ==> h == 0
    decreases |rows|
  {
    if |rows| == 0 then 0
    else
      var last := rows[|rows| - 1];
      var init := rows[..|rows| - 1];
      assert forall i :: 0 <= i < |init| ==> init[i] == rows[i];
      Holding(init, user, symbol) + (if Owns(last, user, symbol) then last.shares else 0)
  }

  /** A log of one trade: it adds its own share count to its own user and symbol, and nothing elsewhere. */
  lemma HoldingOne(r: Row, user: UserId, symbol: string)
    ensures Holding([r], user, symbol) == (if Owns(r, user, symbol) then r.shares else 0)
  {
    assert [r][..0] == [];
  }

  /** The sum over two logs is the sum over the first plus the sum over the second. */
  lemma {:induction false} HoldingConcat(a: seq<Row>, b: seq<Row>, user: UserId, symbol: string)
    ensures Holding(a + b, user, symbol) == Holding(a, user, symbol) + Holding(b, user, symbol)
    decreases |b|
  {
    if |b| == 0 {
      assert a + b == a;
    } else {
      var b' := b[..|b| - 1];
      assert (a + b)[..|a + b| - 1] == a + b';
      assert (a + b)[|a + b| - 1] == b[|b| - 1];
      HoldingConcat(a, b', user, symbol);
    }
  }

  /** Appending a trade moves only its own user's holding of its own symbol, by its share count. */
  lemma HoldingAppend(rows: seq<Row>, r: Row, user: UserId, symbol: string)
    ensures Holding(rows + [r], user, symbol)
         == Holding(rows, user, symbol) + (if Owns(r, user, symbol) then r.shares else 0)
  {
    assert (rows + [r])[..|rows|] == rows;
  }

  lemma HasRowsAppend(rows: seq<Row>, r: Row, user: UserId, symbol: string)
    ensures HasRows(rows + [r], user, symbol) <==> HasRows(rows, user, symbol) || Owns(r, user, symbol)
  {
    if HasRows(rows + [r], user, symbol) && !Owns(r, user, symbol) {
      var i :| 0 <= i < |rows + [r]| && Owns((rows + [r])[i], user, symbol);
      assert i < |rows| && (rows + [r])[i] == rows[i];
    }
    if HasRows(rows, user, symbol) {
      var i :| 0 <= i < |rows| && Owns(rows[i], user, symbol);
      assert (rows + [r])[i] == rows[i];
    }
    if Owns(r, user, symbol) {
      assert (rows + [r])[|rows|] == r;
    }
  }

  /** `SELECT * FROM stock WHERE user_id = ?`: the user's trades, in the order they were recorded. */
  function History(rows: seq<Row>, user: UserId): (h: seq<Row>)
    ensures forall i :: 0 <= i < |h| ==> h[i].userId == user && h[i] in rows
    ensures forall i :: 0 <= i < |rows| && rows[i].userId == user ==> rows[i] in h
    decreases |rows|
  {
    if |rows| == 0 then []
    else
      var last := rows[|rows| - 1];
      var init := rows[..|rows| - 1];
      assert forall i :: 0 <= i < |init| ==> init[i] == rows[i];
      History(init, user) + (if last.userId == user then [last] else [])
  }

  /** A log of one trade: the trade's own user sees it once, nobody else sees it. */
  lemma HistoryOne(r: Row, user: UserId)
    ensures History([r], user) == (if r.userId == user then [r] else [])
  {
    assert [r][..0] == [];
  }

  /**
    The history of two logs one after the other is the history of the first
    followed by the history of the second: every trade keeps its place, and
    two identical trades stay two entries.
   */
  lemma {:induction false} HistoryConcat(a: seq<Row>, b: seq<Row>, user: UserId)
    ensures History(a + b, user) == History(a, user) + History(b, user)
    decreases |b|
  {
    if |b| == 0 {
      assert a + b == a;
    } else {
      var b' := b[..|b| - 1];
      assert (a + b)[..|a + b| - 1] == a + b';
      assert (a + b)[|a + b| - 1] == b[|b| - 1];
      HistoryConcat(a, b', user);
    }
  }

  /** Appending a trade extends its own user's history by that trade and leaves every other history alone. */
  lemma HistoryAppend(rows: seq<Row>, r: Row, user: UserId)
    ensures History(rows + [r], user) == History(rows, user) + (if r.userId == user then [r] else [])
  {
    assert (rows + [r])[..|rows|] == rows;
  }

  /**
    Cash the user has paid for the shares still on the books: the sum of
    signed share count times price over the user's trades (a sale counts
    negatively).
   */
  function CostBasis(rows: seq<Row>, user: UserId): (c: int)
    decreases |rows|
  {
    if |rows| == 0 then 0
    else
      var last := rows[|rows| - 1];
      CostBasis(rows[..|rows| - 1], user) + (if last.userId == user then last.shares * last.price else 0)
  }

  lemma CostBasisAppend(rows: seq<Row>, r: Row, user: UserId)
    ensures CostBasis(rows + [r], user)
         == CostBasis(rows, user) + (if r.userId == user then r.shares * r.price else 0)
  {
    assert (rows + [r])[..|rows|] == rows;
  }

  /** The user's book value at cost: cash plus the cost basis of the trades on record. */
  function Book(l: Ledger, user: UserId): (b: int)
    requires user in l.users
  {
    l.users[user].cash + CostBasis(l.rows, user)
  }

  /** A user with no trades has an empty history and a cost basis of 0. */
  lemma {:induction false} NoTrades(rows: seq<Row>, user: UserId)
    requires forall i :: 0 <= i < |rows| ==> rows[i].userId != user
    ensures History(rows, user) == [] && CostBasis(rows, user) == 0
    decreases |rows|
  {
    if |rows| > 0 {
      NoTrades(rows[..|rows| - 1], user);
    }
  }

  /** What a trade row promises: a non-zero share count, and a cost of exactly |shares| times price. */
  predicate WellFormed(r: Row) {
    r.shares != 0 && r.cost == (if r.shares < 0 then -r.shares else r.shares) * r.price
  }

  predicate UsernameInUse(users: map<UserId, Account>, username: string) {
    exists id :: id in users && users[id].username == username
  }

  /**
    The ledger invariant: every id below the next one to be issued, no
    negative cash, non-empty and unique usernames, every trade well formed
    and owned by an existing user, and no negative holding anywhere.
   */
  ghost predicate Valid(l: Ledger) {
    && (forall id :: id in l.users ==> id < l.nextId && l.users[id].cash >= 0 && l.users[id].username != "")
    && (forall a, b :: a in l.users && b in l.users && l.users[a].username == l.users[b].username ==> a == b)
    && (forall i :: 0 <= i < |l.rows| ==> WellFormed(l.rows[i]) && l.rows[i].userId in l.users)
    && (forall user, symbol :: Holding(l.rows, user, symbol) >= 0)
  }
}
