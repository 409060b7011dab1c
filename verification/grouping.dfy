/**
  The portfolio query of the index page, `SELECT symbol, name,
  SUM(shares_number) FROM stock WHERE user_id = ? GROUP BY symbol HAVING
  SUM(shares_number) > 0`, as folds over the trade log, and the two ways of
  valuing a portfolio: group by group, and trade by trade.
 */
module Grouping {
  import opened Wrappers
  import opened Store

  /** Some row of `g` is about `symbol`. */
  predicate Lists(g: seq<Row>, symbol: string) {
    exists i :: 0 <= i < |g| && g[i].symbol == symbol
  }

  /**
    One row per symbol the user ever traded, in order of first trade: the
    first trade of each group, which supplies the group's `name` column.
   */
  function Groups(rows: seq<Row>, user: UserId): (g: seq<Row>)
    ensures forall i :: 0 <= i < |g| ==> g[i].userId == user && g[i] in rows
    ensures DistinctSymbols(g)
    decreases |rows|
  {
    if |rows| == 0 then []
    else
      var init := rows[..|rows| - 1];
      var last := rows[|rows| - 1];
      var prev := Groups(init, user);
      assert forall i :: 0 <= i < |init| ==> init[i] == rows[i];
      if last.userId == user && !HasRows(init, user, last.symbol) then
        prev + [last]
      else
        prev
  }

  /** The groups are exactly the symbols the user has trades in. */
  lemma {:induction false} GroupsCover(rows: seq<Row>, user: UserId, symbol: string)
    ensures Lists(Groups(rows, user), symbol) <==> HasRows(rows, user, symbol)
    decreases |rows|
  {
    if |rows| > 0 {
      var init := rows[..|rows| - 1];
      var last := rows[|rows| - 1];
      assert rows == init + [last];
      HasRowsAppend(init, last, user, symbol);
      GroupsCover(init, user, symbol);
      var prev := Groups(init, user);
      var g := Groups(rows, user);
      if Lists(prev, symbol) {
        var i :| 0 <= i < |prev| && prev[i].symbol == symbol;
        assert g[i] == prev[i];
      }
      if Lists(g, symbol) && !Owns(last, user, symbol) {
        var i :| 0 <= i < |g| && g[i].symbol == symbol;
        if i < |prev| {
          assert prev[i] == g[i];
        }
      }
      if Owns(last, user, symbol) && !HasRows(init, user, symbol) {
        assert g[|prev|] == last;
      }
    }
  }

  /** A group that the `HAVING` filter lets through: one of `g`, with a positive summed holding. */
  predicate Kept(x: Row, g: seq<Row>, rows: seq<Row>, user: UserId) {
    x in g && Holding(rows, user, x.symbol) > 0
  }

  /**
    `HAVING SUM(shares_number) > 0`: the groups whose holding is still
    positive, in the same order. It keeps only groups of `g` with a positive
    holding, and drops none of them.
   */
  function Held(g: seq<Row>, rows: seq<Row>, user: UserId): (h: seq<Row>)
    ensures forall x :: x in h <==> Kept(x, g, rows, user)
    decreases |g|
  {
    if |g| == 0 then []
    else
      assert g == [g[0]] + g[1..];
      (if Holding(rows, user, g[0].symbol) > 0 then [g[0]] else []) + Held(g[1..], rows, user)
  }

  /** No two rows of `g` are about the same symbol. */
  predicate DistinctSymbols(g: seq<Row>) {
    forall i, j :: 0 <= i < j < |g| ==> g[i].symbol != g[j].symbol
  }

  /** Dropping groups keeps the remaining symbols distinct. */
  lemma {:induction false} HeldDistinct(g: seq<Row>, rows: seq<Row>, user: UserId)
    requires DistinctSymbols(g)
    ensures DistinctSymbols(Held(g, rows, user))
    decreases |g|
  {
    if |g| > 0 {
      var tail := g[1..];
      assert DistinctSymbols(tail) by {
        forall i, j | 0 <= i < j < |tail| ensures tail[i].symbol != tail[j].symbol {
          assert tail[i] == g[i + 1] && tail[j] == g[j + 1];
        }
      }
      HeldDistinct(tail, rows, user);
      var ht := Held(tail, rows, user);
      if Holding(rows, user, g[0].symbol) > 0 {
        var h := [g[0]] + ht;
        assert Held(g, rows, user) == h;
        forall j | 0 <= j < |ht| ensures ht[j].symbol != g[0].symbol {
          assert ht[j] in ht;
          var k :| 0 <= k < |tail| && tail[k] == ht[j];
          assert tail[k] == g[k + 1];
        }
        forall i, j | 0 <= i < j < |h| ensures h[i].symbol != h[j].symbol {
          assert h[j] == ht[j - 1];
          if i > 0 {
            assert h[i] == ht[i - 1];
          }
        }
      } else {
        assert Held(g, rows, user) == ht;
      }
    }
  }

  /** The quoted price of a symbol, 0 where the quote service has none. */
  function PriceOf(lookup: Lookup, symbol: string): (p: nat) {
    match lookup(symbol)
    case Some(q) => q.price
    case None => 0
  }

  /** Market value of the groups `g`: each group's summed holding times its quoted price. */
  function GroupValue(g: seq<Row>, rows: seq<Row>, user: UserId, lookup: Lookup): (v: int)
    decreases |g|
  {
    if |g| == 0 then 0
    else Holding(rows, user, g[0].symbol) * PriceOf(lookup, g[0].symbol) + GroupValue(g[1..], rows, user, lookup)
  }

  /** Market value of the user's trades, trade by trade: signed shares times today's price of the symbol. */
  function TradeValue(rows: seq<Row>, user: UserId, lookup: Lookup): (v: int)
    decreases |rows|
  {
    if |rows| == 0 then 0
    else
      var last := rows[|rows| - 1];
      TradeValue(rows[..|rows| - 1], user, lookup) + (if last.userId == user then last.shares * PriceOf(lookup, last.symbol) else 0)
  }

  lemma {:induction false} GroupValueSnoc(g: seq<Row>, x: Row, rows: seq<Row>, user: UserId, lookup: Lookup)
    ensures GroupValue(g + [x], rows, user, lookup)
         == GroupValue(g, rows, user, lookup) + Holding(rows, user, x.symbol) * PriceOf(lookup, x.symbol)
    decreases |g|
  {
    if |g| > 0 {
      assert (g + [x])[1..] == g[1..] + [x];
      GroupValueSnoc(g[1..], x, rows, user, lookup);
    }
  }

  /** A new trade changes the value of distinct groups only through the group of its own symbol, if listed. */
  lemma {:induction false} GroupValueAppendTrade(g: seq<Row>, rows: seq<Row>, r: Row, user: UserId, lookup: Lookup)
    requires DistinctSymbols(g)
    ensures GroupValue(g, rows + [r], user, lookup)
         == GroupValue(g, rows, user, lookup)
            + (if r.userId == user && Lists(g, r.symbol) then r.shares * PriceOf(lookup, r.symbol) else 0)
    decreases |g|
  {
    if |g| > 0 {
      var tail := g[1..];
      assert DistinctSymbols(tail) by {
        forall i, j | 0 <= i < j < |tail| ensures tail[i].symbol != tail[j].symbol {
          assert tail[i] == g[i + 1] && tail[j] == g[j + 1];
        }
      }
      GroupValueAppendTrade(tail, rows, r, user, lookup);
      HoldingAppend(rows, r, user, g[0].symbol);
      if Lists(g, r.symbol) {
        var i :| 0 <= i < |g| && g[i].symbol == r.symbol;
        if i > 0 {
          assert tail[i - 1] == g[i];
          assert g[0].symbol != r.symbol;
        }
      }
      var p := PriceOf(lookup, g[0].symbol);
      var d := if Owns(r, user, g[0].symbol) then r.shares else 0;
      assert (Holding(rows, user, g[0].symbol) + d) * p == Holding(rows, user, g[0].symbol) * p + d * p;
    }
  }

  /** Valuing the portfolio group by group gives the same total as valuing it trade by trade. */
  lemma {:induction false} GroupsValue(rows: seq<Row>, user: UserId, lookup: Lookup)
    ensures GroupValue(Groups(rows, user), rows, user, lookup) == TradeValue(rows, user, lookup)
    decreases |rows|
  {
    if |rows| > 0 {
      var init := rows[..|rows| - 1];
      var last := rows[|rows| - 1];
      assert rows == init + [last];
      var prev := Groups(init, user);
      GroupsValue(init, user, lookup);
      GroupValueAppendTrade(prev, init, last, user, lookup);
      GroupsCover(init, user, last.symbol);
      if last.userId == user && !HasRows(init, user, last.symbol) {
        GroupValueSnoc(prev, last, rows, user, lookup);
        HoldingAppend(init, last, user, last.symbol);
      }
    }
  }

  /** Leaving out groups with a holding of 0 does not change the value, provided no holding is negative. */
  lemma {:induction false} HeldValue(g: seq<Row>, rows: seq<Row>, user: UserId, lookup: Lookup)
    requires forall i :: 0 <= i < |g| ==> Holding(rows, user, g[i].symbol) >= 0
    ensures GroupValue(Held(g, rows, user), rows, user, lookup) == GroupValue(g, rows, user, lookup)
    decreases |g|
  {
    if |g| > 0 {
      var tail := g[1..];
      assert forall i :: 0 <= i < |tail| ==> tail[i] == g[i + 1];
      HeldValue(tail, rows, user, lookup);
      var ht := Held(tail, rows, user);
      var n := Holding(rows, user, g[0].symbol);
      var v := n * PriceOf(lookup, g[0].symbol);
      assert GroupValue(g, rows, user, lookup) == v + GroupValue(tail, rows, user, lookup);
      if n > 0 {
        var h := [g[0]] + ht;
        assert Held(g, rows, user) == h;
        assert h[0] == g[0] && h[1..] == ht;
        assert GroupValue(h, rows, user, lookup) == v + GroupValue(ht, rows, user, lookup);
      } else {
        assert Held(g, rows, user) == ht;
        assert v == 0;
      }
    }
  }

  /** Every symbol with a positive summed holding survives the grouping and the `HAVING` filter. */
  lemma HeldListsPositive(rows: seq<Row>, user: UserId, symbol: string) returns (i: nat)
    requires Holding(rows, user, symbol) > 0
    ensures var h := Held(Groups(rows, user), rows, user);
      i < |h| && h[i].symbol == symbol
  {
    var g := Groups(rows, user);
    var h := Held(g, rows, user);
    assert HasRows(rows, user, symbol);
    GroupsCover(rows, user, symbol);
    var k :| 0 <= k < |g| && g[k].symbol == symbol;
    assert Kept(g[k], g, rows, user);
    var j :| 0 <= j < |h| && h[j] == g[k];
    i := j;
  }
}
