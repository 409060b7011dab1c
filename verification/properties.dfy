/**
  What one request does to the ledger: the invariant every mutation keeps,
  the book value it conserves, the users and trades it leaves alone, and
  what the portfolio page reports.
 */
module Properties {
  import opened Wrappers
  import opened Text
  import opened Store
  import opened Grouping
  import opened Finance

  /** The trade log after a mutation: the old one with at most one row added, owned by the acting user. */
  predicate AppendedFor(l: Ledger, l': Ledger, user: UserId) {
    && |l.rows| <= |l'.rows| <= |l.rows| + 1
    && l'.rows[..|l.rows|] == l.rows
    && (forall i :: |l.rows| <= i < |l'.rows| ==> l'.rows[i].userId == user)
  }

  /** A mutation by `user` leaves every other existing user's account and trade history exactly as it was. */
  predicate OthersUntouched(l: Ledger, l': Ledger, user: UserId) {
    forall v :: v in l.users && v != user ==>
      v in l'.users && l'.users[v] == l.users[v] && History(l'.rows, v) == History(l.rows, v)
  }

  lemma AppendKeepsOthers(l: Ledger, l': Ledger, user: UserId, r: Row)
    requires r.userId == user
    requires l'.rows == l.rows + [r]
    requires forall v :: v in l.users && v != user ==> v in l'.users && l'.users[v] == l.users[v]
    ensures AppendedFor(l, l', user) && OthersUntouched(l, l', user)
  {
    assert l'.rows[..|l.rows|] == l.rows;
    forall v | v in l.users && v != user
      ensures History(l'.rows, v) == History(l.rows, v)
    {
      HistoryAppend(l.rows, r, v);
    }
  }

  /**
    Recording one well-formed trade for an existing user, with that user's
    cash set to a non-negative amount and the traded holding staying
    non-negative, keeps the ledger valid.
   */
  lemma TradePreservesValid(l: Ledger, r: Row, cash: int)
    requires Valid(l) && r.userId in l.users && WellFormed(r)
    requires cash >= 0 && Holding(l.rows, r.userId, r.symbol) + r.shares >= 0
    ensures Valid(Ledger(SetCash(l.users, r.userId, cash), l.rows + [r], l.nextId))
  {
    var l' := Ledger(SetCash(l.users, r.userId, cash), l.rows + [r], l.nextId);
    forall user, symbol
      ensures Holding(l'.rows, user, symbol) >= 0
    {
      HoldingAppend(l.rows, r, user, symbol);
    }
    forall i | 0 <= i < |l'.rows|
      ensures WellFormed(l'.rows[i]) && l'.rows[i].userId in l'.users
    {
      if i < |l.rows| {
        assert l'.rows[i] == l.rows[i];
      }
    }
  }

  // ---------------------------------------------------------------- deposit

  lemma DepositPreservesValid(l: Ledger, user: UserId, amount: string)
    requires Valid(l) && Deposit(l, user, amount).Ok?
    ensures Valid(Deposit(l, user, amount).value)
    ensures Deposit(l, user, amount).value.users[user].cash >= l.users[user].cash
  {
  }

  /** A deposit raises the user's book value by exactly the amount, in cents, and touches nobody else. */
  lemma DepositAddsToBook(l: Ledger, user: UserId, amount: string)
    requires Deposit(l, user, amount).Ok?
    ensures var l' := Deposit(l, user, amount).value;
      && Book(l', user) == Book(l, user) + AmountCents(amount)
      && AppendedFor(l, l', user) && OthersUntouched(l, l', user)
      && History(l'.rows, user) == History(l.rows, user)
  {
    var l' := Deposit(l, user, amount).value;
    assert l'.rows[..|l.rows|] == l.rows;
  }

  /** An amount written with two places, such as "150.05", is credited to the cent. */
  lemma DepositFormattedAmount(l: Ledger, user: UserId, cents: nat)
    requires user in l.users
    ensures Deposit(l, user, FormatCents(cents)) == Ok(l.(users := SetCash(l.users, user, l.users[user].cash + cents)))
  {
    ParseFormatCents(cents);
  }

  /** A whole number of dollars written without a point, such as "100", is credited as that many dollars. */
  lemma DepositWhole(l: Ledger, user: UserId, n: nat)
    requires user in l.users
    ensures Deposit(l, user, NatToDigits(n)) == Ok(l.(users := SetCash(l.users, user, l.users[user].cash + n * 100)))
  {
    var s := NatToDigits(n);
    assert DotIndex(s) == |s| by {
      assert '.' !in s;
    }
    assert ParseDecimal(s) == Some(Decimal(n, 0));
    FewPlaces(n, 0);
    assert ToCents(Decimal(n, 0)) == n * 100 by {
      assert Pow10(0) == 1;
    }
  }

  /** A negative amount, such as "-5", is refused. */
  lemma DepositRefusesNegative(l: Ledger, user: UserId, s: string)
    requires ParseUnsigned(s).Some? && ParseUnsigned(s).value.mantissa > 0
    ensures Deposit(l, user, "-" + s) == Err(InvalidAmount)
  {
    assert ("-" + s)[1..] == s;
  }

  /**
    Any amount whose digits beyond the second place are not all zero is
    refused, whatever its sign, its leading zeros or its number of places.
   */
  lemma DepositExtraPlaces(l: Ledger, user: UserId, s: string)
    requires ParseDecimal(s).Some?
    requires ParseDecimal(s).value.scale > 2
    requires ParseDecimal(s).value.mantissa % Pow10(ParseDecimal(s).value.scale - 2) != 0
    ensures Deposit(l, user, s) == Err(InvalidAmount)
  {
    WholeCentsPlaces(ParseDecimal(s).value);
    assert !AcceptableAmount(s);
  }

  /** A whole number, a point and exactly three digits, the last of them not zero, is refused; "150.005" is one. */
  lemma DepositThreePlaces(l: Ledger, user: UserId, whole: nat, places: nat)
    requires places < 1000 && places % 10 != 0
    ensures Deposit(l, user, NatToDigits(whole) + "." + ThreeDigits(places)) == Err(InvalidAmount)
  {
    var s := NatToDigits(whole) + "." + ThreeDigits(places);
    var d := ParseThreePlaces(whole, places);
    assert d.mantissa % Pow10(1) != 0 by {
      assert Pow10(1) == 10;
      RemainderUnique(d.mantissa, 10, whole * 100 + places / 10, places % 10);
    }
    DepositExtraPlaces(l, user, s);
  }

  /** A numeral, a point and three digits read as the value with scale 3. */
  lemma ParseThreePlaces(whole: nat, places: nat) returns (d: Decimal)
    requires places < 1000
    ensures ParseDecimal(NatToDigits(whole) + "." + ThreeDigits(places)) == Some(d)
    ensures d == Decimal(whole * 1000 + places, 3)
  {
    var w := NatToDigits(whole);
    var f := ThreeDigits(places);
    ParsePointed(w, f);
    assert DigitsValue(w + f) == whole * 1000 + places by {
      ThreeDigitsValue(places);
      DigitsValueAppend(w, f);
      assert Pow10(3) == 1000;
    }
    d := Decimal(whole * 1000 + places, 3);
  }

  lemma ThreeDigitsValue(places: nat)
    requires places < 1000
    ensures DigitsValue(ThreeDigits(places)) == places
  {
    var f := ThreeDigits(places);
    var a, b, c := places / 100, places / 10 % 10, places % 10;
    assert f[..2] == [DigitChar(a), DigitChar(b)];
    TwoDigits(a, b);
    assert DigitsValue(f) == (a * 10 + b) * 10 + c;
    SplitThree(places);
  }

  lemma SplitThree(n: nat)
    requires n < 1000
    ensures (n / 100 * 10 + n / 10 % 10) * 10 + n % 10 == n
  {
  }

  /** `places` written with exactly three digits, leading zeros included. */
  function ThreeDigits(places: nat): (s: string)
    requires places < 1000
    ensures |s| == 3 && AllDigits(s)
  {
    [DigitChar(places / 100), DigitChar(places / 10 % 10), DigitChar(places % 10)]
  }

  // -------------------------------------------------------------------- buy

  lemma BuyPreservesValid(l: Ledger, user: UserId, symbol: string, shares: string, lookup: Lookup)
    requires Valid(l) && Buy(l, user, symbol, shares, lookup).Ok?
    ensures Valid(Buy(l, user, symbol, shares, lookup).value)
  {
    var n := DigitsValue(shares);
    var q := lookup(symbol).value;
    TradePreservesValid(l, Row(user, symbol, q.name, n, q.price, n * q.price), l.users[user].cash - n * q.price);
  }

  /**
    A purchase trades cash for shares at cost: the buyer's book value is
    unchanged, the bought symbol's holding grows by the share count, the
    history gains exactly the new trade, and nobody else is touched.
   */
  lemma BuyAccounting(l: Ledger, user: UserId, symbol: string, shares: string, lookup: Lookup)
    requires Buy(l, user, symbol, shares, lookup).Ok?
    ensures var l' := Buy(l, user, symbol, shares, lookup).value;
      && Book(l', user) == Book(l, user)
      && Holding(l'.rows, user, symbol) == Holding(l.rows, user, symbol) + DigitsValue(shares)
      && History(l'.rows, user) == History(l.rows, user) + [l'.rows[|l.rows|]]
      && AppendedFor(l, l', user) && OthersUntouched(l, l', user)
  {
    var l' := Buy(l, user, symbol, shares, lookup).value;
    var r := l'.rows[|l.rows|];
    assert l'.rows == l.rows + [r];
    CostBasisAppend(l.rows, r, user);
    HoldingAppend(l.rows, r, user, symbol);
    HistoryAppend(l.rows, r, user);
    AppendKeepsOthers(l, l', user, r);
  }

  // ------------------------------------------------------------------- sell

  lemma SellPreservesValid(l: Ledger, user: UserId, symbol: string, shares: string, lookup: Lookup)
    requires Valid(l) && Sell(l, user, symbol, shares, lookup).Ok?
    ensures Valid(Sell(l, user, symbol, shares, lookup).value)
  {
    var n := DigitsValue(shares);
    var q := lookup(symbol).value;
    TradePreservesValid(l, Row(user, symbol, q.name, -(n as int), q.price, n * q.price), l.users[user].cash + n * q.price);
  }

  /**
    A sale trades shares for cash at the quoted price: the seller's book
    value is unchanged, the symbol's holding shrinks by the share count and
    stays non-negative, and nobody else is touched.
   */
  lemma SellAccounting(l: Ledger, user: UserId, symbol: string, shares: string, lookup: Lookup)
    requires Sell(l, user, symbol, shares, lookup).Ok?
    ensures var l' := Sell(l, user, symbol, shares, lookup).value;
      && Book(l', user) == Book(l, user)
      && Holding(l'.rows, user, symbol) == Holding(l.rows, user, symbol) - DigitsValue(shares) >= 0
      && History(l'.rows, user) == History(l.rows, user) + [l'.rows[|l.rows|]]
      && AppendedFor(l, l', user) && OthersUntouched(l, l', user)
  {
    var l' := Sell(l, user, symbol, shares, lookup).value;
    var r := l'.rows[|l.rows|];
    var n := DigitsValue(shares);
    var p := lookup(symbol).value.price;
    assert l'.rows == l.rows + [r];
    assert r.shares == -(n as int) && r.price == p;
    assert r.shares * r.price == -((n * p) as int);
    assert l'.users[user].cash == l.users[user].cash + n * p;
    CostBasisAppend(l.rows, r, user);
    HoldingAppend(l.rows, r, user, symbol);
    HistoryAppend(l.rows, r, user);
    AppendKeepsOthers(l, l', user, r);
  }

  /**
    Selling exactly what was just bought, at the same quote, succeeds and
    puts every account back as it was: the buyer's cash is restored and
    the symbol's holding returns to its prior value.
   */
  lemma BuyThenSellRestores(l: Ledger, user: UserId, symbol: string, shares: string, lookup: Lookup)
    requires Holding(l.rows, user, symbol) >= 0
    requires Buy(l, user, symbol, shares, lookup).Ok?
    ensures var l1 := Buy(l, user, symbol, shares, lookup).value;
      && Sell(l1, user, symbol, shares, lookup).Ok?
      && Sell(l1, user, symbol, shares, lookup).value.users == l.users
      && Holding(Sell(l1, user, symbol, shares, lookup).value.rows, user, symbol) == Holding(l.rows, user, symbol)
  {
    var l1 := Buy(l, user, symbol, shares, lookup).value;
    var r := l1.rows[|l.rows|];
    assert l1.rows == l.rows + [r];
    HoldingAppend(l.rows, r, user, symbol);
    HasRowsAppend(l.rows, r, user, symbol);
    var l2 := Sell(l1, user, symbol, shares, lookup).value;
    HoldingAppend(l1.rows, l2.rows[|l1.rows|], user, symbol);
    assert l2.rows == l1.rows + [l2.rows[|l1.rows|]];
  }

  /**
    The sale limit is exact: with `h >= 1` shares of a symbol on record,
    selling `h` is accepted and selling `h + 1` is refused as invalid.
   */
  lemma SellBoundary(l: Ledger, user: UserId, symbol: string, lookup: Lookup)
    requires user in l.users && symbol != "" && lookup(symbol).Some?
    requires Holding(l.rows, user, symbol) >= 1
    ensures Sell(l, user, symbol, NatToDigits(Holding(l.rows, user, symbol)), lookup).Ok?
    ensures Sell(l, user, symbol, NatToDigits(Holding(l.rows, user, symbol) + 1), lookup) == Err(InvalidShares)
  {
    assert HasRows(l.rows, user, symbol);
  }

  // --------------------------------------------------------------- register

  lemma RegisterPreservesValid(l: Ledger, username: string, password: string, confirmation: string,
                               hash: string -> string, openingCash: nat)
    requires Valid(l) && Register(l, username, password, confirmation, hash, openingCash).Ok?
    ensures Valid(Register(l, username, password, confirmation, hash, openingCash).value)
  {
  }

  /** A new user gets a fresh id, the opening cash and no trades, and every existing account stays as it was. */
  lemma RegisterFresh(l: Ledger, username: string, password: string, confirmation: string,
                      hash: string -> string, openingCash: nat)
    requires Valid(l) && Register(l, username, password, confirmation, hash, openingCash).Ok?
    ensures var l' := Register(l, username, password, confirmation, hash, openingCash).value;
      && l.nextId !in l.users
      && l'.users.Keys == l.users.Keys + {l.nextId}
      && l'.users[l.nextId].cash == openingCash
      && History(l'.rows, l.nextId) == []
      && Book(l', l.nextId) == openingCash
      && (forall v :: v in l.users ==> l'.users[v] == l.users[v])
  {
    var l' := Register(l, username, password, confirmation, hash, openingCash).value;
    NoTrades(l.rows, l.nextId);
  }

  // ------------------------------------------------------------- portfolio

  /** Every symbol whose summed holding is positive appears on the index page. */
  lemma IndexListsHeld(l: Ledger, user: UserId, lookup: Lookup, symbol: string)
    requires Index(l, user, lookup).Ok?
    requires Holding(l.rows, user, symbol) > 0
    ensures exists i :: 0 <= i < |Index(l, user, lookup).value.positions|
                     && Index(l, user, lookup).value.positions[i].symbol == symbol
  {
    var g := Groups(l.rows, user);
    var h := Held(g, l.rows, user);
    var ps := Index(l, user, lookup).value.positions;
    assert PricePositions(h, l.rows, user, lookup) == Ok(ps);
    var i := HeldListsPositive(l.rows, user, symbol);
    assert ps[i].symbol == symbol;
  }

  /** No symbol appears twice on the index page. */
  lemma IndexDistinct(l: Ledger, user: UserId, lookup: Lookup)
    requires Index(l, user, lookup).Ok?
    ensures var ps := Index(l, user, lookup).value.positions;
      forall i, j :: 0 <= i < j < |ps| ==> ps[i].symbol != ps[j].symbol
  {
    var g := Groups(l.rows, user);
    var h := Held(g, l.rows, user);
    var ps := Index(l, user, lookup).value.positions;
    assert PricePositions(h, l.rows, user, lookup) == Ok(ps);
    HeldDistinct(g, l.rows, user);
    forall i, j | 0 <= i < j < |ps| ensures ps[i].symbol != ps[j].symbol {
      assert ps[i].symbol == h[i].symbol && ps[j].symbol == h[j].symbol;
    }
  }

  /** The index page renders exactly when the user exists and every held symbol has a quote. */
  lemma IndexAccepts(l: Ledger, user: UserId, lookup: Lookup)
    ensures Index(l, user, lookup).Ok?
        <==> user in l.users && forall symbol :: Holding(l.rows, user, symbol) > 0 ==> lookup(symbol).Some?
  {
    if user in l.users {
      var g := Groups(l.rows, user);
      var h := Held(g, l.rows, user);
      if forall symbol :: Holding(l.rows, user, symbol) > 0 ==> lookup(symbol).Some? {
        assert forall i :: 0 <= i < |h| ==> h[i] in h;
        assert forall i :: 0 <= i < |h| ==> lookup(h[i].symbol).Some?;
      } else {
        var symbol :| Holding(l.rows, user, symbol) > 0 && lookup(symbol).None?;
        var i := HeldListsPositive(l.rows, user, symbol);
        assert lookup(h[i].symbol).None?;
      }
    }
  }

  lemma {:induction false} WorthOfPriced(h: seq<Row>, rows: seq<Row>, user: UserId, lookup: Lookup)
    requires PricePositions(h, rows, user, lookup).Ok?
    ensures Worth(PricePositions(h, rows, user, lookup).value) == GroupValue(h, rows, user, lookup)
    decreases |h|
  {
    if |h| > 0 {
      WorthOfPriced(h[1..], rows, user, lookup);
      var ps := PricePositions(h, rows, user, lookup).value;
      assert ps[1..] == PricePositions(h[1..], rows, user, lookup).value;
    }
  }

  /**
    With no negative holdings, the total on the index page is the cash plus
    the value of every trade the user made, each at today's price: the
    grouping and the `HAVING > 0` filter lose nothing.
   */
  lemma IndexTotal(l: Ledger, user: UserId, lookup: Lookup)
    requires forall symbol :: Holding(l.rows, user, symbol) >= 0
    requires Index(l, user, lookup).Ok?
    ensures Index(l, user, lookup).value.total == l.users[user].cash + TradeValue(l.rows, user, lookup)
  {
    var g := Groups(l.rows, user);
    var h := Held(g, l.rows, user);
    WorthOfPriced(h, l.rows, user, lookup);
    HeldValue(g, l.rows, user, lookup);
    GroupsValue(l.rows, user, lookup);
  }

  // --------------------------------------------------------------- scenario

  /**
    A user with $10,000.00 buys 10 AAA at $50.00 and then sells the 10 at
    $60.00: cash goes to $9,500.00 and then to $10,100.00, the trades are
    (+10, $50.00, $500.00) and (-10, $60.00, $600.00), and AAA is no longer
    held.
   */
  lemma BuySellScenario(hash: string)
    ensures var l := Ledger(map[1 := Account("ann", hash, 1000000)], [], 2);
      var at50: Lookup := s => if s == "AAA" then Some(Store.Quote("AAA Inc", 5000)) else None;
      var at60: Lookup := s => if s == "AAA" then Some(Store.Quote("AAA Inc", 6000)) else None;
      && Buy(l, 1, "AAA", "10", at50).Ok?
      && var l1 := Buy(l, 1, "AAA", "10", at50).value;
      && l1.users[1].cash == 950000
      && l1.rows == [Row(1, "AAA", "AAA Inc", 10, 5000, 50000)]
      && Sell(l1, 1, "AAA", "10", at60).Ok?
      && var l2 := Sell(l1, 1, "AAA", "10", at60).value;
      && l2.users[1].cash == 1010000
      && l2.rows == l1.rows + [Row(1, "AAA", "AAA Inc", -10, 6000, 60000)]
      && Holding(l2.rows, 1, "AAA") == 0
  {
    var l := Ledger(map[1 := Account("ann", hash, 1000000)], [], 2);
    var at50: Lookup := s => if s == "AAA" then Some(Store.Quote("AAA Inc", 5000)) else None;
    assert "10"[..1] == "1";
    assert DigitsValue("10") == 10;
    assert BuyAccepted(l, 1, "AAA", "10", at50);
    var l1 := Buy(l, 1, "AAA", "10", at50).value;
    assert l1.rows == [] + [l1.rows[0]];
    HoldingAppend([], l1.rows[0], 1, "AAA");
    assert HasRows(l1.rows, 1, "AAA") by {
      assert Owns(l1.rows[0], 1, "AAA");
    }
    var at60: Lookup := s => if s == "AAA" then Some(Store.Quote("AAA Inc", 6000)) else None;
    assert SellAccepted(l1, 1, "AAA", "10", at60);
    var l2 := Sell(l1, 1, "AAA", "10", at60).value;
    HoldingAppend(l1.rows, l2.rows[1], 1, "AAA");
    assert l2.rows == l1.rows + [l2.rows[1]];
  }
}
