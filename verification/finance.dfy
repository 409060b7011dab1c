/**
  The account operations behind the finance routes: deposit (`/add`),
  buy, sell, register, the portfolio (`/`) and the history. Each mutation
  runs its checks in the route's order, the first failing check decides the
  error, and a rejected request writes nothing; an accepted one writes the
  new cash and, for a trade, appends exactly one row.
 */
module Finance {
  import opened Wrappers
  import opened Text
  import opened Store
  import opened Grouping

  datatype Error =
    | MissingAmount | InvalidAmount
    | MissingSymbol | InvalidSymbol
    | MissingShares | InvalidShares
    | NotEnoughCash
    | MissingUsername | MissingPassword | PasswordMismatch | UsernameTaken
      /** The session user has no `users` row: indexing the empty cash query raises. */
    | NoSuchUser
      /** The quote service knows no such symbol where the route indexes its answer without checking. */
    | QuoteFailed
      /** A sale of a symbol the user never traded: comparing with the NULL sum raises. */
    | NoHoldings

  datatype Result<+T> = Ok(value: T) | Err(error: Error)

  /** The amount field is a number with at most two places that is not negative. */
  predicate AcceptableAmount(amount: string) {
    match ParseDecimal(amount)
    case None => false
    case Some(d) => WholeCents(d) && d.mantissa >= 0
  }

  function AmountCents(amount: string): (c: nat)
    requires AcceptableAmount(amount)
  {
    ToCents(ParseDecimal(amount).value)
  }

  /** Sets the user's cash, leaving username, credential and every other user as they were. */
  function SetCash(users: map<UserId, Account>, user: UserId, cash: int): (users': map<UserId, Account>)
    requires user in users
  {
    users[user := users[user].(cash := cash)]
  }

  /** `/add`: credit the user's cash with the amount typed in; no trade row is written. */
  function Deposit(l: Ledger, user: UserId, amount: string): (r: Result<Ledger>)
    ensures amount == "" ==> r == Err(MissingAmount)
    ensures amount != "" && !AcceptableAmount(amount) ==> r == Err(InvalidAmount)
    ensures r.Ok? <==> amount != "" && AcceptableAmount(amount) && user in l.users
    ensures r.Ok? ==>
      && r.value.rows == l.rows && r.value.nextId == l.nextId
      && r.value.users == SetCash(l.users, user, l.users[user].cash + AmountCents(amount))
  {
    if amount == "" then Err(MissingAmount)
    else
      match ParseDecimal(amount)
      case None => Err(InvalidAmount)
      case Some(d) =>
        assert AcceptableAmount(amount) <==> WholeCents(d) && d.mantissa >= 0;
        if !WholeCents(d) then Err(InvalidAmount)
        else if d.mantissa < 0 then Err(InvalidAmount)
        else if user !in l.users then Err(NoSuchUser)
        else Ok(l.(users := SetCash(l.users, user, l.users[user].cash + ToCents(d))))
  }

  /** Every check `/buy` makes before it writes. */
  predicate BuyAccepted(l: Ledger, user: UserId, symbol: string, shares: string, lookup: Lookup) {
    && symbol != ""
    && lookup(symbol).Some?
    && IsDigits(shares)
    && DigitsValue(shares) >= 1
    && user in l.users
    && DigitsValue(shares) * lookup(symbol).value.price <= l.users[user].cash
  }

  /** `/buy`: pay shares times the quoted price and record the purchase. */
  function Buy(l: Ledger, user: UserId, symbol: string, shares: string, lookup: Lookup): (r: Result<Ledger>)
    ensures symbol == "" ==> r == Err(MissingSymbol)
    ensures symbol != "" && lookup(symbol).None? ==> r == Err(InvalidSymbol)
    ensures symbol != "" && lookup(symbol).Some? && shares == "" ==> r == Err(MissingShares)
    ensures symbol != "" && lookup(symbol).Some? && shares != "" && !IsDigits(shares) ==> r == Err(InvalidShares)
    ensures (symbol != "" && lookup(symbol).Some? && IsDigits(shares) && DigitsValue(shares) == 0)
            ==> r == Err(InvalidShares)
    ensures r.Ok? <==> BuyAccepted(l, user, symbol, shares, lookup)
    ensures r.Ok? ==> user in r.value.users && r.value.users[user].cash >= 0
    ensures r == Err(NotEnoughCash) <==>
      && symbol != "" && lookup(symbol).Some? && IsDigits(shares) && DigitsValue(shares) >= 1
      && user in l.users && DigitsValue(shares) * lookup(symbol).value.price > l.users[user].cash
    ensures r.Ok? ==>
      var n := DigitsValue(shares);
      var q := lookup(symbol).value;
      && r.value.users == SetCash(l.users, user, l.users[user].cash - n * q.price)
      && r.value.rows == l.rows + [Row(user, symbol, q.name, n, q.price, n * q.price)]
      && r.value.nextId == l.nextId
  {
    if symbol == "" then Err(MissingSymbol)
    else if lookup(symbol).None? then Err(InvalidSymbol)
    else if shares == "" then Err(MissingShares)
    else if !IsDigits(shares) then Err(InvalidShares)
    else
      var q := lookup(symbol).value;
      var n := DigitsValue(shares);
      if n < 1 then Err(InvalidShares)
      else if user !in l.users then Err(NoSuchUser)
      else
        var cash := l.users[user].cash;
        var total := n * q.price;
        if total > cash then Err(NotEnoughCash)
        else
          Ok(Ledger(SetCash(l.users, user, cash - total), l.rows + [Row(user, symbol, q.name, n, q.price, total)], l.nextId))
  }

  /** Every check `/sell` makes before it writes. */
  predicate SellAccepted(l: Ledger, user: UserId, symbol: string, shares: string, lookup: Lookup) {
    && symbol != ""
    && IsDigits(shares)
    && lookup(symbol).Some?
    && DigitsValue(shares) >= 1
    && HasRows(l.rows, user, symbol)
    && DigitsValue(shares) <= Holding(l.rows, user, symbol)
    && user in l.users
  }

  /** `/sell`: receive shares times the quoted price and record the sale as a negative share count. */
  function Sell(l: Ledger, user: UserId, symbol: string, shares: string, lookup: Lookup): (r: Result<Ledger>)
    ensures symbol == "" ==> r == Err(MissingSymbol)
    ensures symbol != "" && shares == "" ==> r == Err(MissingShares)
    ensures symbol != "" && shares != "" && !IsDigits(shares) ==> r == Err(InvalidShares)
    ensures symbol != "" && IsDigits(shares) && lookup(symbol).None? ==> r == Err(QuoteFailed)
    ensures symbol != "" && IsDigits(shares) && lookup(symbol).Some? && DigitsValue(shares) == 0
      ==> r == Err(InvalidShares)
    ensures (symbol != "" && IsDigits(shares) && lookup(symbol).Some? && DigitsValue(shares) >= 1
             && !HasRows(l.rows, user, symbol)) ==> r == Err(NoHoldings)
    ensures (symbol != "" && IsDigits(shares) && lookup(symbol).Some? && DigitsValue(shares) >= 1
             && HasRows(l.rows, user, symbol) && DigitsValue(shares) > Holding(l.rows, user, symbol))
            ==> r == Err(InvalidShares)
    ensures r.Ok? <==> SellAccepted(l, user, symbol, shares, lookup)
    ensures r.Ok? ==>
      var n := DigitsValue(shares);
      var q := lookup(symbol).value;
      && r.value.users == SetCash(l.users, user, l.users[user].cash + n * q.price)
      && r.value.rows == l.rows + [Row(user, symbol, q.name, -(n as int), q.price, n * q.price)]
      && r.value.nextId == l.nextId
  {
    if symbol == "" then Err(MissingSymbol)
    else if shares == "" then Err(MissingShares)
    else if !IsDigits(shares) then Err(InvalidShares)
    else if lookup(symbol).None? then Err(QuoteFailed)
    else
      var q := lookup(symbol).value;
      var n := DigitsValue(shares);
      if n < 1 then Err(InvalidShares)
      else if !HasRows(l.rows, user, symbol) then Err(NoHoldings)
      else if n > Holding(l.rows, user, symbol) then Err(InvalidShares)
      else if user !in l.users then Err(NoSuchUser)
      else
        var total := n * q.price;
        Ok(Ledger(SetCash(l.users, user, l.users[user].cash + total), l.rows + [Row(user, symbol, q.name, -(n as int), q.price, total)], l.nextId))
  }

  /**
    `/register`: add a user under a username nobody has, storing `hash`
    of the password and the opening cash the `users` table starts with.
   */
  function Register(l: Ledger, username: string, password: string, confirmation: string,
                    hash: string -> string, openingCash: nat): (r: Result<Ledger>)
    ensures username == "" ==> r == Err(MissingUsername)
    ensures username != "" && password == "" ==> r == Err(MissingPassword)
    ensures username != "" && password != "" && password != confirmation ==> r == Err(PasswordMismatch)
    ensures (username != "" && password != "" && password == confirmation && UsernameInUse(l.users, username))
            ==> r == Err(UsernameTaken)
    ensures r.Ok? <==> username != "" && password != "" && password == confirmation && !UsernameInUse(l.users, username)
    ensures r.Ok? ==>
      && r.value.users == l.users[l.nextId := Account(username, hash(password), openingCash)]
      && r.value.rows == l.rows
      && r.value.nextId > l.nextId
  {
    if username == "" then Err(MissingUsername)
    else if password == "" then Err(MissingPassword)
    else if password != confirmation then Err(PasswordMismatch)
    else if UsernameInUse(l.users, username) then Err(UsernameTaken)
    else Ok(Ledger(l.users[l.nextId := Account(username, hash(password), openingCash)], l.rows, l.nextId + 1))
  }

  /** A line of the index page: a symbol still held, its name, the summed shares and today's price. */
  datatype Position = Position(symbol: string, name: string, shares: int, price: nat)

  /** The index page: the positions, the cash, and cash plus the market value of the positions. */
  datatype Portfolio = Portfolio(positions: seq<Position>, cash: int, total: int)

  /** Quotes each held group in turn; the first symbol the quote service does not know fails the page. */
  function PricePositions(h: seq<Row>, rows: seq<Row>, user: UserId, lookup: Lookup): (r: Result<seq<Position>>)
    ensures r.Ok? <==> forall i :: 0 <= i < |h| ==> lookup(h[i].symbol).Some?
    ensures r.Err? ==> r.error == QuoteFailed
    ensures r.Ok? ==> |r.value| == |h| && forall i :: 0 <= i < |h| ==>
      r.value[i] == Position(h[i].symbol, h[i].name, Holding(rows, user, h[i].symbol), lookup(h[i].symbol).value.price)
    decreases |h|
  {
    if |h| == 0 then Ok([])
    else
      match lookup(h[0].symbol)
      case None => Err(QuoteFailed)
      case Some(q) =>
        match PricePositions(h[1..], rows, user, lookup)
        case Err(e) => Err(e)
        case Ok(ps) => Ok([Position(h[0].symbol, h[0].name, Holding(rows, user, h[0].symbol), q.price)] + ps)
  }

  /** Sum of shares times price over the positions. */
  function Worth(ps: seq<Position>): (w: int)
    decreases |ps|
  {
    if |ps| == 0 then 0 else ps[0].shares * ps[0].price + Worth(ps[1..])
  }

  /** `/`: the user's positions still held, the cash, and the total value. */
  function Index(l: Ledger, user: UserId, lookup: Lookup): (r: Result<Portfolio>)
    ensures user !in l.users ==> r == Err(NoSuchUser)
    ensures r.Ok? ==> r.value.cash == l.users[user].cash
    ensures r.Ok? ==> forall i :: 0 <= i < |r.value.positions| ==>
      && r.value.positions[i].shares == Holding(l.rows, user, r.value.positions[i].symbol) > 0
      && lookup(r.value.positions[i].symbol).Some?
      && r.value.positions[i].price == lookup(r.value.positions[i].symbol).value.price
    ensures r.Ok? ==> r.value.total == r.value.cash + Worth(r.value.positions)
  {
    if user !in l.users then Err(NoSuchUser)
    else
      var held := Held(Groups(l.rows, user), l.rows, user);
      assert forall i :: 0 <= i < |held| ==> held[i] in held;
      match PricePositions(held, l.rows, user, lookup)
      case Err(e) => Err(e)
      case Ok(ps) =>
        var cash := l.users[user].cash;
        Ok(Portfolio(ps, cash, cash + Worth(ps)))
  }
}
