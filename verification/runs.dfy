/**
  Any sequence of requests against the ledger. A rejected request leaves
  the ledger as it was (the route answers with an apology page and writes
  nothing); an accepted one is applied in full. Each trade carries the
  quotes of its own moment, so prices may move between requests.
 */
module Runs {
  import opened Wrappers
  import opened Store
  import opened Finance
  import opened Properties

  /** A POST to one of the mutating routes, with the form fields as typed. */
  datatype Request =
    | RegisterUser(username: string, password: string, confirmation: string)
    | AddCash(user: UserId, amount: string)
    | BuyShares(user: UserId, symbol: string, shares: string, market: Lookup)
    | SellShares(user: UserId, symbol: string, shares: string, market: Lookup)

  /** The deployment's fixed parts: the password hash function and the cash a new account opens with. */
  datatype Setup = Setup(hash: string -> string, openingCash: nat)

  function Apply(l: Ledger, req: Request, setup: Setup): (r: Result<Ledger>) {
    match req
    case RegisterUser(name, password, confirmation) => Register(l, name, password, confirmation, setup.hash, setup.openingCash)
    case AddCash(user, amount) => Deposit(l, user, amount)
    case BuyShares(user, symbol, shares, market) => Buy(l, user, symbol, shares, market)
    case SellShares(user, symbol, shares, market) => Sell(l, user, symbol, shares, market)
  }

  /** The ledger after one request: the new one if it was accepted, the same one otherwise. */
  function Step(l: Ledger, req: Request, setup: Setup): (l': Ledger) {
    match Apply(l, req, setup)
    case Ok(l') => l'
    case Err(_) => l
  }

  function Run(l: Ledger, reqs: seq<Request>, setup: Setup): (l': Ledger)
    decreases |reqs|
  {
    if |reqs| == 0 then l else Run(Step(l, reqs[0], setup), reqs[1..], setup)
  }

  /** The request is made on behalf of `user` (registration is made on behalf of nobody yet). */
  predicate ActsFor(req: Request, user: UserId) {
    match req
    case RegisterUser(_, _, _) => false
    case AddCash(u, _) => u == user
    case BuyShares(u, _, _, _) => u == user
    case SellShares(u, _, _, _) => u == user
  }

  /** The ledger the routes start from: no users, no trades, the first id is 1. */
  function Empty(): (l: Ledger)
    ensures Valid(l)
  {
    Ledger(map[], [], 1)
  }

  lemma StepPreservesValid(l: Ledger, req: Request, setup: Setup)
    requires Valid(l)
    ensures Valid(Step(l, req, setup))
  {
    if Apply(l, req, setup).Ok? {
      match req
      case RegisterUser(name, password, confirmation) =>
        RegisterPreservesValid(l, name, password, confirmation, setup.hash, setup.openingCash);
      case AddCash(user, amount) => DepositPreservesValid(l, user, amount);
      case BuyShares(user, symbol, shares, market) => BuyPreservesValid(l, user, symbol, shares, market);
      case SellShares(user, symbol, shares, market) => SellPreservesValid(l, user, symbol, shares, market);
    }
  }

  /**
    Whatever requests arrive, in whatever order and at whatever prices, no
    cash balance goes negative, no holding goes negative, usernames stay
    unique and every trade stays well formed.
   */
  lemma {:induction false} RunPreservesValid(l: Ledger, reqs: seq<Request>, setup: Setup)
    requires Valid(l)
    ensures Valid(Run(l, reqs, setup))
    decreases |reqs|
  {
    if |reqs| > 0 {
      StepPreservesValid(l, reqs[0], setup);
      RunPreservesValid(Step(l, reqs[0], setup), reqs[1..], setup);
    }
  }

  /** Every account reachable from the empty ledger satisfies the invariant. */
  lemma Reachable(reqs: seq<Request>, setup: Setup)
    ensures Valid(Run(Empty(), reqs, setup))
  {
    RunPreservesValid(Empty(), reqs, setup);
  }

  /** One request keeps the existing trades and the accounts of everyone it does not act for. */
  lemma StepFrames(l: Ledger, req: Request, setup: Setup, user: UserId)
    requires Valid(l) && user in l.users && !ActsFor(req, user)
    ensures var l' := Step(l, req, setup);
      && user in l'.users && l'.users[user] == l.users[user]
      && History(l'.rows, user) == History(l.rows, user)
      && Book(l', user) == Book(l, user)
      && |l.rows| <= |l'.rows| && l'.rows[..|l.rows|] == l.rows
  {
    if Apply(l, req, setup).Ok? {
      var l' := Apply(l, req, setup).value;
      assert Step(l, req, setup) == l';
      match req
      case RegisterUser(name, password, confirmation) =>
        RegisterFresh(l, name, password, confirmation, setup.hash, setup.openingCash);
      case AddCash(u, amount) =>
        DepositAddsToBook(l, u, amount);
      case BuyShares(u, symbol, shares, market) =>
        BuyAccounting(l, u, symbol, shares, market);
        OthersKeepBook(l, l', u, user);
      case SellShares(u, symbol, shares, market) =>
        SellAccounting(l, u, symbol, shares, market);
        OthersKeepBook(l, l', u, user);
    }
  }

  /** A trade by `u` does not move the book value of anyone else. */
  lemma OthersKeepBook(l: Ledger, l': Ledger, u: UserId, user: UserId)
    requires AppendedFor(l, l', u) && OthersUntouched(l, l', u)
    requires user in l.users && user != u
    ensures user in l'.users && Book(l', user) == Book(l, user)
  {
    if |l'.rows| == |l.rows| {
      assert l'.rows == l.rows;
    } else {
      var r := l'.rows[|l.rows|];
      assert l'.rows == l.rows + [r];
      CostBasisAppend(l.rows, r, user);
    }
  }

  /**
    Requests made for other users never change this user's account or
    trade history, and the trade log only ever grows at the end.
   */
  lemma {:induction false} RunIsolation(l: Ledger, reqs: seq<Request>, setup: Setup, user: UserId)
    requires Valid(l) && user in l.users
    requires forall k :: 0 <= k < |reqs| ==> !ActsFor(reqs[k], user)
    ensures var l' := Run(l, reqs, setup);
      && user in l'.users && l'.users[user] == l.users[user]
      && History(l'.rows, user) == History(l.rows, user)
      && |l.rows| <= |l'.rows| && l'.rows[..|l.rows|] == l.rows
    decreases |reqs|
  {
    if |reqs| > 0 {
      var l1 := Step(l, reqs[0], setup);
      StepFrames(l, reqs[0], setup, user);
      StepPreservesValid(l, reqs[0], setup);
      RunIsolation(l1, reqs[1..], setup, user);
      var l' := Run(l, reqs, setup);
      assert l'.rows[..|l.rows|] == l'.rows[..|l1.rows|][..|l.rows|];
    }
  }

  /** Only deposits change a user's book value: buying and selling exchange cash and shares at cost. */
  lemma {:induction false} RunConservesBook(l: Ledger, reqs: seq<Request>, setup: Setup, user: UserId)
    requires Valid(l) && user in l.users
    requires forall k :: 0 <= k < |reqs| ==> !reqs[k].AddCash?
    ensures user in Run(l, reqs, setup).users
    ensures Book(Run(l, reqs, setup), user) == Book(l, user)
    decreases |reqs|
  {
    if |reqs| > 0 {
      var l1 := Step(l, reqs[0], setup);
      if ActsFor(reqs[0], user) && Apply(l, reqs[0], setup).Ok? {
        match reqs[0]
        case BuyShares(u, symbol, shares, market) => BuyAccounting(l, u, symbol, shares, market);
        case SellShares(u, symbol, shares, market) => SellAccounting(l, u, symbol, shares, market);
      } else if !ActsFor(reqs[0], user) {
        StepFrames(l, reqs[0], setup, user);
      }
      StepPreservesValid(l, reqs[0], setup);
      RunConservesBook(l1, reqs[1..], setup, user);
    }
  }
}
