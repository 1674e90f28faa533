/** The relational store the data layer works on, as an immutable value.

 Each table is a sequence of rows in storage order. A `select` is a lookup
 returning the first matching row, a `where`-filtered listing or nothing; an
 `insert` appends a row whose id is drawn from `nextId`, the fresh-id counter
 standing for the auto-increment value `LAST_INSERT_ID()` reports; `update`
 and `delete` act on every row their `where` clause selects. The reference
 tables (cryptos and the four small enumerations) are never written.
 */
module Store {
  import opened Errors
  import opened Seqs
  import opened TradeDto
  import opened PositionDto
  import opened TriggerDto

  /** Name of the crypto that serves as the base currency (Database.cs:19). */
  const BaseCurrency := "Tether"
  /** Amount of base currency every new user starts with. */
  const Endowment := 1000.0
  /** Status id written for a new user. */
  const InitialStatusId := 1

  const BuyName := "BUY"
  const SellName := "SELL"
  const UnverifiedName := "UNVERIFIED"
  const VerifiedName := "VERIFIED"

  datatype Crypto = Crypto(id: int, ticker: string, name: string)

  /** A row of an enumeration table: trade type, status, indicator or trigger type. */
  datatype Named = Named(id: int, name: string)

  /** A user row; `password` holds the salted hash, never the password itself. */
  datatype User = User(id: int, username: string, password: string, email: string,
                       dateCreated: int, salt: string, statusId: int)

  datatype Strategy = Strategy(id: int, name: string, userId: int)

  datatype Store = Store(
    cryptos: seq<Crypto>,
    tradeTypes: seq<Named>,
    statuses: seq<Named>,
    indicators: seq<Named>,
    triggerTypes: seq<Named>,
    users: seq<User>,
    positions: seq<Position>,
    trades: seq<Trade>,
    strategies: seq<Strategy>,
    triggers: seq<Trigger>,
    nextId: int)

  /** The store after an operation together with what the operation returned or threw. */
  datatype Outcome<T> = Outcome(store: Store, result: Result<T>)

  /** An operation that throws leaves the store as it found it. */
  function Abort<T>(s: Store, e: Error): Outcome<T> {
    Outcome(s, Err(e))
  }

  /** Ends a transaction begun on `s`: commit the work, or roll back to `s`. */
  function Settle<T>(s: Store, work: Result<(Store, T)>): (o: Outcome<T>)
    ensures o.result.Ok? <==> work.Ok?
    ensures work.Err? ==> o.store == s && o.result.error == work.error
    ensures work.Ok? ==> o.store == work.value.0 && o.result.value == work.value.1
  {
    match work
    case Ok((s', v)) => Outcome(s', Ok(v))
    case Err(e) => Outcome(s, Err(e))
  }

  // ----- messages of the lookups that throw NotFound -----

  const CryptoNotFound := "Crypto with specified id not found"
  const TradeTypeNotFound := "Trade type with specified id not found"
  const IndicatorNotFound := "Indicator with specified id not found"
  const TriggerTypeNotFound := "Trigger type with specified id not found"
  const UserIdNotFound := "User with specified id not found"
  const UsernameNotFound := "User with specified username not found"
  const PositionNotFound := "Position with specified id and userId not found"
  const TradeNotFound := "Trade with specified id and userId not found"
  const StrategyNotFound := "Strategy with specified id and userId not found"

  // ----- reference data -----

  function CryptoById(s: Store, id: int): Option<Crypto> {
    First(s.cryptos, (c: Crypto) => c.id == id)
  }

  /** The base-currency crypto: the first crypto named Tether. */
  function BaseCrypto(s: Store): Option<Crypto> {
    First(s.cryptos, (c: Crypto) => c.name == BaseCurrency)
  }

  function TradeTypeById(s: Store, id: int): Option<Named> {
    First(s.tradeTypes, (t: Named) => t.id == id)
  }

  function StatusById(s: Store, id: int): Option<Named> {
    First(s.statuses, (t: Named) => t.id == id)
  }

  function StatusByName(s: Store, name: string): Option<Named> {
    First(s.statuses, (t: Named) => t.name == name)
  }

  function IndicatorById(s: Store, id: int): Option<Named> {
    First(s.indicators, (t: Named) => t.id == id)
  }

  function TriggerTypeById(s: Store, id: int): Option<Named> {
    First(s.triggerTypes, (t: Named) => t.id == id)
  }

  // ----- users -----

  function UserById(s: Store, id: int): Option<User> {
    First(s.users, (u: User) => u.id == id)
  }

  function UserByName(s: Store, username: string): Option<User> {
    First(s.users, (u: User) => u.username == username)
  }

  function UserByEmail(s: Store, email: string): Option<User> {
    First(s.users, (u: User) => u.email == email)
  }

  /** The user a username and stored password hash select together. */
  function UserByCredentials(s: Store, username: string, hashed: string): Option<User> {
    First(s.users, (u: User) => u.username == username && u.password == hashed)
  }

  function InsertUser(s: Store, username: string, password: string, email: string,
                      now: int, salt: string, statusId: int): (Store, User)
  {
    var u := User(s.nextId, username, password, email, now, salt, statusId);
    (s.(users := s.users + [u], nextId := s.nextId + 1), u)
  }

  function SetUserName(s: Store, id: int, username: string): Store {
    s.(users := seq(|s.users|, i requires 0 <= i < |s.users| =>
         if s.users[i].id == id then s.users[i].(username := username) else s.users[i]))
  }

  function SetUserStatus(s: Store, id: int, statusId: int): Store {
    s.(users := seq(|s.users|, i requires 0 <= i < |s.users| =>
         if s.users[i].id == id then s.users[i].(statusId := statusId) else s.users[i]))
  }

  function DeleteUserRow(s: Store, id: int): Store {
    s.(users := Filter(s.users, (u: User) => u.id != id))
  }

  // ----- positions -----

  /** The row `where id = id and userId = userId`. */
  function PositionById(s: Store, id: int, userId: int): Option<Position> {
    First(s.positions, (p: Position) => p.id == id && p.userId == userId)
  }

  /** The user's row for one crypto, the row `Find` picks from the user's positions. */
  function Holding(s: Store, userId: int, cryptoId: int): Option<Position> {
    First(s.positions, (p: Position) => p.userId == userId && p.cryptoId == cryptoId)
  }

  function PositionsOf(s: Store, userId: int): seq<Position> {
    Filter(s.positions, (p: Position) => p.userId == userId)
  }

  function InsertPosition(s: Store, userId: int, cryptoId: int, amount: real): (Store, Position) {
    var p := Position(s.nextId, userId, cryptoId, amount);
    (s.(positions := s.positions + [p], nextId := s.nextId + 1), p)
  }

  function SetAmount(ps: seq<Position>, id: int, userId: int, amount: real): seq<Position> {
    seq(|ps|, i requires 0 <= i < |ps| =>
      if ps[i].id == id && ps[i].userId == userId then ps[i].(amount := amount) else ps[i])
  }

  function DeletePositionRow(ps: seq<Position>, id: int, userId: int): seq<Position> {
    Filter(ps, (p: Position) => !(p.id == id && p.userId == userId))
  }

  // ----- trades -----

  function TradeById(s: Store, id: int, userId: int): Option<Trade> {
    First(s.trades, (t: Trade) => t.id == id && t.userId == userId)
  }

  function TradesOf(s: Store, userId: int): seq<Trade> {
    Filter(s.trades, (t: Trade) => t.userId == userId)
  }

  function InsertTrade(s: Store, userId: int, cryptoId: int, now: int, amount: real, tradeTypeId: int): (Store, Trade) {
    var t := Trade(s.nextId, userId, cryptoId, now, amount, tradeTypeId);
    (s.(trades := s.trades + [t], nextId := s.nextId + 1), t)
  }

  // ----- strategies and triggers -----

  function StrategyById(s: Store, id: int, userId: int): Option<Strategy> {
    First(s.strategies, (st: Strategy) => st.id == id && st.userId == userId)
  }

  function StrategyByName(s: Store, name: string): Option<Strategy> {
    First(s.strategies, (st: Strategy) => st.name == name)
  }

  function StrategiesOf(s: Store, userId: int): seq<Strategy> {
    Filter(s.strategies, (st: Strategy) => st.userId == userId)
  }

  function TriggerFor(s: Store, strategyId: int, indicatorId: int): Option<Trigger> {
    First(s.triggers, (t: Trigger) => t.strategyId == strategyId && t.indicatorId == indicatorId)
  }

  function TriggersOf(s: Store, strategyId: int): seq<Trigger> {
    Filter(s.triggers, (t: Trigger) => t.strategyId == strategyId)
  }
}
