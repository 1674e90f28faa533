/** Trade settlement: recording a trade and moving value between positions.

 `CreateTrade` resolves the user, the base-currency crypto, both of the user's
 positions, the trade type and the crypto being traded, then runs one
 transaction: the BUY or SELL legs followed by the insert of the trade row.
 Any error inside the transaction rolls all of it back. The price is the
 outcome of the external price lookup for the traded crypto, passed in.

 The positions are read before the transaction into objects that the legs
 mutate and write back. When the traded crypto is the base currency itself,
 the base-currency row and the target row are the same object, so a change
 made through one is seen through the other; `aliased` carries that fact.
 */
module Trades {
  import opened Errors
  import opened Seqs
  import opened TradeDto
  import opened PositionDto
  import opened Store
  import opened Positions

  const MinimumMessage := "Trade USD value must be greater than 10 USD."
  const NotEnoughUsd := "Not enough USD."
  const CannotSellMore := "Can't sell more than you own."

  /** Smallest trade value `CreateTrade` accepts. */
  const MinimumTrade := 10.0
  /** A SELL closes the target row when the base balance less the sold amount falls below this. */
  const DustThreshold := 2.0

  /** A BUY: spend `amount` of base currency on `amount / price` of the target crypto.
      The checks come first; `BuyLegs` is what runs once they pass. */
  function Buy(s: Store, usdPos: Option<Position>, otherPos: Option<Position>, aliased: bool,
               price: real, amount: real, cryptoId: int, userId: int): (r: Result<Store>)
    requires aliased ==> usdPos.Some? && usdPos == otherPos
    ensures usdPos.None? ==> r == Err(InternalServerError(NullReference))
    ensures usdPos.Some? && usdPos.value.amount < amount ==> r == Err(BadRequest(NotEnoughUsd))
    ensures usdPos.Some? && usdPos.value.amount >= amount && price == 0.0 ==> r == Err(InternalServerError(DivideByZero))
    ensures usdPos.Some? && usdPos.value.amount >= amount && price != 0.0
            ==> r == BuyLegs(s, usdPos.value, otherPos, aliased, amount / price, amount, cryptoId, userId)
  {
    if usdPos.None? then Err(InternalServerError(NullReference))
    else if usdPos.value.amount < amount then Err(BadRequest(NotEnoughUsd))
    else if price == 0.0 then Err(InternalServerError(DivideByZero))
    else BuyLegs(s, usdPos.value, otherPos, aliased, amount / price, amount, cryptoId, userId)
  }

  /** The statements of a BUY: credit `bought` to the target row, creating it
      when the user has none, then debit `amount` from the base row. The base
      row object is written back with the amount it holds in memory, which
      already includes the credit when it is the target row as well. */
  function BuyLegs(s: Store, usd: Position, otherPos: Option<Position>, aliased: bool,
                   bought: real, amount: real, cryptoId: int, userId: int): (r: Result<Store>)
    requires aliased ==> otherPos == Some(usd)
    ensures r.Ok? ==> r.value.cryptos == s.cryptos && r.value.users == s.users && r.value.trades == s.trades
                      && r.value.strategies == s.strategies && r.value.triggers == s.triggers
                      && r.value.nextId >= s.nextId
  {
    var s1 :- if otherPos.None? then
                var created :- CreatePositionTx(s, userId, cryptoId, bought);
                Ok(created.0)
              else UpdatePositionTx(s, otherPos.value.id, userId, otherPos.value.amount + bought);
    var usdHeld := if aliased then otherPos.value.amount + bought else usd.amount;
    UpdatePositionTx(s1, usd.id, userId, usdHeld - amount)
  }

  /** A SELL: sell `amount / price` of the target crypto for `amount` of base currency.
      The checks come first; `SellLegs` is what runs once they pass. */
  function Sell(s: Store, usdPos: Option<Position>, otherPos: Option<Position>, aliased: bool,
                price: real, amount: real, userId: int): (r: Result<Store>)
    requires aliased ==> usdPos.Some? && usdPos == otherPos
    ensures otherPos.None? ==> r == Err(BadRequest(CannotSellMore))
    ensures otherPos.Some? && price == 0.0 ==> r == Err(InternalServerError(DivideByZero))
    ensures otherPos.Some? && price != 0.0 && otherPos.value.amount < amount / price ==> r == Err(BadRequest(CannotSellMore))
    ensures otherPos.Some? && price != 0.0 && otherPos.value.amount >= amount / price && usdPos.None?
            ==> r == Err(InternalServerError(NullReference))
    ensures otherPos.Some? && price != 0.0 && otherPos.value.amount >= amount / price && usdPos.Some?
            ==> r == SellLegs(s, usdPos.value, otherPos.value, aliased, amount / price, amount, userId)
  {
    if otherPos.None? then Err(BadRequest(CannotSellMore))
    else if price == 0.0 then Err(InternalServerError(DivideByZero))
    else
      var sold := amount / price;
      if otherPos.value.amount < sold then Err(BadRequest(CannotSellMore))
      else if usdPos.None? then Err(InternalServerError(NullReference))
      else SellLegs(s, usdPos.value, otherPos.value, aliased, sold, amount, userId)
  }

  /** The statements of a SELL: close the target row when the BASE row's amount
      less `sold` is under the dust threshold, otherwise debit `sold` from it;
      then credit `amount` to the base row. */
  function SellLegs(s: Store, usd: Position, other: Position, aliased: bool,
                    sold: real, amount: real, userId: int): (r: Result<Store>)
    requires aliased ==> other == usd
    ensures r.Ok? ==> r.value.cryptos == s.cryptos && r.value.users == s.users && r.value.trades == s.trades
                      && r.value.strategies == s.strategies && r.value.triggers == s.triggers
                      && r.value.nextId >= s.nextId
  {
    if usd.amount - sold < DustThreshold then CloseLegs(s, usd, other, amount, userId)
    else ReduceLegs(s, usd, other, aliased, sold, amount, userId)
  }

  /** Delete the target row, then credit `amount` to the base row. */
  function CloseLegs(s: Store, usd: Position, other: Position, amount: real, userId: int): (r: Result<Store>)
    ensures r.Ok? ==> r.value.cryptos == s.cryptos && r.value.users == s.users && r.value.trades == s.trades
                      && r.value.strategies == s.strategies && r.value.triggers == s.triggers
                      && r.value.nextId >= s.nextId
  {
    var s1 :- DeletePositionTx(s, other.id, userId);
    UpdatePositionTx(s1, usd.id, userId, usd.amount + amount)
  }

  /** Debit `sold` from the target row, then credit `amount` to the base row as held in memory. */
  function ReduceLegs(s: Store, usd: Position, other: Position, aliased: bool,
                      sold: real, amount: real, userId: int): (r: Result<Store>)
    requires aliased ==> other == usd
    ensures r.Ok? ==> r.value.cryptos == s.cryptos && r.value.users == s.users && r.value.trades == s.trades
                      && r.value.strategies == s.strategies && r.value.triggers == s.triggers
                      && r.value.nextId >= s.nextId
  {
    var s1 :- UpdatePositionTx(s, other.id, userId, other.amount - sold);
    var usdHeld := if aliased then other.amount - sold else usd.amount;
    UpdatePositionTx(s1, usd.id, userId, usdHeld + amount)
  }

  /** SELL with the dust check on the TARGET row, as evidently intended: the
      target row is closed when what would be left of IT is under the dust
      threshold. Same checks and legs as `Sell` otherwise. */
  function SellIntended(s: Store, usdPos: Option<Position>, otherPos: Option<Position>, aliased: bool,
                        price: real, amount: real, userId: int): (r: Result<Store>)
    requires aliased ==> usdPos.Some? && usdPos == otherPos
    ensures otherPos.None? ==> r == Err(BadRequest(CannotSellMore))
    ensures otherPos.Some? && price == 0.0 ==> r == Err(InternalServerError(DivideByZero))
    ensures otherPos.Some? && price != 0.0 && otherPos.value.amount < amount / price ==> r == Err(BadRequest(CannotSellMore))
    ensures otherPos.Some? && price != 0.0 && otherPos.value.amount >= amount / price && usdPos.None?
            ==> r == Err(InternalServerError(NullReference))
    ensures otherPos.Some? && price != 0.0 && otherPos.value.amount >= amount / price && usdPos.Some?
            ==> r == SellLegsIntended(s, usdPos.value, otherPos.value, aliased, amount / price, amount, userId)
  {
    if otherPos.None? then Err(BadRequest(CannotSellMore))
    else if price == 0.0 then Err(InternalServerError(DivideByZero))
    else
      var sold := amount / price;
      if otherPos.value.amount < sold then Err(BadRequest(CannotSellMore))
      else if usdPos.None? then Err(InternalServerError(NullReference))
      else SellLegsIntended(s, usdPos.value, otherPos.value, aliased, sold, amount, userId)
  }

  /** The legs of `SellIntended`: close the target row when the target amount
      less `sold` is under the dust threshold, otherwise debit `sold` from it. */
  function SellLegsIntended(s: Store, usd: Position, other: Position, aliased: bool,
                            sold: real, amount: real, userId: int): (r: Result<Store>)
    requires aliased ==> other == usd
    ensures r.Ok? ==> r.value.cryptos == s.cryptos && r.value.users == s.users && r.value.trades == s.trades
                      && r.value.strategies == s.strategies && r.value.triggers == s.triggers
                      && r.value.nextId >= s.nextId
  {
    if other.amount - sold < DustThreshold then CloseLegs(s, usd, other, amount, userId)
    else ReduceLegs(s, usd, other, aliased, sold, amount, userId)
  }

  /** What the transaction does with the positions for a trade of the given type. */
  function Legs(s: Store, tradeType: Named, usdPos: Option<Position>, otherPos: Option<Position>, aliased: bool,
                price: real, t: Trade, userId: int): (r: Result<Store>)
    requires aliased ==> usdPos.Some? && usdPos == otherPos
    ensures r.Ok? ==> r.value.cryptos == s.cryptos && r.value.users == s.users && r.value.trades == s.trades
                      && r.value.strategies == s.strategies && r.value.triggers == s.triggers
                      && r.value.nextId >= s.nextId
  {
    if tradeType.name == BuyName then Buy(s, usdPos, otherPos, aliased, price, t.amount, t.cryptoId, userId)
    else if tradeType.name == SellName then Sell(s, usdPos, otherPos, aliased, price, t.amount, userId)
    else Ok(s)
  }

  /** Records trade `t` for `userId` at time `now`, settling it at `price`. */
  function CreateTrade(s: Store, userId: int, t: Trade, price: Result<real>, now: int): (o: Outcome<Trade>)
    ensures o.result.Err? ==> o.store == s
    ensures t.amount < MinimumTrade ==> o == Abort(s, BadRequest(MinimumMessage))
    ensures t.amount >= MinimumTrade && UserById(s, userId).None? ==> o == Abort(s, NotFound(UserIdNotFound))
    ensures t.amount >= MinimumTrade && UserById(s, userId).Some? && BaseCrypto(s).None? && |PositionsOf(s, userId)| > 0
            ==> o == Abort(s, InternalServerError(NullReference))
    ensures o.result.Ok? ==>
              && t.amount >= MinimumTrade
              && UserById(s, userId).Some? && CryptoById(s, t.cryptoId).Some? && price.Ok?
              && TradeTypeById(s, t.tradeTypeId).Some?
              && o.result.value.userId == userId && o.result.value.cryptoId == t.cryptoId
              && o.result.value.amount == t.amount && o.result.value.tradeTypeId == t.tradeTypeId
              && o.result.value.tradeTime == now && o.result.value.id >= s.nextId
              && o.store.trades == s.trades + [o.result.value]
              && o.store.nextId > o.result.value.id
              && o.store.cryptos == s.cryptos && o.store.users == s.users
              && o.store.strategies == s.strategies && o.store.triggers == s.triggers
  {
    if t.amount < MinimumTrade then Abort(s, BadRequest(MinimumMessage))
    else if UserById(s, userId).None? then Abort(s, NotFound(UserIdNotFound))
    else
      var usd := BaseCrypto(s);
      // Without a base-currency crypto, the searches of the user's positions
      // dereference it only when there is a position to test.
      if usd.None? && |PositionsOf(s, userId)| > 0 then Abort(s, InternalServerError(NullReference))
      else
        var usdPos := if usd.None? then None else Holding(s, userId, usd.value.id);
        var otherPos := if usd.None? then None else Holding(s, userId, t.cryptoId);
        match TradeTypeById(s, t.tradeTypeId)
        case None => Abort(s, NotFound(TradeTypeNotFound))
        case Some(tradeType) =>
          if CryptoById(s, t.cryptoId).None? then Abort(s, NotFound(CryptoNotFound))
          else match price
          case Err(e) => Abort(s, e)
          case Ok(p) =>
            var aliased := usd.Some? && usd.value.id == t.cryptoId && usdPos.Some?;
            match Legs(s, tradeType, usdPos, otherPos, aliased, p, t, userId)
            case Err(e) => Abort(s, e)
            case Ok(s1) =>
              var (s2, row) := InsertTrade(s1, userId, t.cryptoId, now, t.amount, tradeType.id);
              Outcome(s2, Ok(row))
  }

  /** The row (id, userId) of the trade table, or NotFound. */
  function GetTrade(s: Store, id: int, userId: int): (r: Result<Trade>)
    ensures r.Ok? ==> r.value in s.trades && r.value.id == id && r.value.userId == userId
    ensures r.Err? <==> forall i :: 0 <= i < |s.trades| ==> !(s.trades[i].id == id && s.trades[i].userId == userId)
    ensures r.Err? ==> r.error == NotFound(TradeNotFound)
  {
    match TradeById(s, id, userId)
    case None => Err(NotFound(TradeNotFound))
    case Some(x) => Ok(x)
  }

  /** Every trade of the user, and nothing else. */
  function GetTrades(s: Store, userId: int): (r: seq<Trade>)
    ensures forall i :: 0 <= i < |r| ==> r[i] in s.trades && r[i].userId == userId
    ensures forall i :: 0 <= i < |s.trades| && s.trades[i].userId == userId ==> s.trades[i] in r
  {
    TradesOf(s, userId)
  }

  /** Deletes trade row (id, userId); the positions are not touched. */
  function DeleteTrade(s: Store, id: int, userId: int): (o: Outcome<()>)
    ensures o.result.Err? <==> GetTrade(s, id, userId).Err?
    ensures o.result.Err? ==> o == Abort(s, NotFound(TradeNotFound))
    ensures o.result.Ok? ==> o.store == s.(trades := o.store.trades)
    ensures o.result.Ok? ==> forall i :: 0 <= i < |s.trades| ==>
              (s.trades[i] in o.store.trades <==> !(s.trades[i].id == id && s.trades[i].userId == userId))
    ensures o.result.Ok? ==> forall i :: 0 <= i < |o.store.trades| ==> o.store.trades[i] in s.trades
  {
    match GetTrade(s, id, userId)
    case Err(e) => Abort(s, e)
    case Ok(_) => Outcome(s.(trades := Filter(s.trades, (x: Trade) => !(x.id == id && x.userId == userId))), Ok(()))
  }
}
