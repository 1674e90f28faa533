/** The trade record: a row of the `trade` table and the body of a trade request. */
module TradeDto {
  import opened Errors
  import opened Validation

  /** `tradeTime` is a point in time as a tick count; `amount` is the trade's
      value in the base currency. */
  datatype Trade = Trade(id: int, userId: int, cryptoId: int, tradeTime: int, amount: real, tradeTypeId: int)

  const IdMessage := "Id must be positive."
  const UserIdMessage := "User id must be positive."
  const CryptoIdMessage := "Crypto id must be positive."
  const AmountMessage := "Trade USD value must be between 10 and 100000."
  const TradeTypeIdMessage := "Trade type id must be positive."

  /** The checks of `Validate` in declaration order, each stated as the range it admits. */
  function Rules(t: Trade): seq<Rule> {
    [ Rule(t.id >= 0, IdMessage),
      Rule(t.userId >= 0, UserIdMessage),
      Rule(t.cryptoId >= 0, CryptoIdMessage),
      Rule(10.0 <= t.amount <= 100000.0, AmountMessage),
      Rule(t.tradeTypeId >= 0, TradeTypeIdMessage) ]
  }

  /** Range checks run before a request reaches the data layer. An id check
      rejects a value that is "not 0 and below 1", that is, a negative one. */
  function Validate(t: Trade): (r: Result<Trade>)
    ensures r.Ok? <==> t.id >= 0 && t.userId >= 0 && t.cryptoId >= 0
                       && 10.0 <= t.amount <= 100000.0 && t.tradeTypeId >= 0
    ensures r.Ok? ==> r.value == t
    ensures r == Verdict(Rules(t), t)
  {
    if t.id != 0 && t.id < 1 then
      FirstViolationAt(Rules(t), 0);
      Err(BadRequest(IdMessage))
    else if t.userId != 0 && t.userId < 1 then
      FirstViolationAt(Rules(t), 1);
      Err(BadRequest(UserIdMessage))
    else if t.cryptoId != 0 && t.cryptoId < 1 then
      FirstViolationAt(Rules(t), 2);
      Err(BadRequest(CryptoIdMessage))
    else if t.amount < 10.0 || t.amount > 100000.0 then
      FirstViolationAt(Rules(t), 3);
      Err(BadRequest(AmountMessage))
    else if t.tradeTypeId != 0 && t.tradeTypeId < 1 then
      FirstViolationAt(Rules(t), 4);
      Err(BadRequest(TradeTypeIdMessage))
    else Ok(t)
  }

  /** The amount bounds are inclusive: 10 and 100000 pass, 9.99 and 100000.01 do not. */
  lemma AmountBoundaries(t: Trade)
    requires t.id >= 0 && t.userId >= 0 && t.cryptoId >= 0 && t.tradeTypeId >= 0
    ensures Validate(t.(amount := 10.0)).Ok? && Validate(t.(amount := 100000.0)).Ok?
    ensures Validate(t.(amount := 9.99)) == Err(BadRequest(AmountMessage))
    ensures Validate(t.(amount := 100000.01)) == Err(BadRequest(AmountMessage))
  {
  }
}
