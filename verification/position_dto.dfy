/** The position record: a row of the `position` table and the body of a position update. */
module PositionDto {
  import opened Errors
  import opened Validation

  /** One user's holding of one crypto. */
  datatype Position = Position(id: int, userId: int, cryptoId: int, amount: real)

  const IdMessage := "Id must be positive."
  const UserIdMessage := "User id must be positive."
  const CryptoIdMessage := "Crypto id must be positive."
  const NegativeMessage := "Amount can't be negative."
  /** The message names 100000 while the check that raises it is `amount > 10000`. */
  const TooLargeMessage := "Amount can't be greater than 100000."

  /** The checks of `Validate` in declaration order, each stated as the range it admits. */
  function Rules(p: Position): seq<Rule> {
    [ Rule(p.id >= 0, IdMessage),
      Rule(p.userId >= 0, UserIdMessage),
      Rule(p.cryptoId >= 0, CryptoIdMessage),
      Rule(p.amount >= 0.0, NegativeMessage),
      Rule(p.amount <= 10000.0, TooLargeMessage) ]
  }

  function Validate(p: Position): (r: Result<Position>)
    ensures r.Ok? <==> p.id >= 0 && p.userId >= 0 && p.cryptoId >= 0 && 0.0 <= p.amount <= 10000.0
    ensures r.Ok? ==> r.value == p
    ensures r == Verdict(Rules(p), p)
  {
    if p.id != 0 && p.id < 1 then
      FirstViolationAt(Rules(p), 0);
      Err(BadRequest(IdMessage))
    else if p.userId != 0 && p.userId < 1 then
      FirstViolationAt(Rules(p), 1);
      Err(BadRequest(UserIdMessage))
    else if p.cryptoId != 0 && p.cryptoId < 1 then
      FirstViolationAt(Rules(p), 2);
      Err(BadRequest(CryptoIdMessage))
    else if p.amount < 0.0 then
      FirstViolationAt(Rules(p), 3);
      Err(BadRequest(NegativeMessage))
    else if p.amount > 10000.0 then
      FirstViolationAt(Rules(p), 4);
      Err(BadRequest(TooLargeMessage))
    else Ok(p)
  }

  /** 0 and 10000 pass; anything above 10000, such as 10000.01, is rejected. */
  lemma AmountBoundaries(p: Position)
    requires p.id >= 0 && p.userId >= 0 && p.cryptoId >= 0
    ensures Validate(p.(amount := 0.0)).Ok? && Validate(p.(amount := 10000.0)).Ok?
    ensures Validate(p.(amount := -0.01)) == Err(BadRequest(NegativeMessage))
    ensures Validate(p.(amount := 10000.01)) == Err(BadRequest(TooLargeMessage))
  {
  }
}
