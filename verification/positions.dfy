/** Position statements: a user's holdings, one row per (user, crypto).

 The `...Tx` functions are the statements the trade and registration
 transactions compose; each returns the working store or the error that
 aborts the enclosing transaction. `UpdatePosition` and `DeletePosition` are
 the public single-statement operations.
 */
module Positions {
  import opened Errors
  import opened Seqs
  import opened PositionDto
  import opened Store
  import opened Ledger

  const PositionExists := "Position already exists for crypto and user."
  const CannotDelete := "Can't delete that position."

  /** Whether the position table has a row with this id owned by this user. */
  predicate HasRow(s: Store, id: int, userId: int) {
    exists i | 0 <= i < |s.positions| :: && s.positions[i].id == id && s.positions[i].userId == userId
  }

  /** The row (id, userId), or NotFound. */
  function GetPosition(s: Store, id: int, userId: int): (r: Result<Position>)
    ensures r.Ok? <==> HasRow(s, id, userId)
    ensures r.Ok? ==> r.value in s.positions && r.value.id == id && r.value.userId == userId
    ensures r.Err? ==> r.error == NotFound(PositionNotFound)
  {
    match PositionById(s, id, userId)
    case None => Err(NotFound(PositionNotFound))
    case Some(p) => Ok(p)
  }

  /** Every row of the user, and nothing else. */
  function GetPositions(s: Store, userId: int): (r: seq<Position>)
    ensures forall i :: 0 <= i < |r| ==> r[i] in s.positions && r[i].userId == userId
    ensures forall i :: 0 <= i < |s.positions| && s.positions[i].userId == userId ==> s.positions[i] in r
  {
    PositionsOf(s, userId)
  }

  /** Inserts the user's row for a crypto: the crypto must exist and the user must not hold it yet. */
  function CreatePositionTx(s: Store, userId: int, cryptoId: int, amount: real): (r: Result<(Store, Position)>)
    ensures CryptoById(s, cryptoId).None? ==> r == Err(NotFound(CryptoNotFound))
    ensures CryptoById(s, cryptoId).Some? ==>
              (r.Err? <==> Holding(s, userId, cryptoId).Some?)
              && (r.Err? ==> r.error == BadRequest(PositionExists))
  {
    if CryptoById(s, cryptoId).None? then Err(NotFound(CryptoNotFound))
    else if Holding(s, userId, cryptoId).Some? then Err(BadRequest(PositionExists))
    else Ok(InsertPosition(s, userId, cryptoId, amount))
  }

  /** Overwrites the amount of row (id, userId); NotFound when there is no such row.
      What a successful update does is stated by `UpdateEditsRow`. */
  function UpdatePositionTx(s: Store, id: int, userId: int, amount: real): (r: Result<Store>)
    ensures r.Err? <==> !HasRow(s, id, userId)
    ensures r.Err? ==> r.error == NotFound(PositionNotFound)
  {
    if HasRow(s, id, userId) then Ok(s.(positions := SetAmount(s.positions, id, userId, amount)))
    else Err(NotFound(PositionNotFound))
  }

  /** Deletes row (id, userId) unless its crypto is the base currency.
      What a successful delete does is stated by `DeleteRemovesRow`. */
  function DeletePositionTx(s: Store, id: int, userId: int): (r: Result<Store>)
    ensures !HasRow(s, id, userId) ==> r == Err(NotFound(PositionNotFound))
    ensures r.Ok? ==> && HasRow(s, id, userId)
                      && CryptoById(s, PositionById(s, id, userId).value.cryptoId).Some?
                      && CryptoById(s, PositionById(s, id, userId).value.cryptoId).value.name != BaseCurrency
    ensures HasRow(s, id, userId) ==>
              var c := CryptoById(s, PositionById(s, id, userId).value.cryptoId);
              && (c.None? ==> r == Err(NotFound(CryptoNotFound)))
              && (c.Some? && c.value.name == BaseCurrency ==> r == Err(BadRequest(CannotDelete)))
              && (c.Some? && c.value.name != BaseCurrency ==> r == Ok(s.(positions := DeletePositionRow(s.positions, id, userId))))
  {
    var p :- GetPosition(s, id, userId);
    match CryptoById(s, p.cryptoId)
    case None => Err(NotFound(CryptoNotFound))
    case Some(c) =>
      if c.name == BaseCurrency then Err(BadRequest(CannotDelete))
      else Ok(s.(positions := DeletePositionRow(s.positions, id, userId)))
  }

  /** A successful insert appends one row with a fresh id and advances the counter; nothing else changes. */
  lemma CreateAppendsRow(s: Store, userId: int, cryptoId: int, amount: real)
    requires CreatePositionTx(s, userId, cryptoId, amount).Ok?
    ensures var (s', p) := CreatePositionTx(s, userId, cryptoId, amount).value;
            && p == Position(s.nextId, userId, cryptoId, amount)
            && s' == s.(positions := s.positions + [p], nextId := s.nextId + 1)
  {
  }

  /** A successful update rewrites the amount of the selected rows and nothing else. */
  lemma UpdateEditsRow(s: Store, id: int, userId: int, amount: real)
    requires HasRow(s, id, userId)
    ensures var s' := UpdatePositionTx(s, id, userId, amount).value;
            && s' == s.(positions := s'.positions)
            && |s'.positions| == |s.positions|
            && forall i :: 0 <= i < |s.positions| ==>
                 var p := s.positions[i];
                 var q := s'.positions[i];
                 && q.id == p.id && q.userId == p.userId && q.cryptoId == p.cryptoId
                 && q.amount == (if p.id == id && p.userId == userId then amount else p.amount)
  {
  }

  /** A successful delete removes exactly the selected rows and nothing else. */
  lemma DeleteRemovesRow(s: Store, id: int, userId: int)
    requires DeletePositionTx(s, id, userId).Ok?
    ensures var s' := DeletePositionTx(s, id, userId).value;
            && s' == s.(positions := s'.positions)
            && (forall i :: 0 <= i < |s.positions| ==>
                  (s.positions[i] in s'.positions <==> !(s.positions[i].id == id && s.positions[i].userId == userId)))
            && forall i :: 0 <= i < |s'.positions| ==> s'.positions[i] in s.positions
  {
  }

  /** The public update: sets the amount of row (id, userId) and returns the row as it now reads. */
  function UpdatePosition(s: Store, id: int, userId: int, position: Position): (o: Outcome<Position>)
    ensures o.result.Err? <==> !HasRow(s, id, userId)
    ensures o.result.Err? ==> o == Abort(s, NotFound(PositionNotFound))
    ensures o.result.Ok? ==> && o.result.value.id == id && o.result.value.userId == userId
                             && o.result.value.amount == position.amount
                             && o.result.value in o.store.positions
    ensures o.result.Ok? ==> o.store == UpdatePositionTx(s, id, userId, position.amount).value
  {
    match UpdatePositionTx(s, id, userId, position.amount)
    case Err(e) => Abort(s, e)
    case Ok(s') =>
      UpdateEditsRow(s, id, userId, position.amount);
      assert HasRow(s', id, userId) by {
        var i :| 0 <= i < |s.positions| && s.positions[i].id == id && s.positions[i].userId == userId;
        assert s'.positions[i].id == id && s'.positions[i].userId == userId;
      }
      var row := GetPosition(s', id, userId).value;
      assert row.amount == position.amount by {
        var j :| 0 <= j < |s'.positions| && s'.positions[j] == row;
      }
      Outcome(s', Ok(row))
  }

  /** The public delete: removes row (id, userId) unless it holds the base currency. */
  function DeletePosition(s: Store, id: int, userId: int): (o: Outcome<()>)
    ensures o.result.Err? ==> o.store == s
    ensures o.result.Ok? <==> DeletePositionTx(s, id, userId).Ok?
    ensures o.result.Ok? ==> o.store == DeletePositionTx(s, id, userId).value
  {
    match DeletePositionTx(s, id, userId)
    case Err(e) => Abort(s, e)
    case Ok(s') => Outcome(s', Ok(()))
  }

  // ----- the same statements seen through the balances -----

  /** An insert adds one balance for the new (user, crypto) pair and keeps one row per pair. */
  lemma CreateAddsBalance(s: Store, userId: int, cryptoId: int, amount: real)
    requires UniqueBy(s.positions, Key)
    requires CreatePositionTx(s, userId, cryptoId, amount).Ok?
    ensures var s' := CreatePositionTx(s, userId, cryptoId, amount).value.0;
            && (userId, cryptoId) !in Balances(s.positions)
            && Balances(s'.positions) == Balances(s.positions)[(userId, cryptoId) := amount]
            && UniqueBy(s'.positions, Key)
  {
    var r := CreatePositionTx(s, userId, cryptoId, amount).value;
    HoldingIsBalance(s, userId, cryptoId);
    BalancesAppend(s.positions, r.1);
    var ps := r.0.positions;
    forall i, j | 0 <= i < j < |ps| ensures Key(ps[i]) != Key(ps[j]) {
      if j == |ps| - 1 {
        BalancesDomain(s.positions, (userId, cryptoId));
        assert ps[i] == s.positions[i];
      } else {
        assert ps[i] == s.positions[i] && ps[j] == s.positions[j];
      }
    }
  }

  /** An update overwrites the balance of the updated row's pair and no other. */
  lemma UpdateSetsBalance(s: Store, id: int, userId: int, amount: real)
    requires UniqueBy(s.positions, Key) && UniqueBy(s.positions, PositionId)
    requires HasRow(s, id, userId)
    ensures var s' := UpdatePositionTx(s, id, userId, amount).value;
            var p := PositionById(s, id, userId).value;
            && Balances(s'.positions) == Balances(s.positions)[Key(p) := amount]
            && UniqueBy(s'.positions, Key) && UniqueBy(s'.positions, PositionId)
  {
    var p := PositionById(s, id, userId).value;
    var j :| 0 <= j < |s.positions| && s.positions[j] == p;
    SetAmountAt(s.positions, id, userId, amount, j);
    BalancesUpdate(s.positions, j, amount);
    var ps := s.positions[j := p.(amount := amount)];
    forall a, b | 0 <= a < b < |ps| ensures Key(ps[a]) != Key(ps[b]) && PositionId(ps[a]) != PositionId(ps[b]) {
      assert Key(ps[a]) == Key(s.positions[a]) && Key(ps[b]) == Key(s.positions[b]);
      assert PositionId(ps[a]) == PositionId(s.positions[a]) && PositionId(ps[b]) == PositionId(s.positions[b]);
    }
  }

  /** A delete removes the balance of the deleted row's pair and no other. */
  lemma DeleteDropsBalance(s: Store, id: int, userId: int)
    requires UniqueBy(s.positions, Key) && UniqueBy(s.positions, PositionId)
    requires DeletePositionTx(s, id, userId).Ok?
    ensures var s' := DeletePositionTx(s, id, userId).value;
            var p := PositionById(s, id, userId).value;
            && Balances(s'.positions) == Balances(s.positions) - {Key(p)}
            && UniqueBy(s'.positions, Key) && UniqueBy(s'.positions, PositionId)
  {
    var p := PositionById(s, id, userId).value;
    var j :| 0 <= j < |s.positions| && s.positions[j] == p;
    DeleteRowAt(s.positions, id, userId, j);
    BalancesRemove(s.positions, j);
    FilterPreservesUnique(s.positions, (q: Position) => !(q.id == id && q.userId == userId), Key);
    FilterPreservesUnique(s.positions, (q: Position) => !(q.id == id && q.userId == userId), PositionId);
  }
}
