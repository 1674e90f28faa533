/** What one `CreateTrade` call does to the ledger and to the trade table.

 `CreateTrade` is the BUY or SELL legs followed by the insert of the trade row,
 all in one transaction. The lemmas here lift the settlement lemmas about the
 legs to the whole call: the balances move as the legs say, the trade row is
 appended, a failing leg leaves the store as it was, and the position table
 stays well formed.
 */
module Trading {
  import opened Errors
  import opened TradeDto
  import opened PositionDto
  import opened Store
  import opened Ledger
  import opened Trades
  import opened Positions
  import opened Settlement

  /** The trade row a successful `CreateTrade` inserts after the legs have left store `s1`. */
  function Recorded(s1: Store, userId: int, t: Trade, typeId: int, now: int): Trade {
    Trade(s1.nextId, userId, t.cryptoId, now, t.amount, typeId)
  }

  /** Once every lookup has succeeded, finding base crypto `usd` and trade
      type `tt`, `CreateTrade` is its legs followed by the insert of the trade
      row; an error in the legs rolls everything back. */
  lemma TradeRunsLegs(s: Store, userId: int, t: Trade, p: real, now: int, usd: Crypto, tt: Named)
    requires t.amount >= MinimumTrade && UserById(s, userId).Some? && BaseCrypto(s) == Some(usd)
    requires TradeTypeById(s, t.tradeTypeId) == Some(tt) && CryptoById(s, t.cryptoId).Some?
    ensures var h := Holding(s, userId, usd.id);
            var legs := Legs(s, tt, h, Holding(s, userId, t.cryptoId), usd.id == t.cryptoId && h.Some?, p, t, userId);
            var o := CreateTrade(s, userId, t, Ok(p), now);
            && tt.id == t.tradeTypeId
            && (o.result.Ok? <==> legs.Ok?)
            && (legs.Err? ==> o == Abort(s, legs.error))
            && (legs.Ok? ==> && o.result.value == Recorded(legs.value, userId, t, tt.id, now)
                             && o.store.positions == legs.value.positions && o.store.nextId == legs.value.nextId + 1
                             && o.store.trades == s.trades + [o.result.value])
  {
  }

  /** A store whose positions are those of a well-formed store and whose counter
      has only moved on is well formed, with the same balances. */
  lemma LedgerLater(s1: Store, s2: Store)
    requires LedgerReady(s1) && s2.positions == s1.positions && s2.nextId >= s1.nextId
    ensures LedgerReady(s2) && Balances(s2.positions) == Balances(s1.positions)
  {
    forall i | 0 <= i < |s2.positions| ensures s2.positions[i].id < s2.nextId {
      assert s2.positions[i] == s1.positions[i];
    }
    forall a, b | 0 <= a < b < |s2.positions| ensures RowsDistinct(s2.positions, a, b) {
      assert RowsDistinct(s1.positions, a, b);
    }
  }

  /** A BUY, as one `CreateTrade` call, of trade `t` for `amount` of the base
      currency `usd` (id `usdId`) paid into crypto `cryptoId`, another crypto:
      refused, with nothing written, when the user's base-currency balance does
      not cover it; otherwise the two balances move and the trade row is appended. */
  lemma TradeBuySettles(s: Store, userId: int, t: Trade, p: real, now: int, usd: Crypto, tt: Named,
                        usdId: int, cryptoId: int, amount: real)
    requires usdId == usd.id && cryptoId == t.cryptoId && amount == t.amount
    requires LedgerReady(s) && p != 0.0 && amount >= MinimumTrade && UserById(s, userId).Some?
    requires BaseCrypto(s) == Some(usd) && usdId != cryptoId && Holding(s, userId, usdId).Some?
    requires TradeTypeById(s, t.tradeTypeId) == Some(tt) && tt.name == BuyName && CryptoById(s, cryptoId).Some?
    ensures var b := Balances(s.positions);
            var kU := (userId, usdId);
            var kC := (userId, cryptoId);
            var o := CreateTrade(s, userId, t, Ok(p), now);
            && kU in b
            && (o.result.Ok? <==> b[kU] >= amount)
            && (o.result.Err? ==> o == Abort(s, BadRequest(NotEnoughUsd)))
            && (o.result.Ok? ==> && LedgerReady(o.store) && o.store.trades == s.trades + [o.result.value]
                                 && Balances(o.store.positions) == b[kC := Held(b, kC) + amount / p][kU := b[kU] - amount])
  {
    BuySettles(s, userId, usdId, cryptoId, p, amount);
    TradeRunsLegs(s, userId, t, p, now, usd, tt);
    if Buy(s, Holding(s, userId, usdId), Holding(s, userId, cryptoId), false, p, amount, cryptoId, userId).Ok? {
      LedgerLater(Buy(s, Holding(s, userId, usdId), Holding(s, userId, cryptoId), false, p, amount, cryptoId, userId).value,
                  CreateTrade(s, userId, t, Ok(p), now).store);
    }
  }

  /** A SELL, as one `CreateTrade` call, of `amount / p` of crypto `cryptoId`
      (not a base-currency crypto) for `amount` of the base currency: refused
      unless the user holds enough of it; otherwise the base-currency balance is
      credited and the crypto balance debited, its row deleted when the
      base-currency balance less the amount sold is under the dust threshold. */
  lemma TradeSellSettles(s: Store, userId: int, t: Trade, p: real, now: int, usd: Crypto, tt: Named,
                         usdId: int, cryptoId: int, amount: real)
    requires usdId == usd.id && cryptoId == t.cryptoId && amount == t.amount
    requires LedgerReady(s) && p != 0.0 && amount >= MinimumTrade && UserById(s, userId).Some?
    requires BaseCrypto(s) == Some(usd) && usdId != cryptoId && Holding(s, userId, usdId).Some?
    requires TradeTypeById(s, t.tradeTypeId) == Some(tt) && tt.name == SellName
    requires CryptoById(s, cryptoId).Some? && CryptoById(s, cryptoId).value.name != BaseCurrency
    ensures var b := Balances(s.positions);
            var kU := (userId, usdId);
            var kC := (userId, cryptoId);
            var sold := amount / p;
            var o := CreateTrade(s, userId, t, Ok(p), now);
            && kU in b
            && (o.result.Ok? <==> kC in b && b[kC] >= sold)
            && (o.result.Err? ==> o == Abort(s, BadRequest(CannotSellMore)))
            && (o.result.Ok? ==> && LedgerReady(o.store) && o.store.trades == s.trades + [o.result.value]
                                 && Balances(o.store.positions)
                                    == if b[kU] - sold < DustThreshold then (b - {kC})[kU := b[kU] + amount]
                                       else b[kC := b[kC] - sold][kU := b[kU] + amount])
  {
    SellSettles(s, userId, usdId, cryptoId, p, amount);
    TradeRunsLegs(s, userId, t, p, now, usd, tt);
    if Sell(s, Holding(s, userId, usdId), Holding(s, userId, cryptoId), false, p, amount, userId).Ok? {
      LedgerLater(Sell(s, Holding(s, userId, usdId), Holding(s, userId, cryptoId), false, p, amount, userId).value,
                  CreateTrade(s, userId, t, Ok(p), now).store);
    }
  }

  /** A BUY of the base currency with itself: the balance is debited `amount`
      and credited `amount / p`, or the trade is refused when it does not cover `amount`. */
  lemma TradeBuyTetherSettles(s: Store, userId: int, t: Trade, p: real, now: int, usd: Crypto, tt: Named,
                              usdId: int, amount: real)
    requires usdId == usd.id && usdId == t.cryptoId && amount == t.amount
    requires LedgerReady(s) && p != 0.0 && amount >= MinimumTrade && UserById(s, userId).Some?
    requires BaseCrypto(s) == Some(usd) && Holding(s, userId, usdId).Some?
    requires TradeTypeById(s, t.tradeTypeId) == Some(tt) && tt.name == BuyName
    ensures var b := Balances(s.positions);
            var kU := (userId, usdId);
            var o := CreateTrade(s, userId, t, Ok(p), now);
            && kU in b
            && (o.result.Ok? <==> b[kU] >= amount)
            && (o.result.Err? ==> o == Abort(s, BadRequest(NotEnoughUsd)))
            && (o.result.Ok? ==> && LedgerReady(o.store) && o.store.trades == s.trades + [o.result.value]
                                 && Balances(o.store.positions) == b[kU := b[kU] + amount / p - amount])
  {
    BuyTetherSettles(s, userId, usdId, p, amount);
    TradeRunsLegs(s, userId, t, p, now, usd, tt);
    if Buy(s, Holding(s, userId, usdId), Holding(s, userId, usdId), true, p, amount, usdId, userId).Ok? {
      LedgerLater(Buy(s, Holding(s, userId, usdId), Holding(s, userId, usdId), true, p, amount, usdId, userId).value,
                  CreateTrade(s, userId, t, Ok(p), now).store);
    }
  }

  /** A SELL of the base currency for itself: refused when the balance does
      not cover `amount / p` or when what would be left is under the dust
      threshold (the base-currency row cannot be deleted); otherwise the one
      balance moves by both legs. */
  lemma TradeSellTetherSettles(s: Store, userId: int, t: Trade, p: real, now: int, usd: Crypto, tt: Named,
                               usdId: int, amount: real)
    requires usdId == usd.id && usdId == t.cryptoId && amount == t.amount
    requires LedgerReady(s) && p != 0.0 && amount >= MinimumTrade && UserById(s, userId).Some?
    requires BaseCrypto(s) == Some(usd) && CryptoById(s, usdId) == Some(usd) && Holding(s, userId, usdId).Some?
    requires TradeTypeById(s, t.tradeTypeId) == Some(tt) && tt.name == SellName
    ensures var b := Balances(s.positions);
            var kU := (userId, usdId);
            var sold := amount / p;
            var o := CreateTrade(s, userId, t, Ok(p), now);
            && kU in b
            && (b[kU] < sold ==> o == Abort(s, BadRequest(CannotSellMore)))
            && (b[kU] >= sold && b[kU] - sold < DustThreshold ==> o == Abort(s, BadRequest(CannotDelete)))
            && (o.result.Ok? <==> b[kU] - sold >= DustThreshold)
            && (o.result.Ok? ==> && LedgerReady(o.store) && o.store.trades == s.trades + [o.result.value]
                                 && Balances(o.store.positions) == b[kU := b[kU] - sold + amount])
  {
    SellTetherSettles(s, userId, usdId, p, amount);
    TradeRunsLegs(s, userId, t, p, now, usd, tt);
    if Sell(s, Holding(s, userId, usdId), Holding(s, userId, usdId), true, p, amount, userId).Ok? {
      LedgerLater(Sell(s, Holding(s, userId, usdId), Holding(s, userId, usdId), true, p, amount, userId).value,
                  CreateTrade(s, userId, t, Ok(p), now).store);
    }
  }

  /** A trade whose type is neither BUY nor SELL touches no position: the
      store gains the trade row, under a fresh id, and nothing else. */
  lemma TradeOtherType(s: Store, userId: int, t: Trade, p: real, now: int, tt: Named)
    requires t.amount >= MinimumTrade && UserById(s, userId).Some? && BaseCrypto(s).Some?
    requires TradeTypeById(s, t.tradeTypeId) == Some(tt) && tt.name != BuyName && tt.name != SellName
    requires CryptoById(s, t.cryptoId).Some?
    ensures var o := CreateTrade(s, userId, t, Ok(p), now);
            && o.result == Ok(Trade(s.nextId, userId, t.cryptoId, now, t.amount, t.tradeTypeId))
            && o.store == s.(trades := s.trades + [o.result.value], nextId := s.nextId + 1)
  {
  }

  /** With no base-currency crypto in the store and no position of the user,
      the lookups of the user's positions find nothing without failing. A BUY
      then fails on the missing base row, a SELL is refused for want of a
      holding, and a trade of any other type is recorded as usual. */
  lemma TradeWithoutBaseCurrency(s: Store, userId: int, t: Trade, p: real, now: int, tt: Named)
    requires t.amount >= MinimumTrade && UserById(s, userId).Some?
    requires BaseCrypto(s).None? && PositionsOf(s, userId) == []
    requires TradeTypeById(s, t.tradeTypeId) == Some(tt) && CryptoById(s, t.cryptoId).Some?
    ensures var o := CreateTrade(s, userId, t, Ok(p), now);
            && (tt.name == BuyName ==> o.result == Err(InternalServerError(NullReference)) && o.store == s)
            && (tt.name == SellName ==> o.result == Err(BadRequest(CannotSellMore)) && o.store == s)
            && (tt.name != BuyName && tt.name != SellName ==>
                  && o.result == Ok(Trade(s.nextId, userId, t.cryptoId, now, t.amount, t.tradeTypeId))
                  && o.store == s.(trades := s.trades + [o.result.value], nextId := s.nextId + 1))
  {
  }

  /** The same trade placed twice is recorded twice: two rows, the second
      with a larger id than the first. */
  lemma RepeatedTradeRecordedTwice(s: Store, userId: int, t: Trade, p1: real, p2: real, now1: int, now2: int)
    requires CreateTrade(s, userId, t, Ok(p1), now1).result.Ok?
    requires CreateTrade(CreateTrade(s, userId, t, Ok(p1), now1).store, userId, t, Ok(p2), now2).result.Ok?
    ensures var o1 := CreateTrade(s, userId, t, Ok(p1), now1);
            var o2 := CreateTrade(o1.store, userId, t, Ok(p2), now2);
            && o2.store.trades == s.trades + [o1.result.value, o2.result.value]
            && o1.result.value.id < o2.result.value.id
            && o1.result.value.cryptoId == o2.result.value.cryptoId == t.cryptoId
            && o1.result.value.amount == o2.result.value.amount == t.amount
  {
  }
}
