/** What a trade does to a user's balances.

 While the position table is well formed (`LedgerReady`: one row per
 (user, crypto) pair, unique row ids, every id drawn from the counter) each
 position statement is an edit of the balances map, and the BUY and SELL legs
 are compositions of those edits. The lemmas here state the legs, and then a
 whole `CreateTrade`, as such edits.
 */
module Settlement {
  import opened Errors
  import opened Seqs
  import opened TradeDto
  import opened PositionDto
  import opened Store
  import opened Ledger
  import opened Positions
  import opened Trades

  /** The position table of the store is well formed. */
  ghost predicate LedgerReady(s: Store) {
    TableReady(s.positions, s.nextId)
  }

  /** The balance of a pair, zero when the user has no row for it. */
  function Held(b: map<(int, int), real>, k: (int, int)): real {
    if k in b then b[k] else 0.0
  }

  /** With unique ids, the statements' `where id = .. and userId = ..` selects row `j`. */
  lemma RowSelected(s: Store, j: int)
    requires LedgerReady(s) && 0 <= j < |s.positions|
    ensures var p := s.positions[j];
            HasRow(s, p.id, p.userId) && PositionById(s, p.id, p.userId) == Some(p)
  {
    var p := s.positions[j];
    ReadyUnique(s.positions, s.nextId);
    FirstOfUniqueKey(s.positions, PositionId, p.id, j, (q: Position) => q.id == p.id && q.userId == p.userId);
  }

  /** In a well-formed table `Holding` finds a row exactly when the pair has a balance, and that balance is the row's amount. */
  lemma HoldingIsHeld(s: Store, userId: int, cryptoId: int)
    requires LedgerReady(s)
    ensures var h := Holding(s, userId, cryptoId);
            var b := Balances(s.positions);
            && (h.Some? <==> (userId, cryptoId) in b)
            && (h.Some? ==> Key(h.value) == (userId, cryptoId) && b[(userId, cryptoId)] == h.value.amount)
  {
    ReadyUnique(s.positions, s.nextId);
    HoldingIsBalance(s, userId, cryptoId);
  }

  /** The row `Holding` finds sits at some index of the table. */
  lemma HoldingIndex(s: Store, userId: int, cryptoId: int) returns (j: int)
    requires Holding(s, userId, cryptoId).Some?
    ensures 0 <= j < |s.positions| && s.positions[j] == Holding(s, userId, cryptoId).value
    ensures Key(s.positions[j]) == (userId, cryptoId)
  {
    j :| 0 <= j < |s.positions| && s.positions[j] == Holding(s, userId, cryptoId).value;
  }

  // ----- the tables the legs leave behind -----

  /** Appending the new target row and debiting base row `j` leaves a well-formed
      table whose balances are edits of the old ones. */
  lemma BoughtNewTable(s: Store, t: Store, userId: int, usdId: int, cryptoId: int, bought: real, amount: real, j: int)
    requires LedgerReady(s) && 0 <= j < |s.positions| && Key(s.positions[j]) == (userId, usdId)
    requires (userId, cryptoId) !in Balances(s.positions)
    requires var ps := s.positions;
             var p := Position(s.nextId, userId, cryptoId, bought);
             && t.nextId == s.nextId + 1
             && t.positions == SetAmount(ps + [p], ps[j].id, ps[j].userId, ps[j].amount - amount)
    ensures var b := Balances(s.positions);
            var kU := (userId, usdId);
            var kC := (userId, cryptoId);
            && kU in b && LedgerReady(t)
            && Balances(t.positions) == b[kC := Held(b, kC) + bought][kU := b[kU] - amount]
  {
    var ps := s.positions;
    var p := Position(s.nextId, userId, cryptoId, bought);
    ReadyBalanceAt(ps, s.nextId, j);
    AppendThenEdit(ps, s.nextId, p, j, ps[j].amount - amount);
    assert Held(Balances(ps), (userId, cryptoId)) + bought == p.amount;
  }

  /** Setting rows `i` and `j` of a well-formed table to `a` and `c` keeps it well
      formed and sets the two balances. */
  lemma EditedTable(s: Store, t: Store, userId: int, usdId: int, cryptoId: int, a: real, c: real, i: int, j: int)
    requires LedgerReady(s) && 0 <= i < |s.positions| && 0 <= j < |s.positions| && i != j
    requires Key(s.positions[j]) == (userId, usdId) && Key(s.positions[i]) == (userId, cryptoId)
    requires var ps := s.positions;
             && t.nextId == s.nextId
             && t.positions == SetAmount(SetAmount(ps, ps[i].id, ps[i].userId, a), ps[j].id, ps[j].userId, c)
    ensures var b := Balances(s.positions);
            var kU := (userId, usdId);
            var kC := (userId, cryptoId);
            && kU in b && kC in b && b[kU] == s.positions[j].amount && b[kC] == s.positions[i].amount
            && LedgerReady(t) && Balances(t.positions) == b[kC := a][kU := c]
  {
    var ps := s.positions;
    ReadyBalanceAt(ps, s.nextId, i);
    ReadyBalanceAt(ps, s.nextId, j);
    EditTwoRows(ps, s.nextId, i, j, a, c);
  }

  /** `EditedTable` for the legs of a BUY into a held row: row `i` credited
      with `amount / price`, row `j` debited with `amount`. */
  lemma CreditedTable(s: Store, t: Store, userId: int, usdId: int, cryptoId: int, price: real, amount: real, i: int, j: int)
    requires LedgerReady(s) && price != 0.0 && 0 <= i < |s.positions| && 0 <= j < |s.positions| && i != j
    requires Key(s.positions[j]) == (userId, usdId) && Key(s.positions[i]) == (userId, cryptoId)
    requires var ps := s.positions;
             && t.nextId == s.nextId
             && t.positions == SetAmount(SetAmount(ps, ps[i].id, ps[i].userId, ps[i].amount + amount / price),
                                         ps[j].id, ps[j].userId, ps[j].amount - amount)
    ensures var b := Balances(s.positions);
            var kU := (userId, usdId);
            var kC := (userId, cryptoId);
            && kU in b && kC in b
            && LedgerReady(t) && Balances(t.positions) == b[kC := Held(b, kC) + amount / price][kU := b[kU] - amount]
  {
    EditedTable(s, t, userId, usdId, cryptoId, s.positions[i].amount + amount / price, s.positions[j].amount - amount, i, j);
  }

  /** `EditedTable` for the legs of a SELL: row `i` debited with `sold`, row `j` credited with `amount`. */
  lemma DebitedTable(s: Store, t: Store, userId: int, usdId: int, cryptoId: int, sold: real, amount: real, i: int, j: int)
    requires LedgerReady(s) && 0 <= i < |s.positions| && 0 <= j < |s.positions| && i != j
    requires Key(s.positions[j]) == (userId, usdId) && Key(s.positions[i]) == (userId, cryptoId)
    requires var ps := s.positions;
             && t.nextId == s.nextId
             && t.positions == SetAmount(SetAmount(ps, ps[i].id, ps[i].userId, ps[i].amount - sold),
                                         ps[j].id, ps[j].userId, ps[j].amount + amount)
    ensures var b := Balances(s.positions);
            var kU := (userId, usdId);
            var kC := (userId, cryptoId);
            && kU in b && kC in b
            && LedgerReady(t) && Balances(t.positions) == b[kC := b[kC] - sold][kU := b[kU] + amount]
  {
    EditedTable(s, t, userId, usdId, cryptoId, s.positions[i].amount - sold, s.positions[j].amount + amount, i, j);
  }

  /** Deleting row `i` of a well-formed table and crediting row `j` with `amount`
      keeps it well formed, drops the balance of row `i` and raises that of row `j`. */
  lemma ClosedTable(s: Store, t: Store, userId: int, usdId: int, cryptoId: int, amount: real, i: int, j: int)
    requires LedgerReady(s) && 0 <= i < |s.positions| && 0 <= j < |s.positions| && i != j
    requires Key(s.positions[j]) == (userId, usdId) && Key(s.positions[i]) == (userId, cryptoId)
    requires var ps := s.positions;
             && t.nextId == s.nextId
             && t.positions == SetAmount(DeletePositionRow(ps, ps[i].id, ps[i].userId), ps[j].id, ps[j].userId, ps[j].amount + amount)
    ensures var b := Balances(s.positions);
            var kU := (userId, usdId);
            var kC := (userId, cryptoId);
            && kU in b && LedgerReady(t) && Balances(t.positions) == (b - {kC})[kU := b[kU] + amount]
  {
    var ps := s.positions;
    ReadyBalanceAt(ps, s.nextId, j);
    RemoveThenEdit(ps, s.nextId, i, j, ps[j].amount + amount);
  }

  /** Two updates aimed at the same row `j`, to `a` and then to `c`: the
      table stays well formed and the row's balance ends at `c`. */
  lemma RetouchedTable(s: Store, t: Store, userId: int, usdId: int, a: real, c: real, j: int)
    requires LedgerReady(s) && 0 <= j < |s.positions| && Key(s.positions[j]) == (userId, usdId)
    requires var ps := s.positions;
             && t.nextId == s.nextId
             && t.positions == SetAmount(SetAmount(ps, ps[j].id, ps[j].userId, a), ps[j].id, ps[j].userId, c)
    ensures var b := Balances(s.positions);
            var kU := (userId, usdId);
            && kU in b && b[kU] == s.positions[j].amount
            && LedgerReady(t) && Balances(t.positions) == b[kU := c]
  {
    var ps := s.positions;
    ReadyBalanceAt(ps, s.nextId, j);
    EditRow(ps, s.nextId, j, a);
    var ps1 := SetAmount(ps, ps[j].id, ps[j].userId, a);
    assert ps1[j].id == ps[j].id && Key(ps1[j]) == Key(ps[j]);
    EditRow(ps1, s.nextId, j, c);
  }

  // ----- a trade in another crypto than the base currency -----

  /** The statements of a BUY of a crypto the user holds no row of, with base
      row `j`: a row holding `amount / price` is appended, then row `j` is debited. */
  lemma BuyNewRowStatements(s: Store, userId: int, usdId: int, cryptoId: int, price: real, amount: real, j: int)
    requires price != 0.0 && 0 <= j < |s.positions| && s.positions[j].userId == userId
    requires Holding(s, userId, usdId) == Some(s.positions[j]) && s.positions[j].amount >= amount
    requires Holding(s, userId, cryptoId).None? && CryptoById(s, cryptoId).Some?
    ensures var ps := s.positions;
            var p := Position(s.nextId, userId, cryptoId, amount / price);
            var r := Buy(s, Holding(s, userId, usdId), Holding(s, userId, cryptoId), false, price, amount, cryptoId, userId);
            && r.Ok? && r.value.nextId == s.nextId + 1
            && r.value.positions == SetAmount(ps + [p], ps[j].id, ps[j].userId, ps[j].amount - amount)
  {
    var ps := s.positions;
    var usd := s.positions[j];
    var p := Position(s.nextId, userId, cryptoId, amount / price);
    var s1 := s.(positions := ps + [p], nextId := s.nextId + 1);
    assert CreatePositionTx(s, userId, cryptoId, amount / price) == Ok((s1, p));
    assert HasRow(s1, usd.id, userId) by {
      assert s1.positions[j] == usd;
    }
  }

  /** The statements of a BUY of a crypto the user holds at row `i`, with base
      row `j`: row `i` is credited with `amount / price`, then row `j` is debited. */
  lemma BuyHeldRowStatements(s: Store, userId: int, usdId: int, cryptoId: int, price: real, amount: real, i: int, j: int)
    requires price != 0.0 && 0 <= i < |s.positions| && 0 <= j < |s.positions| && i != j
    requires s.positions[i].userId == userId && s.positions[j].userId == userId
    requires Holding(s, userId, usdId) == Some(s.positions[j]) && s.positions[j].amount >= amount
    requires Holding(s, userId, cryptoId) == Some(s.positions[i])
    ensures var ps := s.positions;
            var r := Buy(s, Holding(s, userId, usdId), Holding(s, userId, cryptoId), false, price, amount, cryptoId, userId);
            && r.Ok? && r.value.nextId == s.nextId
            && r.value.positions == SetAmount(SetAmount(ps, ps[i].id, ps[i].userId, ps[i].amount + amount / price),
                                              ps[j].id, ps[j].userId, ps[j].amount - amount)
  {
    var ps := s.positions;
    var other := s.positions[i];
    var usd := s.positions[j];
    assert HasRow(s, other.id, userId) by {
      assert ps[i] == other;
    }
    var s1 := s.(positions := SetAmount(ps, other.id, userId, other.amount + amount / price));
    assert HasRow(s1, usd.id, userId) by {
      assert s1.positions[j].id == usd.id && s1.positions[j].userId == userId;
    }
  }

  /** A BUY of a crypto the user holds no row of: a row holding `amount / price`
      is inserted for it, then the base row is debited. */
  lemma BuyIntoNewRow(s: Store, userId: int, usdId: int, cryptoId: int, price: real, amount: real)
    requires LedgerReady(s) && price != 0.0
    requires Holding(s, userId, usdId).Some? && Holding(s, userId, usdId).value.amount >= amount
    requires Holding(s, userId, cryptoId).None? && CryptoById(s, cryptoId).Some?
    ensures var b := Balances(s.positions);
            var kU := (userId, usdId);
            var kC := (userId, cryptoId);
            var r := Buy(s, Holding(s, userId, usdId), Holding(s, userId, cryptoId), false, price, amount, cryptoId, userId);
            && kU in b && r.Ok? && LedgerReady(r.value)
            && Balances(r.value.positions) == b[kC := Held(b, kC) + amount / price][kU := b[kU] - amount]
  {
    HoldingIsHeld(s, userId, usdId);
    HoldingIsHeld(s, userId, cryptoId);
    var j := HoldingIndex(s, userId, usdId);
    var ps := s.positions;
    var p := Position(s.nextId, userId, cryptoId, amount / price);
    BuyNewRowStatements(s, userId, usdId, cryptoId, price, amount, j);
    var r := Buy(s, Holding(s, userId, usdId), Holding(s, userId, cryptoId), false, price, amount, cryptoId, userId);
    BoughtNewTable(s, r.value, userId, usdId, cryptoId, amount / price, amount, j);
  }

  /** A BUY of a crypto the user holds a row of: that row is credited with
      `amount / price`, then the base row is debited. */
  lemma BuyIntoHeldRow(s: Store, userId: int, usdId: int, cryptoId: int, price: real, amount: real)
    requires LedgerReady(s) && usdId != cryptoId && price != 0.0
    requires Holding(s, userId, usdId).Some? && Holding(s, userId, usdId).value.amount >= amount
    requires Holding(s, userId, cryptoId).Some?
    ensures var b := Balances(s.positions);
            var kU := (userId, usdId);
            var kC := (userId, cryptoId);
            var r := Buy(s, Holding(s, userId, usdId), Holding(s, userId, cryptoId), false, price, amount, cryptoId, userId);
            && kU in b && r.Ok? && LedgerReady(r.value)
            && Balances(r.value.positions) == b[kC := Held(b, kC) + amount / price][kU := b[kU] - amount]
  {
    HoldingIsHeld(s, userId, usdId);
    HoldingIsHeld(s, userId, cryptoId);
    var j := HoldingIndex(s, userId, usdId);
    var i := HoldingIndex(s, userId, cryptoId);
    var ps := s.positions;
    BuyHeldRowStatements(s, userId, usdId, cryptoId, price, amount, i, j);
    var r := Buy(s, Holding(s, userId, usdId), Holding(s, userId, cryptoId), false, price, amount, cryptoId, userId);
    CreditedTable(s, r.value, userId, usdId, cryptoId, price, amount, i, j);
  }

  /** BUY: succeeds exactly when the base balance covers `amount`; then the base
      balance falls by `amount` and the target balance, zero when the user had no
      row for it, rises by `amount / price`. */
  lemma BuySettles(s: Store, userId: int, usdId: int, cryptoId: int, price: real, amount: real)
    requires LedgerReady(s) && usdId != cryptoId && price != 0.0
    requires Holding(s, userId, usdId).Some? && CryptoById(s, cryptoId).Some?
    ensures var b := Balances(s.positions);
            var kU := (userId, usdId);
            var kC := (userId, cryptoId);
            var r := Buy(s, Holding(s, userId, usdId), Holding(s, userId, cryptoId), false, price, amount, cryptoId, userId);
            && kU in b
            && (r.Ok? <==> b[kU] >= amount)
            && (r.Err? ==> r == Err(BadRequest(NotEnoughUsd)))
            && (r.Ok? ==> && LedgerReady(r.value)
                          && Balances(r.value.positions) == b[kC := Held(b, kC) + amount / price][kU := b[kU] - amount])
  {
    HoldingIsHeld(s, userId, usdId);
    HoldingIsHeld(s, userId, cryptoId);
    if Holding(s, userId, usdId).value.amount >= amount {
      var b := Balances(s.positions);
      if Holding(s, userId, cryptoId).None? {
        BuyIntoNewRow(s, userId, usdId, cryptoId, price, amount);
        assert Held(b, (userId, cryptoId)) + amount / price == amount / price;
      } else {
        BuyIntoHeldRow(s, userId, usdId, cryptoId, price, amount);
      }
    }
  }

  /** The closing legs of a SELL on target row `i` and base row `j`: row `i`
      is deleted, then row `j` is credited with `amount`. */
  lemma CloseLegsStatements(s: Store, userId: int, amount: real, i: int, j: int)
    requires LedgerReady(s) && 0 <= i < |s.positions| && 0 <= j < |s.positions| && i != j
    requires s.positions[i].userId == userId && s.positions[j].userId == userId
    requires CryptoById(s, s.positions[i].cryptoId).Some? && CryptoById(s, s.positions[i].cryptoId).value.name != BaseCurrency
    ensures var ps := s.positions;
            CloseLegs(s, ps[j], ps[i], amount, userId)
              == Ok(s.(positions := SetAmount(DeletePositionRow(ps, ps[i].id, ps[i].userId), ps[j].id, ps[j].userId, ps[j].amount + amount)))
  {
    var ps := s.positions;
    var other := s.positions[i];
    var usd := s.positions[j];
    RowSelected(s, i);
    var s1 := s.(positions := DeletePositionRow(ps, other.id, userId));
    assert DeletePositionTx(s, other.id, userId) == Ok(s1);
    assert HasRow(s1, usd.id, userId) by {
      RemoveShifts(ps, s.nextId, i, j);
      assert s1.positions[if j < i then j else j - 1] == usd;
    }
  }

  /** The reducing legs of a SELL on target row `i` and base row `j`: row `i`
      is debited with `sold`, then row `j` is credited with `amount`. */
  lemma ReduceLegsStatements(s: Store, userId: int, sold: real, amount: real, i: int, j: int)
    requires 0 <= i < |s.positions| && 0 <= j < |s.positions| && i != j
    requires s.positions[i].userId == userId && s.positions[j].userId == userId
    ensures var ps := s.positions;
            ReduceLegs(s, ps[j], ps[i], false, sold, amount, userId)
              == Ok(s.(positions := SetAmount(SetAmount(ps, ps[i].id, ps[i].userId, ps[i].amount - sold),
                                              ps[j].id, ps[j].userId, ps[j].amount + amount)))
  {
    var ps := s.positions;
    var other := s.positions[i];
    var usd := s.positions[j];
    assert HasRow(s, other.id, userId) by {
      assert ps[i] == other;
    }
    var s1 := s.(positions := SetAmount(ps, other.id, userId, other.amount - sold));
    assert HasRow(s1, usd.id, userId) by {
      assert s1.positions[j].id == usd.id && s1.positions[j].userId == userId;
    }
  }

  /** The reducing legs of a SELL keep the table well formed, debit the
      target balance with `sold` and credit the base balance with `amount`. */
  lemma ReduceLegsRow(s: Store, userId: int, usdId: int, cryptoId: int, price: real, amount: real, i: int, j: int)
    requires LedgerReady(s) && price != 0.0 && 0 <= i < |s.positions| && 0 <= j < |s.positions| && i != j
    requires Key(s.positions[j]) == (userId, usdId) && Key(s.positions[i]) == (userId, cryptoId)
    ensures var b := Balances(s.positions);
            var kU := (userId, usdId);
            var kC := (userId, cryptoId);
            var r := ReduceLegs(s, s.positions[j], s.positions[i], false, amount / price, amount, userId);
            && kC in b && kU in b && r.Ok? && LedgerReady(r.value)
            && Balances(r.value.positions) == b[kC := b[kC] - amount / price][kU := b[kU] + amount]
  {
    var ps := s.positions;
    var sold := amount / price;
    ReduceLegsStatements(s, userId, sold, amount, i, j);
    DebitedTable(s, s.(positions := SetAmount(SetAmount(ps, ps[i].id, ps[i].userId, ps[i].amount - sold),
                                              ps[j].id, ps[j].userId, ps[j].amount + amount)),
                 userId, usdId, cryptoId, sold, amount, i, j);
  }

  /** The closing legs of a SELL keep the table well formed, drop the target
      balance and credit the base balance with `amount`. */
  lemma CloseLegsRow(s: Store, userId: int, usdId: int, cryptoId: int, amount: real, i: int, j: int)
    requires LedgerReady(s) && 0 <= i < |s.positions| && 0 <= j < |s.positions| && i != j
    requires Key(s.positions[j]) == (userId, usdId) && Key(s.positions[i]) == (userId, cryptoId)
    requires CryptoById(s, cryptoId).Some? && CryptoById(s, cryptoId).value.name != BaseCurrency
    ensures var b := Balances(s.positions);
            var kU := (userId, usdId);
            var kC := (userId, cryptoId);
            var r := CloseLegs(s, s.positions[j], s.positions[i], amount, userId);
            && kU in b && r.Ok? && LedgerReady(r.value)
            && Balances(r.value.positions) == (b - {kC})[kU := b[kU] + amount]
  {
    var ps := s.positions;
    CloseLegsStatements(s, userId, amount, i, j);
    ClosedTable(s, s.(positions := SetAmount(DeletePositionRow(ps, ps[i].id, ps[i].userId), ps[j].id, ps[j].userId, ps[j].amount + amount)),
                userId, usdId, cryptoId, amount, i, j);
  }

  /** A SELL that closes the target row: it is deleted, then the base row is credited with `amount`. */
  lemma SellClosingRow(s: Store, userId: int, usdId: int, cryptoId: int, price: real, amount: real)
    requires LedgerReady(s) && usdId != cryptoId && price != 0.0
    requires CryptoById(s, cryptoId).Some? && CryptoById(s, cryptoId).value.name != BaseCurrency
    requires Holding(s, userId, usdId).Some? && Holding(s, userId, cryptoId).Some?
    requires Holding(s, userId, cryptoId).value.amount >= amount / price
    requires Holding(s, userId, usdId).value.amount - amount / price < DustThreshold
    ensures var b := Balances(s.positions);
            var kU := (userId, usdId);
            var kC := (userId, cryptoId);
            var r := Sell(s, Holding(s, userId, usdId), Holding(s, userId, cryptoId), false, price, amount, userId);
            && kU in b && r.Ok? && LedgerReady(r.value)
            && Balances(r.value.positions) == (b - {kC})[kU := b[kU] + amount]
  {
    var j := HoldingIndex(s, userId, usdId);
    var i := HoldingIndex(s, userId, cryptoId);
    CloseLegsRow(s, userId, usdId, cryptoId, amount, i, j);
    assert Sell(s, Holding(s, userId, usdId), Holding(s, userId, cryptoId), false, price, amount, userId)
           == CloseLegs(s, s.positions[j], s.positions[i], amount, userId);
  }

  /** A SELL that keeps the target row: it is debited with `amount / price`, then the base row is credited with `amount`. */
  lemma SellKeepingRow(s: Store, userId: int, usdId: int, cryptoId: int, price: real, amount: real)
    requires LedgerReady(s) && usdId != cryptoId && price != 0.0
    requires Holding(s, userId, usdId).Some? && Holding(s, userId, cryptoId).Some?
    requires Holding(s, userId, cryptoId).value.amount >= amount / price
    requires Holding(s, userId, usdId).value.amount - amount / price >= DustThreshold
    ensures var b := Balances(s.positions);
            var kU := (userId, usdId);
            var kC := (userId, cryptoId);
            var r := Sell(s, Holding(s, userId, usdId), Holding(s, userId, cryptoId), false, price, amount, userId);
            && kC in b && kU in b && r.Ok? && LedgerReady(r.value)
            && Balances(r.value.positions) == b[kC := b[kC] - amount / price][kU := b[kU] + amount]
  {
    var j := HoldingIndex(s, userId, usdId);
    var i := HoldingIndex(s, userId, cryptoId);
    ReduceLegsRow(s, userId, usdId, cryptoId, price, amount, i, j);
    assert Sell(s, Holding(s, userId, usdId), Holding(s, userId, cryptoId), false, price, amount, userId)
           == ReduceLegs(s, s.positions[j], s.positions[i], false, amount / price, amount, userId);
  }

  /** An intended SELL that closes the target row: it is deleted, then the base row is credited with `amount`. */
  lemma SellIntendedClosingRow(s: Store, userId: int, usdId: int, cryptoId: int, price: real, amount: real)
    requires LedgerReady(s) && usdId != cryptoId && price != 0.0
    requires CryptoById(s, cryptoId).Some? && CryptoById(s, cryptoId).value.name != BaseCurrency
    requires Holding(s, userId, usdId).Some? && Holding(s, userId, cryptoId).Some?
    requires Holding(s, userId, cryptoId).value.amount >= amount / price
    requires Holding(s, userId, cryptoId).value.amount - amount / price < DustThreshold
    ensures var b := Balances(s.positions);
            var kU := (userId, usdId);
            var kC := (userId, cryptoId);
            var r := SellIntended(s, Holding(s, userId, usdId), Holding(s, userId, cryptoId), false, price, amount, userId);
            && kU in b && r.Ok? && LedgerReady(r.value)
            && Balances(r.value.positions) == (b - {kC})[kU := b[kU] + amount]
  {
    var j := HoldingIndex(s, userId, usdId);
    var i := HoldingIndex(s, userId, cryptoId);
    CloseLegsRow(s, userId, usdId, cryptoId, amount, i, j);
    assert SellIntended(s, Holding(s, userId, usdId), Holding(s, userId, cryptoId), false, price, amount, userId)
           == CloseLegs(s, s.positions[j], s.positions[i], amount, userId);
  }

  /** An intended SELL that keeps the target row: it is debited with `amount / price`, then the base row is credited with `amount`. */
  lemma SellIntendedKeepingRow(s: Store, userId: int, usdId: int, cryptoId: int, price: real, amount: real)
    requires LedgerReady(s) && usdId != cryptoId && price != 0.0
    requires Holding(s, userId, usdId).Some? && Holding(s, userId, cryptoId).Some?
    requires Holding(s, userId, cryptoId).value.amount >= amount / price
    requires Holding(s, userId, cryptoId).value.amount - amount / price >= DustThreshold
    ensures var b := Balances(s.positions);
            var kU := (userId, usdId);
            var kC := (userId, cryptoId);
            var r := SellIntended(s, Holding(s, userId, usdId), Holding(s, userId, cryptoId), false, price, amount, userId);
            && kC in b && kU in b && r.Ok? && LedgerReady(r.value)
            && Balances(r.value.positions) == b[kC := b[kC] - amount / price][kU := b[kU] + amount]
  {
    var j := HoldingIndex(s, userId, usdId);
    var i := HoldingIndex(s, userId, cryptoId);
    ReduceLegsRow(s, userId, usdId, cryptoId, price, amount, i, j);
    assert SellIntended(s, Holding(s, userId, usdId), Holding(s, userId, cryptoId), false, price, amount, userId)
           == ReduceLegs(s, s.positions[j], s.positions[i], false, amount / price, amount, userId);
  }

  /** SELL as intended: the same as `SellSettles`, except that the target row
      is closed exactly when what would be left of the TARGET balance is under
      the dust threshold; so the crypto balance afterwards is the old one less
      the quantity sold, or gone when that remainder was dust. */
  lemma SellIntendedSettles(s: Store, userId: int, usdId: int, cryptoId: int, price: real, amount: real)
    requires LedgerReady(s) && usdId != cryptoId && price != 0.0
    requires Holding(s, userId, usdId).Some?
    requires CryptoById(s, cryptoId).Some? && CryptoById(s, cryptoId).value.name != BaseCurrency
    ensures var b := Balances(s.positions);
            var kU := (userId, usdId);
            var kC := (userId, cryptoId);
            var sold := amount / price;
            var r := SellIntended(s, Holding(s, userId, usdId), Holding(s, userId, cryptoId), false, price, amount, userId);
            && kU in b
            && (r.Ok? <==> kC in b && b[kC] >= sold)
            && (r.Err? ==> r == Err(BadRequest(CannotSellMore)))
            && (r.Ok? ==> && LedgerReady(r.value)
                          && Balances(r.value.positions)
                             == if b[kC] - sold < DustThreshold then (b - {kC})[kU := b[kU] + amount]
                                else b[kC := b[kC] - sold][kU := b[kU] + amount])
  {
    HoldingIsHeld(s, userId, usdId);
    HoldingIsHeld(s, userId, cryptoId);
    var other := Holding(s, userId, cryptoId);
    if other.Some? && other.value.amount >= amount / price {
      if other.value.amount - amount / price < DustThreshold {
        SellIntendedClosingRow(s, userId, usdId, cryptoId, price, amount);
      } else {
        SellIntendedKeepingRow(s, userId, usdId, cryptoId, price, amount);
      }
    }
  }

  /** The SELL as written closes a holding of which at least the dust threshold
      would remain: with a base balance under the dust threshold plus the
      quantity sold, the target row is deleted whatever it held, so the whole
      holding is lost and not just the quantity sold. */
  lemma SellClosesUnsoldHolding(s: Store, userId: int, usdId: int, cryptoId: int, price: real, amount: real)
    requires LedgerReady(s) && usdId != cryptoId && price != 0.0
    requires CryptoById(s, cryptoId).Some? && CryptoById(s, cryptoId).value.name != BaseCurrency
    requires Holding(s, userId, usdId).Some? && Holding(s, userId, cryptoId).Some?
    requires Holding(s, userId, cryptoId).value.amount - amount / price >= DustThreshold
    requires Holding(s, userId, usdId).value.amount - amount / price < DustThreshold
    ensures var b := Balances(s.positions);
            var kC := (userId, cryptoId);
            var r := Sell(s, Holding(s, userId, usdId), Holding(s, userId, cryptoId), false, price, amount, userId);
            var intended := SellIntended(s, Holding(s, userId, usdId), Holding(s, userId, cryptoId), false, price, amount, userId);
            && kC in b && b[kC] - amount / price >= DustThreshold
            && r.Ok? && kC !in Balances(r.value.positions)
            && intended.Ok? && kC in Balances(intended.value.positions)
            && Balances(intended.value.positions)[kC] == b[kC] - amount / price
  {
    HoldingIsHeld(s, userId, cryptoId);
    SellClosingRow(s, userId, usdId, cryptoId, price, amount);
    SellIntendedKeepingRow(s, userId, usdId, cryptoId, price, amount);
  }

  /** SELL: succeeds exactly when the target balance covers `amount / price`;
      then the base balance rises by `amount`, and the target row is deleted
      when the BASE balance less the sold quantity is under the dust threshold,
      otherwise decremented by the sold quantity. */
  lemma SellSettles(s: Store, userId: int, usdId: int, cryptoId: int, price: real, amount: real)
    requires LedgerReady(s) && usdId != cryptoId && price != 0.0
    requires Holding(s, userId, usdId).Some?
    requires CryptoById(s, cryptoId).Some? && CryptoById(s, cryptoId).value.name != BaseCurrency
    ensures var b := Balances(s.positions);
            var kU := (userId, usdId);
            var kC := (userId, cryptoId);
            var sold := amount / price;
            var r := Sell(s, Holding(s, userId, usdId), Holding(s, userId, cryptoId), false, price, amount, userId);
            && kU in b
            && (r.Ok? <==> kC in b && b[kC] >= sold)
            && (r.Err? ==> r == Err(BadRequest(CannotSellMore)))
            && (r.Ok? ==> && LedgerReady(r.value)
                          && Balances(r.value.positions)
                             == if b[kU] - sold < DustThreshold then (b - {kC})[kU := b[kU] + amount]
                                else b[kC := b[kC] - sold][kU := b[kU] + amount])
  {
    HoldingIsHeld(s, userId, usdId);
    HoldingIsHeld(s, userId, cryptoId);
    var other := Holding(s, userId, cryptoId);
    if other.Some? && other.value.amount >= amount / price {
      if Holding(s, userId, usdId).value.amount - amount / price < DustThreshold {
        SellClosingRow(s, userId, usdId, cryptoId, price, amount);
      } else {
        SellKeepingRow(s, userId, usdId, cryptoId, price, amount);
      }
    }
  }

  // ----- a trade in the base currency itself -----

  /** The statements of a BUY of the base currency with itself, base row `j`:
      the row object is credited with `amount / price` and written, then debited
      with `amount` and written again. */
  lemma BuyTetherStatements(s: Store, userId: int, usdId: int, price: real, amount: real, j: int)
    requires price != 0.0 && 0 <= j < |s.positions| && s.positions[j].userId == userId
    requires Holding(s, userId, usdId) == Some(s.positions[j]) && s.positions[j].amount >= amount
    ensures var ps := s.positions;
            var h := Holding(s, userId, usdId);
            var r := Buy(s, h, h, true, price, amount, usdId, userId);
            && r.Ok? && r.value.nextId == s.nextId
            && r.value.positions == SetAmount(SetAmount(ps, ps[j].id, ps[j].userId, ps[j].amount + amount / price),
                                              ps[j].id, ps[j].userId, ps[j].amount + amount / price - amount)
  {
    var ps := s.positions;
    var usd := s.positions[j];
    assert HasRow(s, usd.id, userId) by {
      assert ps[j] == usd;
    }
    var s1 := s.(positions := SetAmount(ps, usd.id, userId, usd.amount + amount / price));
    assert HasRow(s1, usd.id, userId) by {
      assert s1.positions[j].id == usd.id && s1.positions[j].userId == userId;
    }
  }

  /** BUY of the base currency with itself: the base row and the target row are
      one object, so the credit of `amount / price` and the debit of `amount`
      land on the same balance. */
  lemma BuyTetherSettles(s: Store, userId: int, usdId: int, price: real, amount: real)
    requires LedgerReady(s) && price != 0.0 && Holding(s, userId, usdId).Some?
    ensures var b := Balances(s.positions);
            var kU := (userId, usdId);
            var h := Holding(s, userId, usdId);
            var r := Buy(s, h, h, true, price, amount, usdId, userId);
            && kU in b
            && (r.Ok? <==> b[kU] >= amount)
            && (r.Err? ==> r == Err(BadRequest(NotEnoughUsd)))
            && (r.Ok? ==> LedgerReady(r.value) && Balances(r.value.positions) == b[kU := b[kU] + amount / price - amount])
  {
    HoldingIsHeld(s, userId, usdId);
    if Holding(s, userId, usdId).value.amount >= amount {
      var j := HoldingIndex(s, userId, usdId);
      var ps := s.positions;
      BuyTetherStatements(s, userId, usdId, price, amount, j);
      var h := Holding(s, userId, usdId);
      var r := Buy(s, h, h, true, price, amount, usdId, userId);
      RetouchedTable(s, r.value, userId, usdId, ps[j].amount + amount / price, ps[j].amount + amount / price - amount, j);
    }
  }

  /** The statements of a SELL of the base currency for itself that keeps the
      row, base row `j`: the row object is debited with `amount / price` and
      written, then credited with `amount` and written again. */
  lemma SellTetherStatements(s: Store, userId: int, usdId: int, price: real, amount: real, j: int)
    requires price != 0.0 && 0 <= j < |s.positions| && s.positions[j].userId == userId
    requires Holding(s, userId, usdId) == Some(s.positions[j])
    requires s.positions[j].amount - amount / price >= DustThreshold
    ensures var ps := s.positions;
            var h := Holding(s, userId, usdId);
            var r := Sell(s, h, h, true, price, amount, userId);
            && r.Ok? && r.value.nextId == s.nextId
            && r.value.positions == SetAmount(SetAmount(ps, ps[j].id, ps[j].userId, ps[j].amount - amount / price),
                                              ps[j].id, ps[j].userId, ps[j].amount - amount / price + amount)
  {
    var ps := s.positions;
    var usd := s.positions[j];
    assert HasRow(s, usd.id, userId) by {
      assert ps[j] == usd;
    }
    var s1 := s.(positions := SetAmount(ps, usd.id, userId, usd.amount - amount / price));
    assert HasRow(s1, usd.id, userId) by {
      assert s1.positions[j].id == usd.id && s1.positions[j].userId == userId;
    }
  }

  /** A SELL of the base currency for itself that would leave less than the
      dust threshold tries to delete the base row, which the delete refuses. */
  lemma SellTetherRefused(s: Store, userId: int, usdId: int, price: real, amount: real, j: int)
    requires LedgerReady(s) && price != 0.0 && 0 <= j < |s.positions| && s.positions[j].userId == userId
    requires Holding(s, userId, usdId) == Some(s.positions[j]) && s.positions[j].cryptoId == usdId
    requires CryptoById(s, usdId).Some? && CryptoById(s, usdId).value.name == BaseCurrency
    requires s.positions[j].amount >= amount / price && s.positions[j].amount - amount / price < DustThreshold
    ensures var h := Holding(s, userId, usdId);
            Sell(s, h, h, true, price, amount, userId) == Err(BadRequest(CannotDelete))
  {
    var usd := s.positions[j];
    RowSelected(s, j);
    assert DeletePositionTx(s, usd.id, userId) == Err(BadRequest(CannotDelete));
  }

  /** SELL of the base currency for itself: refused when the balance does not
      cover `amount / price`, refused by the delete when what is left is under
      the dust threshold, and otherwise the debit and the credit land on the
      same balance. */
  lemma SellTetherSettles(s: Store, userId: int, usdId: int, price: real, amount: real)
    requires LedgerReady(s) && price != 0.0 && Holding(s, userId, usdId).Some?
    requires CryptoById(s, usdId).Some? && CryptoById(s, usdId).value.name == BaseCurrency
    ensures var b := Balances(s.positions);
            var kU := (userId, usdId);
            var sold := amount / price;
            var h := Holding(s, userId, usdId);
            var r := Sell(s, h, h, true, price, amount, userId);
            && kU in b
            && (b[kU] < sold ==> r == Err(BadRequest(CannotSellMore)))
            && (b[kU] >= sold && b[kU] - sold < DustThreshold ==> r == Err(BadRequest(CannotDelete)))
            && (r.Ok? <==> b[kU] - sold >= DustThreshold)
            && (r.Ok? ==> LedgerReady(r.value) && Balances(r.value.positions) == b[kU := b[kU] - sold + amount])
  {
    HoldingIsHeld(s, userId, usdId);
    var j := HoldingIndex(s, userId, usdId);
    var ps := s.positions;
    if ps[j].amount >= amount / price && ps[j].amount - amount / price < DustThreshold {
      SellTetherRefused(s, userId, usdId, price, amount, j);
    } else if ps[j].amount - amount / price >= DustThreshold {
      SellTetherStatements(s, userId, usdId, price, amount, j);
      var h := Holding(s, userId, usdId);
      var r := Sell(s, h, h, true, price, amount, userId);
      RetouchedTable(s, r.value, userId, usdId, ps[j].amount - amount / price, ps[j].amount - amount / price + amount, j);
    }
  }
}
