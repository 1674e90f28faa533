/** The position table seen as balances: how much of each crypto each user holds.

 `Balances` maps a (userId, cryptoId) pair to the amount of its row. While the
 table keeps at most one row per pair this view loses nothing but row ids, and
 the effect of every position statement is an edit of the map: an insert sets
 one entry, an update overwrites one, a delete removes one.
 */
module Ledger {
  import opened Errors
  import opened Seqs
  import opened PositionDto
  import opened Store

  function Key(p: Position): (int, int) {
    (p.userId, p.cryptoId)
  }

  function PositionId(p: Position): int {
    p.id
  }

  /** Amount held per (user, crypto); of two rows with one key the later wins. */
  function Balances(ps: seq<Position>): map<(int, int), real> {
    if |ps| == 0 then map[]
    else Balances(ps[..|ps| - 1])[Key(ps[|ps| - 1]) := ps[|ps| - 1].amount]
  }

  lemma {:induction false} BalancesDomain(ps: seq<Position>, k: (int, int))
    ensures k in Balances(ps) <==> exists i :: 0 <= i < |ps| && Key(ps[i]) == k
  {
    if |ps| > 0 {
      var init := ps[..|ps| - 1];
      BalancesDomain(init, k);
      if k in Balances(init) {
        var i :| 0 <= i < |init| && Key(init[i]) == k;
        assert Key(ps[i]) == k;
      }
      if exists i :: 0 <= i < |ps| && Key(ps[i]) == k {
        var i :| 0 <= i < |ps| && Key(ps[i]) == k;
        if i < |ps| - 1 {
          assert Key(init[i]) == k;
        }
      }
    }
  }

  /** With one row per key, the balance of a row's key is that row's amount. */
  lemma {:induction false} BalanceAt(ps: seq<Position>, i: int)
    requires UniqueBy(ps, Key)
    requires 0 <= i < |ps|
    ensures Key(ps[i]) in Balances(ps) && Balances(ps)[Key(ps[i])] == ps[i].amount
  {
    var n := |ps| - 1;
    if i < n {
      var init := ps[..n];
      assert UniqueBy(init, Key) by {
        forall a, b | 0 <= a < b < |init| ensures Key(init[a]) != Key(init[b]) {
          assert init[a] == ps[a] && init[b] == ps[b];
        }
      }
      assert init[i] == ps[i];
      BalanceAt(init, i);
      assert Key(ps[i]) != Key(ps[n]);
    }
  }

  lemma BalancesAppend(ps: seq<Position>, p: Position)
    ensures Balances(ps + [p]) == Balances(ps)[Key(p) := p.amount]
  {
    assert (ps + [p])[..|ps|] == ps;
  }

  /** Overwriting the amount of row `j` overwrites the balance of its key and nothing else. */
  lemma {:induction false} BalancesUpdate(ps: seq<Position>, j: int, a: real)
    requires UniqueBy(ps, Key)
    requires 0 <= j < |ps|
    ensures Balances(ps[j := ps[j].(amount := a)]) == Balances(ps)[Key(ps[j]) := a]
  {
    var n := |ps| - 1;
    var qs := ps[j := ps[j].(amount := a)];
    if j == n {
      assert qs[..n] == ps[..n];
    } else {
      var init := ps[..n];
      assert UniqueBy(init, Key) by {
        forall x, y | 0 <= x < y < |init| ensures Key(init[x]) != Key(init[y]) {
          assert init[x] == ps[x] && init[y] == ps[y];
        }
      }
      assert qs[..n] == init[j := init[j].(amount := a)];
      BalancesUpdate(init, j, a);
      assert Key(ps[j]) != Key(ps[n]);
      assert qs[n] == ps[n];
    }
  }

  /** Removing row `j` removes the balance of its key and nothing else. */
  lemma {:induction false} BalancesRemove(ps: seq<Position>, j: int)
    requires UniqueBy(ps, Key)
    requires 0 <= j < |ps|
    ensures Balances(ps[..j] + ps[j + 1..]) == Balances(ps) - {Key(ps[j])}
  {
    var n := |ps| - 1;
    var init := ps[..n];
    if j == n {
      assert ps[..j] + ps[j + 1..] == init;
      assert Key(ps[n]) !in Balances(init) by {
        BalancesDomain(init, Key(ps[n]));
        forall i | 0 <= i < |init| ensures Key(init[i]) != Key(ps[n]) {
          assert init[i] == ps[i];
        }
      }
    } else {
      assert UniqueBy(init, Key) by {
        forall x, y | 0 <= x < y < |init| ensures Key(init[x]) != Key(init[y]) {
          assert init[x] == ps[x] && init[y] == ps[y];
        }
      }
      var qs := ps[..j] + ps[j + 1..];
      assert qs[..|qs| - 1] == init[..j] + init[j + 1..];
      assert qs[|qs| - 1] == ps[n];
      BalancesRemove(init, j);
      assert init[j] == ps[j];
      assert Key(ps[j]) != Key(ps[n]);
    }
  }

  /** `Holding` finds a user's row for a crypto exactly when the pair has a balance. */
  lemma HoldingIsBalance(s: Store, userId: int, cryptoId: int)
    requires UniqueBy(s.positions, Key)
    ensures Holding(s, userId, cryptoId).Some? <==> (userId, cryptoId) in Balances(s.positions)
    ensures Holding(s, userId, cryptoId).Some? ==>
              Key(Holding(s, userId, cryptoId).value) == (userId, cryptoId)
              && Balances(s.positions)[(userId, cryptoId)] == Holding(s, userId, cryptoId).value.amount
  {
    var h := Holding(s, userId, cryptoId);
    BalancesDomain(s.positions, (userId, cryptoId));
    if h.Some? {
      var i :| 0 <= i < |s.positions| && s.positions[i] == h.value;
      BalanceAt(s.positions, i);
    }
  }

  /** With unique row ids, an update by (id, userId) edits the one row it selects. */
  lemma SetAmountAt(ps: seq<Position>, id: int, userId: int, a: real, j: int)
    requires UniqueBy(ps, PositionId)
    requires 0 <= j < |ps| && ps[j].id == id && ps[j].userId == userId
    ensures SetAmount(ps, id, userId, a) == ps[j := ps[j].(amount := a)]
  {
    forall i | 0 <= i < |ps| && i != j ensures ps[i].id != id {
      if i < j { assert PositionId(ps[i]) != PositionId(ps[j]); }
      else { assert PositionId(ps[j]) != PositionId(ps[i]); }
    }
  }

  /** With unique row ids, a delete by (id, userId) removes the one row it selects. */
  lemma DeleteRowAt(ps: seq<Position>, id: int, userId: int, j: int)
    requires UniqueBy(ps, PositionId)
    requires 0 <= j < |ps| && ps[j].id == id && ps[j].userId == userId
    ensures DeletePositionRow(ps, id, userId) == ps[..j] + ps[j + 1..]
  {
    forall i | 0 <= i < |ps| && i != j ensures ps[i].id != id {
      if i < j { assert PositionId(ps[i]) != PositionId(ps[j]); }
      else { assert PositionId(ps[j]) != PositionId(ps[i]); }
    }
    FilterDropsOne(ps, (p: Position) => !(p.id == id && p.userId == userId), j);
  }

  // ----- a well-formed table and the edits the statements make to it -----

  /** Rows `i` and `j` differ both in their pair and in their id. */
  ghost predicate RowsDistinct(ps: seq<Position>, i: int, j: int)
    requires 0 <= i < |ps| && 0 <= j < |ps|
  {
    Key(ps[i]) != Key(ps[j]) && ps[i].id != ps[j].id
  }

  /** One row per (user, crypto) pair, one row per id, and every id below the
      counter `n` the next insert draws from. The pairwise part is stated
      through `RowsDistinct`, so that it is only used for the pairs of rows a
      proof names; `ReadyUnique` turns it into the `UniqueBy` form. */
  ghost predicate TableReady(ps: seq<Position>, n: int) {
    && (forall i, j :: 0 <= i < j < |ps| ==> RowsDistinct(ps, i, j))
    && forall i :: 0 <= i < |ps| ==> ps[i].id < n
  }

  lemma ReadyUnique(ps: seq<Position>, n: int)
    requires TableReady(ps, n)
    ensures UniqueBy(ps, Key) && UniqueBy(ps, PositionId)
  {
    forall i, j | 0 <= i < j < |ps| ensures Key(ps[i]) != Key(ps[j]) && PositionId(ps[i]) != PositionId(ps[j]) {
      assert RowsDistinct(ps, i, j);
    }
  }

  /** In a well-formed table every row's amount is the balance of its pair. */
  lemma ReadyBalanceAt(ps: seq<Position>, n: int, i: int)
    requires TableReady(ps, n) && 0 <= i < |ps|
    ensures Key(ps[i]) in Balances(ps) && Balances(ps)[Key(ps[i])] == ps[i].amount
  {
    ReadyUnique(ps, n);
    BalanceAt(ps, i);
  }

  /** `qs` holds the rows of `ps` in the same places; only amounts may differ. */
  ghost predicate SameRows(ps: seq<Position>, qs: seq<Position>) {
    |qs| == |ps| && forall i :: 0 <= i < |ps| ==> qs[i].id == ps[i].id && Key(qs[i]) == Key(ps[i])
  }

  lemma SameRowsReady(ps: seq<Position>, qs: seq<Position>, n: int)
    requires TableReady(ps, n) && SameRows(ps, qs)
    ensures TableReady(qs, n)
  {
    forall a, b | 0 <= a < b < |qs| ensures RowsDistinct(qs, a, b) {
      assert RowsDistinct(ps, a, b);
    }
  }

  /** The update statement aimed at row `j` rewrites that row's amount, which
      in the balances is an overwrite of its pair, and keeps the table well formed. */
  lemma EditRow(ps: seq<Position>, n: int, j: int, a: real)
    requires TableReady(ps, n) && 0 <= j < |ps|
    ensures var qs := SetAmount(ps, ps[j].id, ps[j].userId, a);
            && SameRows(ps, qs) && TableReady(qs, n)
            && Balances(qs) == Balances(ps)[Key(ps[j]) := a]
  {
    var qs := ps[j := ps[j].(amount := a)];
    assert SetAmount(ps, ps[j].id, ps[j].userId, a) == qs && Balances(qs) == Balances(ps)[Key(ps[j]) := a] by {
      ReadyUnique(ps, n);
      SetAmountAt(ps, ps[j].id, ps[j].userId, a, j);
      BalancesUpdate(ps, j, a);
    }
    SameRowsReady(ps, SetAmount(ps, ps[j].id, ps[j].userId, a), n);
  }

  /** Appending a row with the counter's id for a pair without a balance keeps
      the table well formed and gives that pair its balance. */
  lemma AppendRow(ps: seq<Position>, n: int, p: Position)
    requires TableReady(ps, n) && p.id == n && Key(p) !in Balances(ps)
    ensures TableReady(ps + [p], n + 1)
    ensures Balances(ps + [p]) == Balances(ps)[Key(p) := p.amount]
  {
    BalancesAppend(ps, p);
    BalancesDomain(ps, Key(p));
    var qs := ps + [p];
    forall a, b | 0 <= a < b < |qs| ensures RowsDistinct(qs, a, b) {
      assert qs[a] == ps[a];
      if b < |ps| {
        assert qs[b] == ps[b];
        assert RowsDistinct(ps, a, b);
      }
    }
  }

  /** Dropping row `j` of a well-formed table leaves it well formed. */
  lemma DropReady(ps: seq<Position>, n: int, j: int)
    requires TableReady(ps, n) && 0 <= j < |ps|
    ensures TableReady(ps[..j] + ps[j + 1..], n)
  {
    var qs := ps[..j] + ps[j + 1..];
    forall a, b | 0 <= a < b < |qs| ensures RowsDistinct(qs, a, b) {
      var a' := if a < j then a else a + 1;
      var b' := if b < j then b else b + 1;
      assert qs[a] == ps[a'] && qs[b] == ps[b'];
      assert RowsDistinct(ps, a', b');
    }
  }

  /** The delete statement aimed at row `j` removes that row, which in the
      balances is the removal of its pair, and keeps the table well formed. */
  lemma RemoveRow(ps: seq<Position>, n: int, j: int)
    requires TableReady(ps, n) && 0 <= j < |ps|
    ensures var qs := DeletePositionRow(ps, ps[j].id, ps[j].userId);
            && qs == ps[..j] + ps[j + 1..]
            && TableReady(qs, n)
            && Balances(qs) == Balances(ps) - {Key(ps[j])}
  {
    var qs := ps[..j] + ps[j + 1..];
    assert DeletePositionRow(ps, ps[j].id, ps[j].userId) == qs && Balances(qs) == Balances(ps) - {Key(ps[j])} by {
      ReadyUnique(ps, n);
      DeleteRowAt(ps, ps[j].id, ps[j].userId, j);
      BalancesRemove(ps, j);
    }
    DropReady(ps, n, j);
  }

  /** Deleting row `i` moves every later row one place down. */
  lemma RemoveShifts(ps: seq<Position>, n: int, i: int, j: int)
    requires TableReady(ps, n) && 0 <= i < |ps| && 0 <= j < |ps| && i != j
    ensures var ds := DeletePositionRow(ps, ps[i].id, ps[i].userId);
            |ds| == |ps| - 1 && ds[if j < i then j else j - 1] == ps[j]
  {
    ReadyUnique(ps, n);
    DeleteRowAt(ps, ps[i].id, ps[i].userId, i);
  }

  /** Two updates aimed at different rows `i` and `j`, as a BUY or SELL makes them. */
  lemma EditTwoRows(ps: seq<Position>, n: int, i: int, j: int, a: real, b: real)
    requires TableReady(ps, n) && 0 <= i < |ps| && 0 <= j < |ps| && i != j
    ensures var qs := SetAmount(SetAmount(ps, ps[i].id, ps[i].userId, a), ps[j].id, ps[j].userId, b);
            && TableReady(qs, n)
            && Balances(qs) == Balances(ps)[Key(ps[i]) := a][Key(ps[j]) := b]
  {
    EditRow(ps, n, i, a);
    var ps1 := SetAmount(ps, ps[i].id, ps[i].userId, a);
    assert ps1[j].id == ps[j].id && ps1[j].userId == ps[j].userId && Key(ps1[j]) == Key(ps[j]);
    EditRow(ps1, n, j, b);
  }

  /** An insert followed by an update of an older row `j`, as a BUY into a new crypto makes them. */
  lemma AppendThenEdit(ps: seq<Position>, n: int, p: Position, j: int, b: real)
    requires TableReady(ps, n) && p.id == n && Key(p) !in Balances(ps) && 0 <= j < |ps|
    ensures var qs := SetAmount(ps + [p], ps[j].id, ps[j].userId, b);
            && TableReady(qs, n + 1)
            && Balances(qs) == Balances(ps)[Key(p) := p.amount][Key(ps[j]) := b]
  {
    AppendRow(ps, n, p);
    assert (ps + [p])[j] == ps[j];
    EditRow(ps + [p], n + 1, j, b);
  }

  /** A delete of row `i` followed by an update of another row `j`, as a SELL that closes a position makes them. */
  lemma RemoveThenEdit(ps: seq<Position>, n: int, i: int, j: int, b: real)
    requires TableReady(ps, n) && 0 <= i < |ps| && 0 <= j < |ps| && i != j
    ensures var qs := SetAmount(DeletePositionRow(ps, ps[i].id, ps[i].userId), ps[j].id, ps[j].userId, b);
            && TableReady(qs, n)
            && Balances(qs) == (Balances(ps) - {Key(ps[i])})[Key(ps[j]) := b]
  {
    var ps1 := DeletePositionRow(ps, ps[i].id, ps[i].userId);
    var j' := if j < i then j else j - 1;
    assert TableReady(ps1, n) && Balances(ps1) == Balances(ps) - {Key(ps[i])} by {
      RemoveRow(ps, n, i);
    }
    RemoveShifts(ps, n, i, j);
    EditRow(ps1, n, j', b);
  }
}
