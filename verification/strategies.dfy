/** Strategies and their triggers.

 A strategy is a named set of triggers owned by a user. Names are unique
 across all users; within one strategy each indicator has at most one
 trigger. Creating and updating a strategy write its triggers inside one
 transaction, so a rejected trigger undoes the whole call.
 */
module Strategies {
  import opened Errors
  import opened Seqs
  import opened TriggerDto
  import opened Store

  const NameTaken := "Name already exists."
  const DuplicateTrigger := "Trigger with specified indicatorId already exists for specified strategyId"

  function TriggerKey(t: Trigger): (int, int) {
    (t.strategyId, t.indicatorId)
  }

  /** The rows the requested triggers become, with ids from `firstId` upwards. */
  function Instantiate(ts: seq<Trigger>, strategyId: int, firstId: int): (r: seq<Trigger>)
    ensures |r| == |ts|
    ensures forall i :: 0 <= i < |ts| ==>
              r[i] == Trigger(firstId + i, strategyId, ts[i].indicatorId, ts[i].indicatorValue, ts[i].triggerTypeId)
  {
    seq(|ts|, i requires 0 <= i < |ts| =>
      Trigger(firstId + i, strategyId, ts[i].indicatorId, ts[i].indicatorValue, ts[i].triggerTypeId))
  }

  /** The requested triggers can all be stored for `strategyId`: indicators and
      trigger types exist, no indicator is repeated, and none is already used. */
  ghost predicate Admissible(s: Store, strategyId: int, ts: seq<Trigger>) {
    && (forall i :: 0 <= i < |ts| ==> IndicatorById(s, ts[i].indicatorId).Some?)
    && (forall i :: 0 <= i < |ts| ==> TriggerTypeById(s, ts[i].triggerTypeId).Some?)
    && (forall i, j :: 0 <= i < j < |ts| ==> ts[i].indicatorId != ts[j].indicatorId)
    && (forall i :: 0 <= i < |ts| ==> TriggerFor(s, strategyId, ts[i].indicatorId).None?)
  }

  function GetStrategy(s: Store, id: int, userId: int): (r: Result<Strategy>)
    ensures r.Ok? ==> r.value in s.strategies && r.value.id == id && r.value.userId == userId
    ensures r.Err? <==> forall i :: 0 <= i < |s.strategies| ==> !(s.strategies[i].id == id && s.strategies[i].userId == userId)
    ensures r.Err? ==> r.error == NotFound(StrategyNotFound)
  {
    match StrategyById(s, id, userId)
    case None => Err(NotFound(StrategyNotFound))
    case Some(st) => Ok(st)
  }

  /** Inserts one trigger for `strategyId`, refusing a second trigger on the same indicator. */
  function CreateTriggerTx(s: Store, strategyId: int, t: Trigger): (r: Result<(Store, Trigger)>)
    ensures IndicatorById(s, t.indicatorId).None? ==> r == Err(NotFound(IndicatorNotFound))
    ensures IndicatorById(s, t.indicatorId).Some? && TriggerTypeById(s, t.triggerTypeId).None?
            ==> r == Err(NotFound(TriggerTypeNotFound))
    ensures (IndicatorById(s, t.indicatorId).Some? && TriggerTypeById(s, t.triggerTypeId).Some?
             && TriggerFor(s, strategyId, t.indicatorId).Some?) ==> r == Err(BadRequest(DuplicateTrigger))
    ensures r.Ok? <==> && IndicatorById(s, t.indicatorId).Some? && TriggerTypeById(s, t.triggerTypeId).Some?
                       && TriggerFor(s, strategyId, t.indicatorId).None?
    ensures r.Ok? ==> && r.value.1 == Trigger(s.nextId, strategyId, t.indicatorId, t.indicatorValue, t.triggerTypeId)
                      && r.value.0 == s.(triggers := s.triggers + [r.value.1], nextId := s.nextId + 1)
  {
    if IndicatorById(s, t.indicatorId).None? then Err(NotFound(IndicatorNotFound))
    else if TriggerTypeById(s, t.triggerTypeId).None? then Err(NotFound(TriggerTypeNotFound))
    else if TriggerFor(s, strategyId, t.indicatorId).Some? then Err(BadRequest(DuplicateTrigger))
    else
      var row := Trigger(s.nextId, strategyId, t.indicatorId, t.indicatorValue, t.triggerTypeId);
      Ok((s.(triggers := s.triggers + [row], nextId := s.nextId + 1), row))
  }

  /** A trigger appended for another indicator or strategy leaves a lookup's answer as it was. */
  lemma TriggerForAppend(s: Store, row: Trigger, strategyId: int, indicatorId: int)
    ensures TriggerFor(s.(triggers := s.triggers + [row]), strategyId, indicatorId).None?
            <==> TriggerFor(s, strategyId, indicatorId).None? && TriggerKey(row) != (strategyId, indicatorId)
  {
    var ts := s.triggers + [row];
    assert forall i :: 0 <= i < |s.triggers| ==> ts[i] == s.triggers[i];
    assert ts[|s.triggers|] == row;
  }

  /** Inserts the requested triggers in order; the first one refused aborts the rest. */
  function CreateTriggersTx(s: Store, strategyId: int, ts: seq<Trigger>): (r: Result<Store>)
    ensures r.Ok? ==> r.value == s.(triggers := s.triggers + Instantiate(ts, strategyId, s.nextId),
                                    nextId := s.nextId + |ts|)
    decreases |ts|
  {
    if |ts| == 0 then Ok(s)
    else
      match CreateTriggerTx(s, strategyId, ts[0])
      case Err(e) => Err(e)
      case Ok(created) =>
        var r := CreateTriggersTx(created.0, strategyId, ts[1..]);
        if r.Ok? then
          TriggersStep(s, created.0, r.value, strategyId, ts);
          r
        else r
  }

  /** The triggers are all stored exactly when the list is admissible. */
  lemma {:induction false} CreateTriggersAdmissible(s: Store, strategyId: int, ts: seq<Trigger>)
    ensures CreateTriggersTx(s, strategyId, ts).Ok? <==> Admissible(s, strategyId, ts)
    decreases |ts|
  {
    if |ts| > 0 {
      var c := CreateTriggerTx(s, strategyId, ts[0]);
      if c.Ok? {
        CreateTriggersAdmissible(c.value.0, strategyId, ts[1..]);
        AdmissibleStep(s, strategyId, ts, c.value.0);
      } else {
        assert !(&& IndicatorById(s, ts[0].indicatorId).Some? && TriggerTypeById(s, ts[0].triggerTypeId).Some?
                 && TriggerFor(s, strategyId, ts[0].indicatorId).None?);
      }
    }
  }

  /** One trigger inserted, then the rest: the whole list inserted. */
  lemma TriggersStep(s: Store, s1: Store, s2: Store, strategyId: int, ts: seq<Trigger>)
    requires |ts| > 0
    requires s1 == s.(triggers := s.triggers + [Instantiate(ts, strategyId, s.nextId)[0]], nextId := s.nextId + 1)
    requires s2 == s1.(triggers := s1.triggers + Instantiate(ts[1..], strategyId, s1.nextId), nextId := s1.nextId + |ts[1..]|)
    ensures s2 == s.(triggers := s.triggers + Instantiate(ts, strategyId, s.nextId), nextId := s.nextId + |ts|)
  {
    InstantiateCons(ts, strategyId, s.nextId, s.triggers);
    assert s2.triggers == s.triggers + Instantiate(ts, strategyId, s.nextId);
  }

  lemma InstantiateCons(ts: seq<Trigger>, strategyId: int, firstId: int, before: seq<Trigger>)
    requires |ts| > 0
    ensures before + [Instantiate(ts, strategyId, firstId)[0]] + Instantiate(ts[1..], strategyId, firstId + 1)
            == before + Instantiate(ts, strategyId, firstId)
  {
    var a := Instantiate(ts, strategyId, firstId);
    var b := Instantiate(ts[1..], strategyId, firstId + 1);
    assert [a[0]] + b == a by {
      forall i | 0 <= i < |a| ensures ([a[0]] + b)[i] == a[i] {
        if i > 0 { assert ts[1..][i - 1] == ts[i]; }
      }
    }
    assert before + [a[0]] + b == before + ([a[0]] + b);
  }

  /** Admissibility of a list is admissibility of its head, then of its tail after the head is stored. */
  lemma AdmissibleStep(s: Store, strategyId: int, ts: seq<Trigger>, s1: Store)
    requires |ts| > 0
    requires CreateTriggerTx(s, strategyId, ts[0]).Ok?
    requires s1 == CreateTriggerTx(s, strategyId, ts[0]).value.0
    ensures Admissible(s, strategyId, ts) <==> Admissible(s1, strategyId, ts[1..])
  {
    var row := CreateTriggerTx(s, strategyId, ts[0]).value.1;
    forall k ensures TriggerFor(s1, strategyId, k).None?
                     <==> TriggerFor(s, strategyId, k).None? && k != ts[0].indicatorId {
      TriggerForAppend(s, row, strategyId, k);
    }
    if Admissible(s1, strategyId, ts[1..]) {
      AdmissibleFromTail(s, strategyId, ts, s1);
    }
    if Admissible(s, strategyId, ts) {
      AdmissibleToTail(s, strategyId, ts, s1);
    }
  }

  /** The forward half of `AdmissibleStep`: once the head of an admissible list is stored, its tail is admissible. */
  lemma AdmissibleToTail(s: Store, strategyId: int, ts: seq<Trigger>, s1: Store)
    requires |ts| > 0
    requires s1.indicators == s.indicators && s1.triggerTypes == s.triggerTypes
    requires forall k :: TriggerFor(s1, strategyId, k).None? <==> TriggerFor(s, strategyId, k).None? && k != ts[0].indicatorId
    requires Admissible(s, strategyId, ts)
    ensures Admissible(s1, strategyId, ts[1..])
  {
    forall i | 0 <= i < |ts[1..]| ensures TriggerFor(s1, strategyId, ts[1..][i].indicatorId).None? {
      assert ts[1..][i] == ts[i + 1];
      assert ts[0].indicatorId != ts[i + 1].indicatorId;
    }
  }

  /** The backward half of `AdmissibleStep`: an admissible tail, stored after an admissible head, makes the list admissible. */
  lemma AdmissibleFromTail(s: Store, strategyId: int, ts: seq<Trigger>, s1: Store)
    requires |ts| > 0
    requires IndicatorById(s, ts[0].indicatorId).Some? && TriggerTypeById(s, ts[0].triggerTypeId).Some?
    requires TriggerFor(s, strategyId, ts[0].indicatorId).None?
    requires s1.indicators == s.indicators && s1.triggerTypes == s.triggerTypes
    requires forall k :: TriggerFor(s1, strategyId, k).None? <==> TriggerFor(s, strategyId, k).None? && k != ts[0].indicatorId
    requires Admissible(s1, strategyId, ts[1..])
    ensures Admissible(s, strategyId, ts)
  {
    forall i, j | 0 <= i < j < |ts| ensures ts[i].indicatorId != ts[j].indicatorId {
      if i > 0 {
        assert ts[1..][i - 1] == ts[i] && ts[1..][j - 1] == ts[j];
      } else {
        assert ts[1..][j - 1] == ts[j];
      }
    }
    forall i | 0 <= i < |ts| ensures TriggerFor(s, strategyId, ts[i].indicatorId).None? {
      if i > 0 { assert ts[1..][i - 1] == ts[i]; }
    }
    forall i | 0 <= i < |ts| ensures IndicatorById(s, ts[i].indicatorId).Some?
                                  && TriggerTypeById(s, ts[i].triggerTypeId).Some? {
      if i > 0 { assert ts[1..][i - 1] == ts[i]; }
    }
  }

  /** Creates strategy `name` for `userId` together with its triggers. */
  function CreateStrategy(s: Store, userId: int, name: string, triggers: seq<Trigger>): (o: Outcome<Strategy>)
    ensures o.result.Err? ==> o.store == s
    ensures UserById(s, userId).None? ==> o == Abort(s, NotFound(UserIdNotFound))
    ensures UserById(s, userId).Some? && StrategyByName(s, name).Some? ==> o == Abort(s, BadRequest(NameTaken))
    ensures o.result.Ok? <==> && UserById(s, userId).Some? && StrategyByName(s, name).None?
                              && Admissible(s, s.nextId, triggers)
    ensures o.result.Ok? ==>
              && o.result.value == Strategy(s.nextId, name, userId)
              && o.store == s.(strategies := s.strategies + [o.result.value],
                               triggers := s.triggers + Instantiate(triggers, s.nextId, s.nextId + 1),
                               nextId := s.nextId + 1 + |triggers|)
  {
    if UserById(s, userId).None? then Abort(s, NotFound(UserIdNotFound))
    else if StrategyByName(s, name).Some? then Abort(s, BadRequest(NameTaken))
    else
      var st := Strategy(s.nextId, name, userId);
      var s1 := s.(strategies := s.strategies + [st], nextId := s.nextId + 1);
      assert s1.indicators == s.indicators && s1.triggerTypes == s.triggerTypes && s1.triggers == s.triggers;
      CreateTriggersAdmissible(s1, st.id, triggers);
      Settle(s, (var s2 :- CreateTriggersTx(s1, st.id, triggers); Ok((s2, st))))
  }

  /** Renames strategy (id, userId) and replaces its whole trigger set. */
  function UpdateStrategy(s: Store, id: int, userId: int, name: string, triggers: seq<Trigger>): (o: Outcome<Strategy>)
    ensures o.result.Err? ==> o.store == s
    ensures GetStrategy(s, id, userId).Err? ==> o == Abort(s, NotFound(StrategyNotFound))
    ensures GetStrategy(s, id, userId).Ok? ==>
              var holder := StrategyByName(s, name);
              holder.Some? && holder.value.id != id ==> o == Abort(s, BadRequest(NameTaken))
    ensures o.result.Ok? <==> && GetStrategy(s, id, userId).Ok?
                              && (StrategyByName(s, name).Some? ==> StrategyByName(s, name).value.id == id)
                              && Admissible(s.(triggers := Filter(s.triggers, (t: Trigger) => t.strategyId != id)), id, triggers)
    ensures o.result.Ok? ==>
              && GetStrategy(s, id, userId).Ok?
              && (StrategyByName(s, name).Some? ==> StrategyByName(s, name).value.id == id)
              && o.result.value == Strategy(id, name, userId)
              && o.store.users == s.users && o.store.positions == s.positions && o.store.trades == s.trades
              && o.store.nextId == s.nextId + |triggers|
              && o.store.strategies == RenameStrategy(s.strategies, id, name)
              && o.store.triggers == Filter(s.triggers, (t: Trigger) => t.strategyId != id)
                                     + Instantiate(triggers, id, s.nextId)
  {
    match GetStrategy(s, id, userId)
    case Err(e) => Abort(s, e)
    case Ok(_) =>
      var existing := StrategyByName(s, name);
      if existing.Some? && existing.value.id != id then Abort(s, BadRequest(NameTaken))
      else
        var s1 := s.(strategies := RenameStrategy(s.strategies, id, name),
                     triggers := Filter(s.triggers, (t: Trigger) => t.strategyId != id));
        CreateTriggersAdmissible(s1, id, triggers);
        AdmissibleFrame(s1, s.(triggers := s1.triggers), id, triggers);
        match CreateTriggersTx(s1, id, triggers)
        case Err(e) => Abort(s, e)
        case Ok(s2) =>
          RenamedStillThere(s.strategies, id, userId, name);
          Outcome(s2, Ok(StrategyById(s2, id, userId).value))
  }

  /** Admissibility reads only the indicators, the trigger types and the triggers. */
  lemma AdmissibleFrame(s: Store, s': Store, strategyId: int, ts: seq<Trigger>)
    requires s'.indicators == s.indicators && s'.triggerTypes == s.triggerTypes && s'.triggers == s.triggers
    ensures Admissible(s', strategyId, ts) <==> Admissible(s, strategyId, ts)
  {
  }

  function StrategyName(st: Strategy): string {
    st.name
  }

  /** With names unique, a strategy may keep its own name: the update then
      succeeds exactly when the new triggers are admissible once the old ones
      are gone. With no triggers at all it always succeeds. */
  lemma UpdateKeepsOwnName(s: Store, id: int, userId: int, triggers: seq<Trigger>)
    requires UniqueBy(s.strategies, StrategyName)
    requires GetStrategy(s, id, userId).Ok?
    ensures var name := GetStrategy(s, id, userId).value.name;
            var o := UpdateStrategy(s, id, userId, name, triggers);
            && (o.result.Ok? <==> Admissible(s.(triggers := Filter(s.triggers, (t: Trigger) => t.strategyId != id)), id, triggers))
            && UpdateStrategy(s, id, userId, name, []).result.Ok?
  {
    var st := GetStrategy(s, id, userId).value;
    var i :| 0 <= i < |s.strategies| && s.strategies[i] == st;
    FirstOfUniqueKey(s.strategies, StrategyName, st.name, i, (x: Strategy) => x.name == st.name);
  }

  function StrategyId(st: Strategy): int {
    st.id
  }

  /** What the strategy tables keep between calls: names unique across all
      users, one row per strategy id with every id drawn from the counter, and
      at most one trigger per (strategy, indicator). */
  ghost predicate StrategiesReady(s: Store) {
    && UniqueBy(s.strategies, StrategyName)
    && UniqueBy(s.strategies, StrategyId)
    && (forall i :: 0 <= i < |s.strategies| ==> s.strategies[i].id < s.nextId)
    && UniqueBy(s.triggers, TriggerKey)
  }

  /** Storing an admissible trigger list keeps one trigger per (strategy, indicator). */
  lemma InstantiateUnique(s: Store, strategyId: int, ts: seq<Trigger>, firstId: int)
    requires UniqueBy(s.triggers, TriggerKey)
    requires Admissible(s, strategyId, ts)
    ensures UniqueBy(s.triggers + Instantiate(ts, strategyId, firstId), TriggerKey)
  {
    var added := Instantiate(ts, strategyId, firstId);
    forall i, j | 0 <= i < |s.triggers| && 0 <= j < |added|
      ensures TriggerKey(s.triggers[i]) != TriggerKey(added[j])
    {
      assert TriggerFor(s, strategyId, ts[j].indicatorId).None?;
    }
    forall i, j | 0 <= i < j < |added| ensures TriggerKey(added[i]) != TriggerKey(added[j]) {
      assert ts[i].indicatorId != ts[j].indicatorId;
    }
    UniqueConcat(s.triggers, added, TriggerKey);
  }

  /** Every call of `CreateStrategy` keeps the strategy tables ready: the name
      was free, the id is the counter's, and the triggers are admissible. */
  lemma CreateKeepsStrategiesReady(s: Store, userId: int, name: string, triggers: seq<Trigger>)
    requires StrategiesReady(s)
    ensures StrategiesReady(CreateStrategy(s, userId, name, triggers).store)
  {
    var o := CreateStrategy(s, userId, name, triggers);
    if o.result.Ok? {
      var s' := o.store;
      AppendStrategyReady(s, Strategy(s.nextId, name, userId), triggers, s');
    }
  }

  /** Appending a strategy under the counter's id with a free name, followed by an admissible trigger list, keeps the tables ready. */
  lemma AppendStrategyReady(s: Store, st: Strategy, triggers: seq<Trigger>, s': Store)
    requires StrategiesReady(s)
    requires st.id == s.nextId && StrategyByName(s, st.name).None? && Admissible(s, st.id, triggers)
    requires s'.strategies == s.strategies + [st]
    requires s'.triggers == s.triggers + Instantiate(triggers, st.id, st.id + 1)
    requires s'.nextId == s.nextId + 1 + |triggers|
    ensures StrategiesReady(s')
  {
    forall i | 0 <= i < |s.strategies| ensures StrategyName(s.strategies[i]) != StrategyName(st) {
      assert StrategyByName(s, st.name).None?;
    }
    UniqueConcat(s.strategies, [st], StrategyName);
    UniqueConcat(s.strategies, [st], StrategyId);
    InstantiateUnique(s, st.id, triggers, st.id + 1);
  }

  /** With ids unique, renaming strategy `id` to a name no other strategy holds keeps names unique. */
  lemma RenameKeepsUnique(s: Store, id: int, name: string)
    requires UniqueBy(s.strategies, StrategyName) && UniqueBy(s.strategies, StrategyId)
    requires StrategyByName(s, name).Some? ==> StrategyByName(s, name).value.id == id
    ensures UniqueBy(RenameStrategy(s.strategies, id, name), StrategyName)
    ensures UniqueBy(RenameStrategy(s.strategies, id, name), StrategyId)
  {
    var sts := s.strategies;
    var r := RenameStrategy(sts, id, name);
    forall i | 0 <= i < |sts| && sts[i].id != id ensures sts[i].name != name {
      if sts[i].name == name {
        FirstOfUniqueKey(sts, StrategyName, name, i, (st: Strategy) => st.name == name);
      }
    }
    forall i, j | 0 <= i < j < |r| ensures StrategyName(r[i]) != StrategyName(r[j]) && StrategyId(r[i]) != StrategyId(r[j]) {
      assert StrategyId(sts[i]) != StrategyId(sts[j]);
    }
  }

  /** Every call of `UpdateStrategy` keeps the strategy tables ready: the new
      name was free or the strategy's own, and the new triggers are admissible
      once the old ones are gone. */
  lemma UpdateKeepsStrategiesReady(s: Store, id: int, userId: int, name: string, triggers: seq<Trigger>)
    requires StrategiesReady(s)
    ensures StrategiesReady(UpdateStrategy(s, id, userId, name, triggers).store)
  {
    var o := UpdateStrategy(s, id, userId, name, triggers);
    if o.result.Ok? {
      var s' := o.store;
      ReplaceStrategyReady(s, id, name, triggers, s');
    }
  }

  /** Renaming strategy `id` to a free name or its own, and replacing its
      triggers by a list admissible once the old ones are gone, keeps the tables ready. */
  lemma ReplaceStrategyReady(s: Store, id: int, name: string, triggers: seq<Trigger>, s': Store)
    requires StrategiesReady(s)
    requires StrategyByName(s, name).Some? ==> StrategyByName(s, name).value.id == id
    requires Admissible(s.(triggers := Filter(s.triggers, (t: Trigger) => t.strategyId != id)), id, triggers)
    requires s'.strategies == RenameStrategy(s.strategies, id, name)
    requires s'.triggers == Filter(s.triggers, (t: Trigger) => t.strategyId != id) + Instantiate(triggers, id, s.nextId)
    requires s'.nextId == s.nextId + |triggers|
    ensures StrategiesReady(s')
  {
    RenameKeepsUnique(s, id, name);
    var kept := Filter(s.triggers, (t: Trigger) => t.strategyId != id);
    FilterPreservesUnique(s.triggers, (t: Trigger) => t.strategyId != id, TriggerKey);
    InstantiateUnique(s.(triggers := kept), id, triggers, s.nextId);
    forall i | 0 <= i < |s'.strategies| ensures s'.strategies[i].id < s'.nextId {
      assert s'.strategies[i].id == s.strategies[i].id;
    }
  }

  /** Every call of `DeleteStrategy` keeps the strategy tables ready: it only removes rows. */
  lemma DeleteKeepsStrategiesReady(s: Store, id: int, userId: int)
    requires StrategiesReady(s)
    ensures StrategiesReady(DeleteStrategy(s, id, userId).store)
  {
    var o := DeleteStrategy(s, id, userId);
    if o.result.Ok? {
      var keep := (st: Strategy) => !(st.id == id && st.userId == userId);
      FilterPreservesUnique(s.strategies, keep, StrategyName);
      FilterPreservesUnique(s.strategies, keep, StrategyId);
      FilterPreservesUnique(s.triggers, (t: Trigger) => t.strategyId != id, TriggerKey);
    }
  }

  /** `update strategy set name = name where id = id`. */
  function RenameStrategy(sts: seq<Strategy>, id: int, name: string): (r: seq<Strategy>)
    ensures |r| == |sts|
    ensures forall i :: 0 <= i < |sts| ==>
              r[i] == (if sts[i].id == id then sts[i].(name := name) else sts[i])
  {
    seq(|sts|, i requires 0 <= i < |sts| => if sts[i].id == id then sts[i].(name := name) else sts[i])
  }

  lemma RenamedStillThere(sts: seq<Strategy>, id: int, userId: int, name: string)
    requires exists i :: 0 <= i < |sts| && sts[i].id == id && sts[i].userId == userId
    ensures var r := First(RenameStrategy(sts, id, name), (st: Strategy) => st.id == id && st.userId == userId);
            r == Some(Strategy(id, name, userId))
  {
    var i :| 0 <= i < |sts| && sts[i].id == id && sts[i].userId == userId;
    var r := RenameStrategy(sts, id, name);
    assert r[i].id == id && r[i].userId == userId;
  }

  /** Deletes strategy (id, userId) together with its triggers. */
  function DeleteStrategyTx(s: Store, id: int, userId: int): (r: Result<Store>)
    ensures r.Err? <==> GetStrategy(s, id, userId).Err?
    ensures r.Err? ==> r.error == NotFound(StrategyNotFound)
    ensures r.Ok? ==> r.value == s.(strategies := Filter(s.strategies, (st: Strategy) => !(st.id == id && st.userId == userId)),
                                    triggers := Filter(s.triggers, (t: Trigger) => t.strategyId != id))
  {
    var _ :- GetStrategy(s, id, userId);
    Ok(s.(triggers := Filter(s.triggers, (t: Trigger) => t.strategyId != id),
          strategies := Filter(s.strategies, (st: Strategy) => !(st.id == id && st.userId == userId))))
  }

  function DeleteStrategy(s: Store, id: int, userId: int): (o: Outcome<()>)
    ensures o.result.Err? <==> GetStrategy(s, id, userId).Err?
    ensures o.result.Err? ==> o == Abort(s, NotFound(StrategyNotFound))
    ensures o.result.Ok? ==> forall i :: 0 <= i < |o.store.triggers| ==> o.store.triggers[i].strategyId != id
    ensures o.result.Ok? ==> forall i :: 0 <= i < |o.store.strategies| ==>
              !(o.store.strategies[i].id == id && o.store.strategies[i].userId == userId)
    ensures o.result.Ok? ==> o.store == DeleteStrategyTx(s, id, userId).value
  {
    match DeleteStrategyTx(s, id, userId)
    case Err(e) => Abort(s, e)
    case Ok(s') => Outcome(s', Ok(()))
  }

  /** The ids of a list of strategies. */
  function Ids(sts: seq<Strategy>): (r: set<int>)
    ensures forall i :: 0 <= i < |sts| ==> sts[i].id in r
    ensures forall x :: x in r ==> exists i :: 0 <= i < |sts| && sts[i].id == x
  {
    if |sts| == 0 then {} else {sts[0].id} + Ids(sts[1..])
  }

  /** Deletes each listed strategy of `userId` in turn, as the user teardown does.
      The existence check of each step reads `committed`, the store as it stood
      before the enclosing transaction, while the deletes act on the working
      store `s`. */
  function DeleteStrategiesTx(committed: Store, s: Store, sts: seq<Strategy>, userId: int): (r: Result<Store>)
    ensures r.Ok? <==> forall i :: 0 <= i < |sts| ==> GetStrategy(committed, sts[i].id, userId).Ok?
    ensures r.Err? ==> r.error == NotFound(StrategyNotFound)
    ensures r.Ok? ==> r.value == s.(triggers := Filter(s.triggers, (t: Trigger) => t.strategyId !in Ids(sts)),
                                    strategies := Filter(s.strategies, (st: Strategy) => !(st.id in Ids(sts) && st.userId == userId)))
    decreases |sts|
  {
    if |sts| == 0 then
      FilterKeepsAll(s.triggers, (t: Trigger) => t.strategyId !in Ids(sts));
      FilterKeepsAll(s.strategies, (st: Strategy) => !(st.id in Ids(sts) && st.userId == userId));
      Ok(s)
    else
      match GetStrategy(committed, sts[0].id, userId)
      case Err(e) => Err(e)
      case Ok(_) =>
        AllFoundCons(committed, sts, userId);
        var id := sts[0].id;
        var s1 := s.(triggers := Filter(s.triggers, (t: Trigger) => t.strategyId != id),
                     strategies := Filter(s.strategies, (st: Strategy) => !(st.id == id && st.userId == userId)));
        var r := DeleteStrategiesTx(committed, s1, sts[1..], userId);
        if r.Ok? then
          DeleteStrategiesStep(s, sts, userId);
          r
        else r
  }

  /** Every strategy of a non-empty list is found exactly when the head and every one of the tail are. */
  lemma AllFoundCons(s: Store, sts: seq<Strategy>, userId: int)
    requires |sts| > 0
    ensures (forall i :: 0 <= i < |sts| ==> GetStrategy(s, sts[i].id, userId).Ok?)
            <==> GetStrategy(s, sts[0].id, userId).Ok? && forall i :: 0 <= i < |sts[1..]| ==> GetStrategy(s, sts[1..][i].id, userId).Ok?
  {
    if GetStrategy(s, sts[0].id, userId).Ok? && forall i :: 0 <= i < |sts[1..]| ==> GetStrategy(s, sts[1..][i].id, userId).Ok? {
      forall i | 0 < i < |sts| ensures GetStrategy(s, sts[i].id, userId).Ok? {
        assert sts[i] == sts[1..][i - 1];
      }
    }
  }

  /** Deleting the head, then the tail, deletes the whole list. */
  lemma DeleteStrategiesStep(s: Store, sts: seq<Strategy>, userId: int)
    requires |sts| > 0
    ensures var id := sts[0].id;
            var rest := Ids(sts[1..]);
            && Filter(Filter(s.triggers, (t: Trigger) => t.strategyId != id), (t: Trigger) => t.strategyId !in rest)
               == Filter(s.triggers, (t: Trigger) => t.strategyId !in Ids(sts))
            && Filter(Filter(s.strategies, (st: Strategy) => !(st.id == id && st.userId == userId)),
                      (st: Strategy) => !(st.id in rest && st.userId == userId))
               == Filter(s.strategies, (st: Strategy) => !(st.id in Ids(sts) && st.userId == userId))
  {
    var id := sts[0].id;
    var rest := Ids(sts[1..]);
    FilterFilter(s.triggers, (t: Trigger) => t.strategyId != id, (t: Trigger) => t.strategyId !in rest,
                 (t: Trigger) => t.strategyId !in Ids(sts));
    FilterFilter(s.strategies, (st: Strategy) => !(st.id == id && st.userId == userId),
                 (st: Strategy) => !(st.id in rest && st.userId == userId),
                 (st: Strategy) => !(st.id in Ids(sts) && st.userId == userId));
  }
}
