/** The strategy record as it arrives in a request: a named set of triggers. */
module StrategyDto {
  import opened Errors
  import opened Validation
  import opened TriggerDto

  datatype Strategy = Strategy(id: int, name: Option<string>, userId: int, triggers: seq<Trigger>)

  const IdMessage := "Id must be positive."
  const NameMessage := "Name must be between 5 and 20 chatacters."
  const UserIdMessage := "User id must be positive."

  /** The checks of `Validate` in declaration order; none of them looks at the triggers. */
  function Rules(s: Strategy): seq<Rule> {
    [ Rule(s.id >= 0, IdMessage),
      Rule(s.name.None? || 5 <= |s.name.value| <= 20, NameMessage),
      Rule(s.userId >= 0, UserIdMessage) ]
  }

  function Validate(s: Strategy): (r: Result<Strategy>)
    ensures r.Ok? <==> s.id >= 0 && s.userId >= 0 && (s.name.Some? ==> 5 <= |s.name.value| <= 20)
    ensures r.Ok? ==> r.value == s
    ensures r == Verdict(Rules(s), s)
  {
    if s.id != 0 && s.id < 1 then
      FirstViolationAt(Rules(s), 0);
      Err(BadRequest(IdMessage))
    else if s.name.Some? && (|s.name.value| < 5 || |s.name.value| > 20) then
      FirstViolationAt(Rules(s), 1);
      Err(BadRequest(NameMessage))
    else if s.userId != 0 && s.userId < 1 then
      FirstViolationAt(Rules(s), 2);
      Err(BadRequest(UserIdMessage))
    else Ok(s)
  }

  /** Replacing the trigger list never changes whether, or why, validation fails. */
  lemma TriggersNotInspected(s: Strategy, ts: seq<Trigger>)
    ensures Validate(s.(triggers := ts)).Ok? == Validate(s).Ok?
    ensures Validate(s).Err? ==> Validate(s.(triggers := ts)).error == Validate(s).error
  {
  }
}
