/** The shape shared by every request record's `Validate`.

 A record's checks are an ordered list of rules, each a condition the record
 must meet and the message of the `BadRequest` thrown when it does not. The
 checks run in declaration order and the first failing one is reported, so
 the outcome of a validation is the first violated rule, or none.
 */
module Validation {
  import opened Errors

  datatype Rule = Rule(holds: bool, message: string)

  /** The message of the first rule that does not hold. */
  function FirstViolation(rules: seq<Rule>): (r: Option<string>)
    ensures r.None? <==> forall i :: 0 <= i < |rules| ==> rules[i].holds
    ensures r.Some? ==> exists i :: 0 <= i < |rules| && !rules[i].holds && rules[i].message == r.value
                                    && forall j :: 0 <= j < i ==> rules[j].holds
  {
    if |rules| == 0 then None
    else if !rules[0].holds then Some(rules[0].message)
    else
      var rest := FirstViolation(rules[1..]);
      if rest.Some? then
        var i :| 0 <= i < |rules[1..]| && !rules[1..][i].holds && rules[1..][i].message == rest.value
                 && forall j :: 0 <= j < i ==> rules[1..][j].holds;
        assert rules[i + 1] == rules[1..][i];
        assert forall j :: 1 <= j < i + 1 ==> rules[j] == rules[1..][j - 1];
        rest
      else rest
  }

  /** A rule that fails after only passing rules is the one reported. */
  lemma {:induction false} FirstViolationAt(rules: seq<Rule>, k: int)
    requires 0 <= k < |rules| && !rules[k].holds
    requires forall j :: 0 <= j < k ==> rules[j].holds
    ensures FirstViolation(rules) == Some(rules[k].message)
  {
    if k > 0 {
      assert rules[1..][k - 1] == rules[k];
      FirstViolationAt(rules[1..], k - 1);
    }
  }

  /** What a validation returns: the record itself, or the first violation. */
  function Verdict<T>(rules: seq<Rule>, record: T): Result<T> {
    match FirstViolation(rules)
    case None => Ok(record)
    case Some(m) => Err(BadRequest(m))
  }
}
