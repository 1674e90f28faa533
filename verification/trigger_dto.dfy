/** The trigger record: a row of the `trigger` table and an element of a strategy request. */
module TriggerDto {

  /** Fires its strategy when indicator `indicatorId` meets `indicatorValue`
      in the way `triggerTypeId` names. */
  datatype Trigger = Trigger(id: int, strategyId: int, indicatorId: int, indicatorValue: real, triggerTypeId: int)
}
