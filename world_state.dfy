/** The world state threaded through the chat, and the commands that change it. */
module WorldState {
  import opened Values

  /** When a scheduled entry falls due. `Invalid` stands for the `NaN` or Invalid
      Date a target can hold: every comparison with it is false, so it never falls
      due while it is held. Saved as JSON it becomes `null`, which compares as 0, so
      the reloaded entry is due at once; saving is not part of this model. */
  datatype TargetTime = At(time: int) | Invalid

  /** One scheduled ("volatile") assignment: the source's five-element array
      `[varName, value, isGameTime, targetTime, reason]`. A game-time target is a
      timestamp; otherwise it is a round number. */
  datatype VolatileEntry = VolatileEntry(
    varName: string,
    value: Value,
    isGameTime: bool,
    targetTime: TargetTime,
    reason: string)

  /** The state object `{static, volatile, responseSummary}`. */
  datatype StateValue = StateValue(
    staticVars: map<string, Value>,
    volatile: seq<VolatileEntry>,
    responseSummary: seq<string>)

  /** `INITIAL_STATE`. */
  const Initial: StateValue := StateValue(map[], [], [])

  /** The five command keywords. */
  datatype Kind = Set | Add | TimedSet | ResponseSummary | CancelSet

  /** The keyword as it is written in a message. */
  function KindName(k: Kind): string {
    match k
    case Set => "SET"
    case Add => "ADD"
    case TimedSet => "TIMED_SET"
    case ResponseSummary => "RESPONSE_SUMMARY"
    case CancelSet => "CANCEL_SET"
  }

  /** A command `{type, params}`: `params` is the raw text after the first `::`,
      split into fields only when the command is applied. */
  datatype Command = Command(kind: Kind, params: string)
}
