/** The state object as the source handles it: a record whose three fields the
    command loop and the schedule promotion update in place. */
module SamStateManager {
  import opened Wrappers
  import opened Seqs
  import opened Text
  import opened Values
  import opened WorldState
  import opened Interpreter
  import opened Schedule

  class SamState {
    /** `state.static` */
    var staticVars: map<string, Value>
    /** `state.volatile` */
    var volatile: seq<VolatileEntry>
    /** `state.responseSummary` */
    var responseSummary: seq<string>

    /** The value the object holds. */
    function Value(): StateValue
      reads this
    {
      StateValue(staticVars, volatile, responseSummary)
    }

    /** The state read from the variable store, as an object of its own. */
    constructor (s: StateValue)
      ensures Value() == s
    {
      staticVars, volatile, responseSummary := s.staticVars, s.volatile, s.responseSummary;
    }

    /** One turn of the loop of `applyCommandsToState`: the parameters are split on
        `::` and trimmed, then the `switch` on the command type. */
    method Apply(c: Command, round: int, parseDate: string -> Option<int>)
      modifies this
      ensures Value() == ApplyCommand(old(Value()), c, round, parseDate)
    {
      var params := Fields(c.params);
      match c.kind
      case Set => SetVariable(params);
      case Add => AddToVariable(params);
      case ResponseSummary => responseSummary := responseSummary + [Trim(c.params)];
      case TimedSet => ScheduleSet(params, round, parseDate);
      case CancelSet => CancelScheduled(params);
    }

    /** `case 'SET'`: a missing name or value is a `continue`. */
    method SetVariable(params: seq<string>)
      modifies this
      ensures Value() == ApplySet(old(Value()), params)
    {
      if !Given(params, 0) || |params| < 2 {
        return;
      }
      staticVars := SetPath(staticVars, PathOf(params[0]), Coerce(params[1]));
    }

    /** `case 'ADD'`: an array gets the delta pushed as a string, in place; otherwise the sum
        is written, unless the delta is not a number (a `continue`). */
    method AddToVariable(params: seq<string>)
      modifies this
      ensures Value() == ApplyAdd(old(Value()), params)
    {
      if !Given(params, 0) || |params| < 2 {
        return;
      }
      ghost var s0 := Value();
      var path := PathOf(params[0]);
      var existing := GetPath(staticVars, path).GetOr(Num(0));
      if existing.Arr? {
        var appended := Arr(existing.items + [Str(params[1])]);
        AddAppends(s0, params, appended);
        staticVars := PutPath(staticVars, path, appended);
      } else {
        var increment := ToNumber(params[1]);
        if increment.None? {
          AddKeeps(s0, params);
          return;
        }
        var sum := Num(BaseNumber(existing) + increment.value);
        AddedNumber(existing, params[1], increment.value);
        AddWrites(s0, params, sum);
        staticVars := SetPath(staticVars, path, sum);
      }
    }

    /** `case 'TIMED_SET'`: any missing field is a `continue`; an invalid date throws
        before the push, and the error is caught. */
    method ScheduleSet(params: seq<string>, round: int, parseDate: string -> Option<int>)
      modifies this
      ensures Value() == ApplyTimedSet(old(Value()), params, round, parseDate)
    {
      ghost var s0 := Value();
      if !(Given(params, 0) && Given(params, 1) && Given(params, 2) && Given(params, 3) && Given(params, 4)) {
        TimedSetKeeps(s0, params, round, parseDate);
        return;
      }
      var isGameTime := IsTrueWord(params[3]);
      var finalValue := Coerce(params[1]);
      var targetTime := TargetOf(isGameTime, params[4], round, parseDate);
      if targetTime.None? {
        TimedSetKeeps(s0, params, round, parseDate);
        return;
      }
      TimedSetWrites(s0, params, round, parseDate, targetTime.value);
      volatile := volatile + [VolatileEntry(params[0], finalValue, isGameTime, targetTime.value, params[2])];
    }

    /** `case 'CANCEL_SET'`: by index with `splice`, otherwise by name or reason with
        `filter`. */
    method CancelScheduled(params: seq<string>)
      requires |params| >= 1
      modifies this
      ensures Value() == ApplyCancel(old(Value()), params)
    {
      if params[0] == "" || volatile == [] {
        return;
      }
      var identifier := params[0];
      var index := ParseInt(identifier);
      if index.Some? && 0 <= index.value < |volatile| {
        volatile := volatile[..index.value] + volatile[index.value + 1..];
      } else {
        volatile := CancelMatching(volatile, identifier);
      }
    }

    /** `applyCommandsToState(commands, state)`: the commands are applied strictly in
        list order, each on the state the previous ones left. The summaries only
        grow, and a well-formed schedule stays well formed. */
    method ApplyCommandsToState(commands: seq<Command>, round: int, parseDate: string -> Option<int>)
      modifies this
      ensures Value() == ApplyCommands(old(Value()), commands, round, parseDate)
      ensures old(responseSummary) <= responseSummary
      ensures WellFormedSchedule(old(volatile)) ==> WellFormedSchedule(volatile)
    {
      ghost var s0 := Value();
      var i := 0;
      while i < |commands|
        invariant 0 <= i <= |commands|
        invariant Value() == ApplyCommands(s0, commands[..i], round, parseDate)
      {
        assert commands[..i + 1][..i] == commands[..i];
        Apply(commands[i], round, parseDate);
        i := i + 1;
      }
      assert commands[..i] == commands;
      if WellFormedSchedule(s0.volatile) {
        CommandsKeepScheduleWellFormed(s0, commands, round, parseDate);
      }
    }

    /** `processVolatileUpdates(state)`: the schedule is walked once in order; due
        entries become `SET` commands and the others are kept, and the kept ones
        replace the schedule. Nothing else changes. */
    method ProcessVolatileUpdates(round: int, now: int) returns (promoted: seq<Command>)
      modifies this
      ensures promoted == Promotions(old(volatile), round, now)
      ensures volatile == Remaining(old(volatile), round, now)
      ensures staticVars == old(staticVars) && responseSummary == old(responseSummary)
    {
      if volatile == [] {
        PromotionOfEmpty(round, now);
        return [];
      }
      var entries := volatile;
      var remaining: seq<VolatileEntry> := [];
      promoted := [];
      var i := 0;
      while i < |entries|
        invariant 0 <= i <= |entries|
        invariant promoted == Promotions(entries[..i], round, now)
        invariant remaining == Remaining(entries[..i], round, now)
        invariant volatile == entries && staticVars == old(staticVars) && responseSummary == old(responseSummary)
      {
        var entry := entries[i];
        PromotionsSnoc(entries[..i], entry, round, now);
        assert entries[..i + 1] == entries[..i] + [entry];
        if IsDue(entry, round, now) {
          promoted := promoted + [PromotionOf(entry)];
        } else {
          remaining := remaining + [entry];
        }
        i := i + 1;
      }
      assert entries[..i] == entries;
      volatile := remaining;
    }
  }
}
