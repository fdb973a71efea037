/** `processMessageState(index)` without the host: the message list, the stored
    variables, the round and the time come in as parameters, and the new
    variables and the new message text go out as the result. */
module Pipeline {
  import opened Wrappers
  import opened Text
  import opened WorldState
  import opened Interpreter
  import opened Schedule
  import opened CommandScanner
  import opened StateBlock
  import opened History
  import opened SamStateManager

  /** The state after one message: due entries are promoted and dropped from the
      schedule, then the promoted `SET`s and the message's own commands are applied,
      promoted ones first. */
  ghost function ProcessedState(store: StateValue, text: string, round: int, now: int, parseDate: string -> Option<int>): StateValue {
    var promoted := Promotions(store.volatile, round, now);
    var rest := store.(volatile := Remaining(store.volatile, round, now));
    ApplyCommands(rest, promoted + Commands(text), round, parseDate)
  }

  /** What processing message `index` produces: nothing for an index outside the
      chat or a user message; otherwise the new state and the message rewritten
      with the new state's block. */
  ghost function MessageUpdate(chat: seq<Message>, index: int, store: StateValue, round: int, now: int,
                               parseDate: string -> Option<int>, encode: StateValue -> string): Option<(StateValue, string)> {
    if !(0 <= index < |chat|) || IsUser(chat[index]) then None
    else
      var s := ProcessedState(store, chat[index].text, round, now, parseDate);
      Some((s, RewriteMessage(chat[index].text, encode(s))))
  }

  /** `processMessageState(index)`: a missing message or a user message is left
      alone; otherwise the stored state is loaded into an object, due entries are
      promoted, the commands of the message text are extracted, all are applied,
      and the state is written back both as the variables and as the message's new
      state block. */
  method ProcessMessageState(chat: seq<Message>, index: int, store: StateValue, round: int, now: int,
                             parseDate: string -> Option<int>, encode: StateValue -> string)
    returns (r: Option<(StateValue, string)>)
    ensures r == MessageUpdate(chat, index, store, round, now, parseDate, encode)
    ensures r.None? <==> !(0 <= index < |chat|) || IsUser(chat[index])
  {
    if !(0 <= index < |chat|) {
      return None;
    }
    var lastAIMessage := chat[index];
    if lastAIMessage.role == "user" {
      return None;
    }
    var state := new SamState(store);
    var promotedCommands := state.ProcessVolatileUpdates(round, now);
    var messageContent := lastAIMessage.text;
    var newCommands := ExtractCommands(messageContent);
    state.ApplyCommandsToState(promotedCommands + newCommands, round, parseDate);
    var newState := state.Value();
    var finalContent := RewriteMessage(messageContent, encode(newState));
    return Some((newState, finalContent));
  }

  /** The promoted `SET`s run before the message's own commands, so a command in the
      message overrides a promotion to the same variable. */
  lemma PromotedFirst(store: StateValue, text: string, round: int, now: int, parseDate: string -> Option<int>)
    ensures ProcessedState(store, text, round, now, parseDate) ==
      ApplyCommands(
        ApplyCommands(store.(volatile := Remaining(store.volatile, round, now)), Promotions(store.volatile, round, now), round, parseDate),
        Commands(text), round, parseDate)
  {
    ApplyCommandsAppend(store.(volatile := Remaining(store.volatile, round, now)),
      Promotions(store.volatile, round, now), Commands(text), round, parseDate);
  }

  /** A message without `<` holds no commands: only the promotions are applied. */
  lemma PlainMessageOnlyPromotes(store: StateValue, text: string, round: int, now: int, parseDate: string -> Option<int>)
    requires '<' !in text
    ensures ProcessedState(store, text, round, now, parseDate) ==
      ApplyCommands(store.(volatile := Remaining(store.volatile, round, now)), Promotions(store.volatile, round, now), round, parseDate)
  {
    NoAngleNoCommands(text);
    assert Promotions(store.volatile, round, now) + [] == Promotions(store.volatile, round, now);
  }

  /** Processing keeps every summary already recorded and a well-formed schedule
      well formed. */
  lemma ProcessedKeeps(store: StateValue, text: string, round: int, now: int, parseDate: string -> Option<int>)
    ensures store.responseSummary <= ProcessedState(store, text, round, now, parseDate).responseSummary
    ensures WellFormedSchedule(store.volatile) ==> WellFormedSchedule(ProcessedState(store, text, round, now, parseDate).volatile)
  {
    var rest := store.(volatile := Remaining(store.volatile, round, now));
    if WellFormedSchedule(store.volatile) {
      RemainingWellFormed(store.volatile, round, now);
      CommandsKeepScheduleWellFormed(rest, Promotions(store.volatile, round, now) + Commands(text), round, parseDate);
    }
  }

  /** The rewritten message carries the new state: reading its block back with a
      decoder that inverts the encoder gives the state that was stored, as long as
      the narrative holds no stray start marker and the encoding is trimmed and holds
      no end marker. Its narrative is the narrative of the original message. */
  lemma RewrittenCarriesState(chat: seq<Message>, index: int, store: StateValue, round: int, now: int,
                              parseDate: string -> Option<int>, encode: StateValue -> string, decode: string -> Option<StateValue>)
    requires 0 <= index < |chat| && !IsUser(chat[index])
    requires !Contains(CleanNarrative(chat[index].text), StartMarker)
    requires var s := ProcessedState(store, chat[index].text, round, now, parseDate);
      IsTrimmed(encode(s)) && !Contains(encode(s), EndMarker) && decode(encode(s)) == Some(s)
    ensures var (s, text) := MessageUpdate(chat, index, store, round, now, parseDate, encode).value;
      ParseState(text, decode) == Some(s) && CleanNarrative(text) == CleanNarrative(chat[index].text)
  {
    var s := ProcessedState(store, chat[index].text, round, now, parseDate);
    ParseRewritten(chat[index].text, encode(s), decode);
    RewriteKeepsNarrative(chat[index].text, encode(s));
  }
}
