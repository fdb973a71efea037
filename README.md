# Situational Awareness Manager: a Dafny model of the state core

The Situational Awareness Manager keeps a world state for a chat between a
user and an AI narrator. The AI writes commands into its messages, such as
`<SET :: hp :: 10>` or `<TIMED_SET :: door :: open :: storm :: false :: 2>`.
After each AI message the manager does the following:

1. It promotes the scheduled ("volatile") assignments that have fallen due.
2. It extracts the message's commands and applies them, promoted ones first, to
   the state `{static, volatile, responseSummary}`.
3. It strips the message's old state block and appends the new state as a JSON
   block between `<!--<|state|>` and `</|state|>-->`.

Two backward scans over the chat find the state to start from and the last
message that is not the user's.

This project models that core in Dafny. Each piece has the form the code has:

| Module | File | What it models |
|---|---|---|
| `CommandScanner` | `scanner.dfy` | The command expression, as the set of its matches, and the `exec` loop as a method. |
| `Interpreter` | `interpreter.dfy` | What each of the five commands does, and a list of them in order, as functions on values. |
| `SamStateManager` | `sam_state.dfy` | The state object as a class. Its methods update it in place, as `applyCommandsToState` and `processVolatileUpdates` do, and are proved against the functions above. |
| `Schedule` | `schedule.dfy` | When an entry falls due, and the split of the schedule into promoted and remaining entries. |
| `StateBlock` | `state_block.dfy` | The lazy parse expression, the greedy strip expression and the rendered block. |
| `History` | `history.dfy` | `findLatestState` and `findLastAiMessageAndIndex` as backward loops. |
| `Pipeline` | `pipeline.dfy` | `processMessageState` with the host calls turned into parameters and results. |

Supporting modules:

- `Text`: JavaScript white space and `trim`, `split`, and `Number`, `parseInt` and `String` on integers.
- `Values`: a JSON value tree with lodash's dotted-path `_.get` and `_.set`.
- `WorldState`: the state record and the commands.
- `Seqs`: an order-keeping filter.
- `Wrappers`: `Option`.

The host environment enters the model as parameters:

- **Inputs:** the message list, the stored variables, the current round and the current time.
- **JSON:** an encode/decode pair. The decoder returns `None` where `JSON.parse` throws or yields a falsy value, which `if (state)` skips.
- **Dates:** `parseDate`, a function from a date string to an integer timestamp, or `None` for an Invalid Date.

The strip step at `sam_state_manager.js:246` removes only the state-block span
and then trims. Command tags such as `<SET :: hp :: 10>` therefore stay in the
narrative that is written back: text without a block is only trimmed
(`StateBlock.CleanNarrativeIdempotent`).

## Model

| member | source | states |
|---|---|---|
| StateBlock.MarkersShape | sam_state_manager.js:13-14 | Both markers are non-empty and hold no line break, which is what the parse and strip proofs rely on. |
| StateBlock.LazySpan | sam_state_manager.js:17 | The capture begins right after the leftmost start marker and ends at the first end marker after it. No start marker comes earlier and no end marker lies inside. |
| StateBlock.LazySpanFound | sam_state_manager.js:17 | The lazy expression matches if and only if some start marker is followed, after its own end, by an end marker. |
| StateBlock.LazyContentHasNoClose | sam_state_manager.js:17 | The lazy capture never contains the closing marker. |
| StateBlock.ParseFindsFirstBlock | sam_state_manager.js:47-59 | A message parses only if it holds a block, and the parse expression matches exactly then. The text read is the first block: its capture holds no end marker. |
| StateBlock.GreedyCut | sam_state_manager.js:20 | The greedy removal never makes the text longer. |
| StateBlock.GreedyCutChanges | sam_state_manager.js:20 | Text without a start…end span is returned unchanged. Text with one gets strictly shorter. |
| StateBlock.SpanBounds | sam_state_manager.js:20 | A span exists if and only if the first start marker ends at or before the last end marker. This is the span the greedy expression removes. |
| StateBlock.GreedyCutLeavesNone | sam_state_manager.js:20 | After the greedy removal no start marker is followed by an end marker. |
| StateBlock.CleanNarrativeIdempotent | sam_state_manager.js:246 | The clean narrative holds no block. Text without a block is only trimmed, so command tags stay. Cleaning a second time changes nothing. |
| StateBlock.RemoveBlocksShortens | sam_state_manager.js:246 | A message with a block gets shorter when its block is removed. |
| StateBlock.GreedyCutLayout | sam_state_manager.js:246-250 | When the narrative holds no start marker, stripping a rewritten message cuts it back to the narrative and the two line breaks. |
| StateBlock.GreedyCutStrayOpen | sam_state_manager.js:246-250 | When the narrative holds a start marker, stripping a rewritten message cuts from that marker through the block's end marker, leaving only the narrative before the marker. |
| StateBlock.CaptureOfLayout | sam_state_manager.js:249-250 | In narrative + `\n\n` + rendered block, the lazy capture is exactly `\n` + JSON + `\n` and trims to the JSON. This requires that the narrative holds no start marker, and that the JSON is trimmed and holds no end marker. |
| StateBlock.ParseRewritten | sam_state_manager.js:246-250 | Parsing a rewritten message decodes exactly the JSON that was rendered into it. |
| StateBlock.RewriteKeepsNarrative | sam_state_manager.js:246-250 | When the clean narrative holds no start marker, cleaning a rewritten message gives back the clean narrative of the original. |
| StateBlock.RewriteTruncates | sam_state_manager.js:246-250 | When the clean narrative holds a start marker, cleaning the rewritten message gives the trimmed narrative before the first such marker, which is strictly shorter: each rewrite loses the rest. |
| StateBlock.RewriteTruncatesExample | sam_state_manager.js:246-250 | The message `a <!--<|state|> b` has no end marker, so its narrative is kept whole, but once rewritten its narrative reads back as `a`. |
| CommandScanner.KeywordAt | sam_state_manager.js:23 | The keyword alternative found at a position is written there. |
| CommandScanner.KeywordAtUnique | sam_state_manager.js:23 | Whichever keyword is written at a position is the one found, because the alternatives never compete. |
| CommandScanner.MatchUnique | sam_state_manager.js:23 | Two matches of the command expression that start at the same place are the same match: same keyword, colons, parameters and closing `>`. |
| CommandScanner.MatchHere | sam_state_manager.js:23 | The regex engine tried at one position finds exactly the match that starts there, or reports that none does. |
| CommandScanner.Exec | sam_state_manager.js:231 | `exec` from `lastIndex` returns the first match starting at or after it. |
| CommandScanner.ScanIn | sam_state_manager.js:231-234 | Every match found lies between the resume position and the end of the text. |
| CommandScanner.ScanInOrdered | sam_state_manager.js:231-234 | The matches come left to right and do not overlap: each starts at or after the end of the one before. |
| CommandScanner.ScanIsGlobal | sam_state_manager.js:227-235 | The scan finds exactly the matches of the global expression. The first is the leftmost match. Nothing matches between consecutive results. Each search resumes at the previous match's end. |
| CommandScanner.GlobalIsScan | sam_state_manager.js:227-235 | The match sequence of the global expression is unique: any sequence with that property is the scan's. |
| CommandScanner.CommandsOfAt | sam_state_manager.js:232-233 | The i-th command is the i-th match's keyword and `params` group. |
| CommandScanner.ExtractCommands | sam_state_manager.js:227-235 | The `exec` loop returns the commands of the message in order of appearance. |
| CommandScanner.CommandsHaveNoGt | sam_state_manager.js:23 | No extracted command's `params` contains `>`. |
| CommandScanner.NoAngleNoCommands | sam_state_manager.js:23 | A message without `<` yields no commands. |
| Interpreter.Fields | sam_state_manager.js:116 | Splitting on `::` and trimming gives at least one field. Every field is trimmed and holds no `::`. |
| Interpreter.FieldsOfPair | sam_state_manager.js:98 | The parameters `name :: value` that promotion writes split back into exactly `[name, value]` when both are trimmed and hold no `::`. |
| Interpreter.ApplySet | sam_state_manager.js:121-125 | `SET` changes only `static`. |
| Interpreter.ApplyAdd | sam_state_manager.js:126-135 | `ADD` changes only `static`. |
| Interpreter.ApplyResponseSummary | sam_state_manager.js:136-138 | `RESPONSE_SUMMARY` changes only `responseSummary`. |
| Interpreter.ApplyTimedSet | sam_state_manager.js:142-151 | `TIMED_SET` changes only `volatile`. |
| Interpreter.CancelMatching | sam_state_manager.js:166-169 | The filter keeps only entries from the schedule whose name and reason both differ from the identifier. |
| Interpreter.ApplyCancel | sam_state_manager.js:154-175 | `CANCEL_SET` changes only `volatile`, and never lengthens it. |
| Interpreter.ApplyCommand | sam_state_manager.js:113-180 | Each command touches only its own field. Only `SET`/`ADD` touch `static`, only `TIMED_SET`/`CANCEL_SET` touch `volatile`, and only `RESPONSE_SUMMARY` touches `responseSummary`. |
| Interpreter.ApplyCommands | sam_state_manager.js:111-183 | Applying a list of commands keeps every earlier summary as a prefix: no command removes from `responseSummary`. |
| Interpreter.ApplyCommandsAppend | sam_state_manager.js:113-180 | Commands apply strictly in list order. Applying `a + b` is applying `a` and then `b` to the result. |
| Interpreter.ResponseSummaryAppends | sam_state_manager.js:136-138 | `RESPONSE_SUMMARY` appends exactly its trimmed parameter text. Every other command leaves the summaries alone. |
| Interpreter.SetWrites | sam_state_manager.js:121-125 | A `SET` with a name and a value writes the coerced value at the path, whatever was there, when `_.set` reaches the path: no guarded key, and only array indices (not `length` or another key) asked of an array. Every other top-level variable is untouched. |
| Interpreter.SetSkipped | sam_state_manager.js:123 | A `SET` without a name or a value leaves the whole state as it was. |
| Interpreter.AddToArray | sam_state_manager.js:128-129 | `ADD` onto an array that `_.get` finds pushes the delta as a string element in place, even where `_.set` would stop, as at a guarded key. It creates no variable and leaves every other top-level variable as it was. |
| Interpreter.AddNumbers | sam_state_manager.js:130-133 | `ADD` onto anything else writes base + delta, when `_.set` reaches the path: no guarded key, and only array indices (not `length` or another key) asked of an array. The base is `Number(existing) \|\| 0`: 0 for a missing or non-numeric value. |
| Interpreter.AddSkipped | sam_state_manager.js:127-132 | An `ADD` without a name or delta, or with a non-numeric delta onto a non-array, leaves the state as it was. |
| Interpreter.TimedSetAppends | sam_state_manager.js:142-151 | A complete `TIMED_SET` appends exactly one entry after the untouched earlier ones. The entry is built from the fields. In round mode its target is round + `Number(units)`, or `NaN` when the units are not a number. |
| Interpreter.TimedSetSkipped | sam_state_manager.js:144-147 | A `TIMED_SET` missing a field, or whose game-time date throws, leaves the state as it was. |
| Interpreter.CancelSkipped | sam_state_manager.js:155 | `CANCEL_SET` without an identifier or on an empty schedule is a no-op. |
| Interpreter.CancelByIndex | sam_state_manager.js:160-162 | An identifier that `parseInt` reads as an index of the schedule removes exactly that entry. |
| Interpreter.CancelByName | sam_state_manager.js:164-169 | Any other identifier keeps exactly the entries whose name and reason differ from it: every copy of each such entry and none of the others, in their original relative order. |
| Values.PathOf | sam_state_manager.js:124 | The keys of a dotted name join back into the name. |
| Values.SetPath | sam_state_manager.js:124 | `_.set` on the variables adds the path's first key and leaves every other top-level variable as it was. A first key of `__proto__`, `constructor` or `prototype` changes nothing. |
| Values.GetAfterSet | sam_state_manager.js:124 | Reading back a path just written with `_.set` gives the written value, whatever was there before, when the path holds no guarded key and asks an array only for indices. |
| Values.GuardedKeyStops | sam_state_manager.js:124 | `_.set` stops at a `__proto__`, `constructor` or `prototype` key and leaves the value there as it was. |
| Values.ArrayLength | sam_state_manager.js:124 | An array's `length` reads as its element count. Setting it to a valid length cuts or pads the array, and any other value leaves the array as it was. |
| Values.SetLength | sam_state_manager.js:124 | Assigning to `length` always leaves an array. |
| Values.Resize | sam_state_manager.js:124 | The resized array has the new length, keeps the elements below it, and pads with holes, which JSON writes as `null`. |
| Values.SetKeepsOtherPaths | sam_state_manager.js:124 | Writing one path leaves every existing value on another path unchanged, when the two paths part inside an object, or inside an array and neither key there is `length`. |
| Values.PutIn | sam_state_manager.js:129 | Growing the array `_.get` found, in place, keeps the kind of every container on the way, with the same keys or the same length. |
| Values.PutPath | sam_state_manager.js:129 | An in-place change creates no variable and leaves every other top-level variable as it was. |
| Values.GetAfterPut | sam_state_manager.js:128-129 | Where `_.get` finds an array or an object, reading the path after replacing it in place gives the replacement. Guarded keys do not stop this walk. |
| Values.CoerceBlank | sam_state_manager.js:124 | A blank value, the empty string included, is written as the number 0. |
| Values.Coerce | sam_state_manager.js:124 | `isNaN(v) ? v : Number(v)` is a number exactly when `Number` reads the text, and is otherwise the text itself. |
| Values.CoerceDisplayCoerce | sam_state_manager.js:98 | Printing a coerced value and coercing the printed text gives the same value. |
| Text.ToNumberIntToString | sam_state_manager.js:98 | `Number(String(n)) == n` for every integer. |
| Text.JoinSplit | sam_state_manager.js:116 | Joining the pieces of a split with the separator gives back the input. |
| Text.SplitOn | sam_state_manager.js:116 | A split has at least one piece and no piece contains the separator. |
| Schedule.PromotionsAreDue | sam_state_manager.js:94-102 | Every due entry of the schedule is promoted to its `SET`, and every promoted `SET` comes from a due entry. |
| Schedule.PromotionsSnoc | sam_state_manager.js:94-102 | Each entry visited either adds its promotion or is kept, never both. |
| Schedule.PromotionPartitions | sam_state_manager.js:94-103 | Promoted and remaining entries together are the schedule as a multiset. Both keep the schedule's order, and their counts add up to its length. |
| Schedule.PromotionSelects | sam_state_manager.js:96-101 | An entry is promoted exactly when it is due and remains exactly when it is not. |
| Schedule.PromotionOfEmpty | sam_state_manager.js:89 | An empty schedule promotes nothing and stays empty. |
| Schedule.DisplayOfFieldValue | sam_state_manager.js:98 | A stored value printed into a promotion is a trimmed field without `::` that coerces back to the value. |
| Schedule.PromotionWritesValue | sam_state_manager.js:98 | The `SET` a well-formed entry is promoted to writes exactly the entry's value at the entry's path. |
| Schedule.CoerceIsFieldValue | sam_state_manager.js:146 | Coercing a trimmed field gives a value of the shape the schedule stores. |
| Schedule.CommandKeepsScheduleWellFormed | sam_state_manager.js:142-175 | Every command keeps every scheduled entry one that `TIMED_SET` could have built. |
| Schedule.CommandsKeepScheduleWellFormed | sam_state_manager.js:113-180 | A list of commands keeps the schedule well formed. |
| Schedule.RemainingWellFormed | sam_state_manager.js:103 | The remaining schedule of a well-formed schedule is well formed. |
| Schedule.RoundEntryFallsDue | sam_state_manager.js:142-151 | With an integer round counter, a round-mode `TIMED_SET` with `units` issued at round R falls due at a later round exactly when that round is at least R + units, not before. The counter as written is `undefined` (see Findings). |
| Schedule.RoundTargetAsWritten | sam_state_manager.js:147 | `currentRound + Number(units)` is a number exactly when the round and the units are, and is then their sum. |
| Schedule.UndefinedRoundNeverDue | sam_state_manager.js:40-43 | With the round as `getRoundCounter` computes it, a round-mode target is `NaN` and no round-mode entry ever falls due. |
| Schedule.DefinedRoundIsDue | sam_state_manager.js:96 | With a defined round, `currentRound >= targetTime` is the model's `IsDue` for a round-mode entry. |
| SamStateManager.SamState.constructor | sam_state_manager.js:212 | The object holds the state read from the variables. |
| SamStateManager.SamState.Apply | sam_state_manager.js:116-179 | One turn of the loop updates the object in place to the state `ApplyCommand` gives. |
| SamStateManager.SamState.SetVariable | sam_state_manager.js:121-125 | `case 'SET'` updates the object to `ApplySet` of the old state. |
| SamStateManager.SamState.AddToVariable | sam_state_manager.js:126-135 | `case 'ADD'` updates the object to `ApplyAdd` of the old state. |
| SamStateManager.SamState.ScheduleSet | sam_state_manager.js:142-151 | `case 'TIMED_SET'` updates the object to `ApplyTimedSet` of the old state. A throwing date leaves it unchanged. |
| SamStateManager.SamState.CancelScheduled | sam_state_manager.js:154-175 | `case 'CANCEL_SET'` (`splice` or `filter`) updates the object to `ApplyCancel` of the old state. |
| SamStateManager.SamState.ApplyCommandsToState | sam_state_manager.js:111-183 | The loop leaves the object in the state of the commands applied in order. Summaries only grow, and a well-formed schedule stays well formed. |
| SamStateManager.SamState.ProcessVolatileUpdates | sam_state_manager.js:88-105 | It returns the promotions of the due entries in order. The schedule becomes the not-due entries in order. `static` and the summaries are untouched. |
| History.SwipeContent | sam_state_manager.js:68 | A message without swipes is read from its text. |
| History.FindLatestState | sam_state_manager.js:61-77 | The backward loop returns the state of the newest non-user message that parses, or the initial state. |
| History.LatestStateIs | sam_state_manager.js:61-74 | The state found is the one stored in the highest-index message that loads a state. |
| History.LatestStateInitial | sam_state_manager.js:75-76 | With no message that loads a state, the scan returns the initial state. |
| History.LatestStateIgnoresUser | sam_state_manager.js:67 | User messages are never consulted: changing them does not change the result. |
| History.FindLastAiMessageAndIndex | sam_state_manager.js:287-301 | The result is -1 or the largest index below the bound that is not a user message. -1 as the argument means the whole chat. |
| Pipeline.ProcessMessageState | sam_state_manager.js:190-257 | It yields nothing for a missing index or a user message. Otherwise it yields the state from applying the promotions and then the message's commands, and the message rewritten with that state's block. |
| Pipeline.PromotedFirst | sam_state_manager.js:239 | Promoted `SET`s run before the message's own commands, which therefore override them. |
| Pipeline.PlainMessageOnlyPromotes | sam_state_manager.js:227-239 | A message without `<` only promotes. |
| Pipeline.ProcessedKeeps | sam_state_manager.js:239 | Processing keeps every earlier summary and keeps a well-formed schedule well formed. |
| Pipeline.RewrittenCarriesState | sam_state_manager.js:246-255 | The rewritten message parses back to the new state when the decoder inverts the encoder, and its narrative is the original's. |

## Findings

| source | as written | input that shows it | evidently intended | confidence | as-written member | corrected member |
|---|---|---|---|---|---|---|
| sam_state_manager.js:40-43 | `await getChatMessages("{{lastMessageId}}").message_id` reads `.message_id` on the returned array before the `await`, giving `undefined` | any round-mode `TIMED_SET`, e.g. `<TIMED_SET :: door :: open :: storm :: false :: 2>`: its target is `undefined + 2`, `NaN`, and `undefined >= NaN` is false in every later round | `(await getChatMessages("{{lastMessageId}}"))[0].message_id`, as line 199 indexes `[0]`: an integer round, so the entry falls due at round R + 2 | high, not executed | Schedule.UndefinedRoundNeverDue | Schedule.RoundEntryFallsDue |

## Left out

- **Host I/O.** `getChatMessages`, `setChatMessage`, `getVariables`, `replaceVariables` and the event wiring are not part of this model. Their results are parameters: the chat, the stored state, the round and the time.
- **Round counter.** `getRoundCounter` (`sam_state_manager.js:40-43`) as written yields `undefined`, so every round-mode target is `NaN` and round-mode entries never fall due (`Schedule.UndefinedRoundNeverDue`). The rest of the model uses the evidently intended integer round, passed in as a parameter. The rewritten text and the new state are results.
- **Re-reading the variables.** The write-back `replaceVariables(goodCopy(state))` and the re-read with `getVariables()` are modelled as storing and reading back the same state.
- **`loadStateFromMessage` and the event handlers.** These, including the `setTimeout` deferral around swipes, are not part of this model. They are host wiring and concurrency.
- **JSON.** `JSON.stringify` and `JSON.parse` are an encode function and a decode function passed in. The decoder's `None` is `JSON.parse` throwing or a falsy parse result (`null`, `0`, `false`, `""`), which `findLatestState` skips. The decoder is assumed to map state JSON to `Some`; JSON that parses to some other truthy value is taken as the state in the source and is not modelled. A `NaN` target is written by `JSON.stringify` as `null`, which compares as 0 with a defined round or reads as the epoch as a date, so after a reload that entry is due at once. The model keeps `Invalid` across the write-back, where it is never due.
- **Dates.** `new Date(...)` is a `parseDate` parameter, and game time is an integer timestamp. `toISOString` and date comparison are integer comparison.
- **Numbers.** Numbers are integers. `Number` reads optionally signed decimal integers, blank text reads as 0, and everything else is `NaN`. Fractions, exponents, hex, `Infinity` and floating-point rounding are not modelled.
- **Lodash paths.** Only plain dotted paths are modelled. Bracket syntax, lodash's path cache and a dotted name that exists whole as a key are left out.
- **Inherited properties.** Keys that name inherited JavaScript properties, such as `toString` or a function's `length`, read as absent. Own keys are the only keys.
- **String positions.** A string's `length` and indices count characters, not UTF-16 code units, so they differ from JavaScript on characters outside the Basic Multilingual Plane.
- **Aliasing.** A pushed array is changed where `_.get` found it. A state read from JSON shares no arrays, so no other path sees the push.
- **Copies and unused state.** `_.cloneDeep`, `goodCopy`, `latest_gen_lvl` and logging are left out. Dafny values are never aliased.
- **Missing schedule array.** A state whose `volatile` is missing, where `TIMED_SET` would throw on `push`, cannot be represented. The state record always has its three fields.
- **Invalid message index.** A message index outside the chat is the caught `getChatMessages` error. How the host treats a negative index is not modelled.
- **One round value.** A single round value is used both for promotion and for `TIMED_SET`, because both read the same counter within one call.
- History.FindLastAiMessageAndIndex: requires `beforeIndex <= |chat|`, because a larger bound makes the source read `chat[i].role` of a missing message and throw a `TypeError`.
- Pipeline.RewrittenCarriesState: the round trip is proved only when the clean narrative holds no start marker and the encoded JSON holds no end marker. Otherwise the lazy expression can read a different span.
- StateBlock.ParseRewritten: same side conditions as above, and the encoding must also be trimmed, as `JSON.stringify` output is.
- StateBlock.GreedyCutLayout: proved only for a narrative without a start marker. `StateBlock.GreedyCutStrayOpen` gives the result otherwise.
- StateBlock.RewriteKeepsNarrative: proved only for a clean narrative without a start marker. Otherwise the narrative is cut at that marker, as `StateBlock.RewriteTruncates` states.
