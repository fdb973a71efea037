/** The schedule of deferred assignments: when an entry of `state.volatile` falls
    due, the `SET` command a due entry becomes, and the split of the schedule into
    promoted and remaining entries that `processVolatileUpdates` performs. */
module Schedule {
  import opened Wrappers
  import opened Seqs
  import opened Text
  import opened Values
  import opened WorldState
  import opened Interpreter

  /** `isGameTime ? currentTime >= new Date(targetTime) : currentRound >= targetTime`.
      A target that is `NaN` or an Invalid Date compares false either way. */
  predicate IsDue(e: VolatileEntry, round: int, now: int) {
    match e.targetTime
    case Invalid => false
    case At(t) => if e.isGameTime then now >= t else round >= t
  }

  /** `{ type: 'SET', params: `${varName} :: ${varValue}` }`. */
  function PromotionOf(e: VolatileEntry): Command {
    Command(Set, PairParams(e.varName, Display(e.value)))
  }

  /** The entries that fall due, in schedule order. */
  function DueEntries(vol: seq<VolatileEntry>, round: int, now: int): seq<VolatileEntry> {
    Filter((e: VolatileEntry) => IsDue(e, round, now), vol)
  }

  /** The entries that stay scheduled, in schedule order. */
  function Remaining(vol: seq<VolatileEntry>, round: int, now: int): seq<VolatileEntry> {
    Filter((e: VolatileEntry) => !IsDue(e, round, now), vol)
  }

  /** The commands that promotion produces: one `SET` per due entry, in order. */
  function Promotions(vol: seq<VolatileEntry>, round: int, now: int): seq<Command> {
    var due := DueEntries(vol, round, now);
    seq(|due|, k requires 0 <= k < |due| => PromotionOf(due[k]))
  }

  // ---------------------------------------------------------------------------
  // The loop of processVolatileUpdates, one entry at a time
  // ---------------------------------------------------------------------------

  /** Looking at one more entry adds its promotion or keeps it, never both. */
  lemma PromotionsSnoc(init: seq<VolatileEntry>, e: VolatileEntry, round: int, now: int)
    ensures Promotions(init + [e], round, now) ==
      Promotions(init, round, now) + (if IsDue(e, round, now) then [PromotionOf(e)] else [])
    ensures Remaining(init + [e], round, now) ==
      Remaining(init, round, now) + (if IsDue(e, round, now) then [] else [e])
  {
    FilterSnoc((x: VolatileEntry) => IsDue(x, round, now), init, e);
    FilterSnoc((x: VolatileEntry) => !IsDue(x, round, now), init, e);
    var due, due' := DueEntries(init, round, now), DueEntries(init + [e], round, now);
    var before, after := Promotions(init, round, now), Promotions(init + [e], round, now);
    var added := if IsDue(e, round, now) then [PromotionOf(e)] else [];
    assert |after| == |before + added|;
    forall k | 0 <= k < |after|
      ensures after[k] == (before + added)[k]
    {
      if k < |due| {
        assert due'[k] == due[k];
      }
    }
  }

  // ---------------------------------------------------------------------------
  // What promotion promises
  // ---------------------------------------------------------------------------

  /** Promotion splits the schedule in two: every entry is either promoted or kept,
      never both and never lost, each part keeps the schedule's order, and the two
      counts add up to the length of the schedule. */
  lemma PromotionPartitions(vol: seq<VolatileEntry>, round: int, now: int)
    ensures multiset(DueEntries(vol, round, now)) + multiset(Remaining(vol, round, now)) == multiset(vol)
    ensures |Promotions(vol, round, now)| + |Remaining(vol, round, now)| == |vol|
    ensures IsSubsequence(DueEntries(vol, round, now), vol)
    ensures IsSubsequence(Remaining(vol, round, now), vol)
  {
    var p := (e: VolatileEntry) => IsDue(e, round, now);
    var q := (e: VolatileEntry) => !IsDue(e, round, now);
    FilterPartition(p, q, vol);
    FilterPartitionSizes(p, q, vol);
    FilterIsSubsequence(p, vol);
    FilterIsSubsequence(q, vol);
  }

  /** Exactly the due entries are promoted and exactly the others remain. */
  lemma PromotionSelects(vol: seq<VolatileEntry>, round: int, now: int, e: VolatileEntry)
    requires e in vol
    ensures e in DueEntries(vol, round, now) <==> IsDue(e, round, now)
    ensures e in Remaining(vol, round, now) <==> !IsDue(e, round, now)
  {
    if IsDue(e, round, now) {
      FilterKeeps((x: VolatileEntry) => IsDue(x, round, now), vol, e);
    } else {
      FilterKeeps((x: VolatileEntry) => !IsDue(x, round, now), vol, e);
    }
  }

  /** Every due entry of the schedule is promoted to its `SET`, and every promoted
      `SET` comes from a due entry of the schedule. */
  lemma PromotionsAreDue(vol: seq<VolatileEntry>, round: int, now: int)
    ensures forall e :: e in vol && IsDue(e, round, now) ==> PromotionOf(e) in Promotions(vol, round, now)
    ensures forall c :: c in Promotions(vol, round, now) ==>
      exists e :: e in vol && IsDue(e, round, now) && c == PromotionOf(e)
  {
    var due := DueEntries(vol, round, now);
    var cs := Promotions(vol, round, now);
    forall e | e in vol && IsDue(e, round, now)
      ensures PromotionOf(e) in cs
    {
      FilterKeeps((x: VolatileEntry) => IsDue(x, round, now), vol, e);
      var k :| 0 <= k < |due| && due[k] == e;
      assert cs[k] == PromotionOf(e);
    }
    forall c | c in cs
      ensures exists e :: e in vol && IsDue(e, round, now) && c == PromotionOf(e)
    {
      var k :| 0 <= k < |cs| && cs[k] == c;
      assert due[k] in due;
    }
  }

  /** An empty schedule promotes nothing and stays empty. */
  lemma PromotionOfEmpty(round: int, now: int)
    ensures Promotions([], round, now) == [] && Remaining([], round, now) == []
  {
  }

  // ---------------------------------------------------------------------------
  // A promoted SET writes the scheduled value
  // ---------------------------------------------------------------------------

  /** A value as `TIMED_SET` stores it: a trimmed field without `::`, coerced. */
  predicate IsFieldValue(v: Value) {
    || v.Num?
    || (v.Str? && IsTrimmed(v.s) && !Contains(v.s, Separator) && ToNumber(v.s).None?)
  }

  /** An entry as `TIMED_SET` builds it. */
  predicate WellFormedEntry(e: VolatileEntry) {
    && e.varName != "" && IsTrimmed(e.varName) && !Contains(e.varName, Separator)
    && IsFieldValue(e.value)
  }

  /** Every scheduled entry is one `TIMED_SET` could have built. */
  predicate WellFormedSchedule(vol: seq<VolatileEntry>) {
    forall k :: 0 <= k < |vol| ==> WellFormedEntry(vol[k])
  }

  /** Coercing a field gives a value of that shape. */
  lemma CoerceIsFieldValue(s: string)
    requires IsTrimmed(s) && !Contains(s, Separator)
    ensures IsFieldValue(Coerce(s))
  {
  }

  /** Printing a stored value and coercing it again gives the value back, and the
      printed text is a field that survives the `::` split. */
  lemma DisplayOfFieldValue(v: Value)
    requires IsFieldValue(v)
    ensures Coerce(Display(v)) == v
    ensures IsTrimmed(Display(v)) && !Contains(Display(v), Separator)
  {
    if v.Num? {
      IntToStringShape(v.n);
      AbsentCharNotContained(IntToString(v.n), Separator, ':');
      ToNumberIntToString(v.n);
    }
  }

  /** The `SET` a well-formed entry is promoted to writes the entry's own value at
      the entry's path: the value survives its trip through the command text. */
  lemma PromotionWritesValue(s: StateValue, e: VolatileEntry, round: int, parseDate: string -> Option<int>)
    requires WellFormedEntry(e)
    ensures ApplyCommand(s, PromotionOf(e), round, parseDate) ==
      s.(staticVars := SetPath(s.staticVars, PathOf(e.varName), e.value))
  {
    DisplayOfFieldValue(e.value);
    FieldsOfPair(e.varName, Display(e.value));
  }

  /** Every command keeps the schedule well formed: `TIMED_SET` appends an entry
      built from trimmed fields, `CANCEL_SET` only removes entries, and the other
      commands do not touch the schedule. */
  lemma CommandKeepsScheduleWellFormed(s: StateValue, c: Command, round: int, parseDate: string -> Option<int>)
    requires WellFormedSchedule(s.volatile)
    ensures WellFormedSchedule(ApplyCommand(s, c, round, parseDate).volatile)
  {
    var fs := Fields(c.params);
    match c.kind
    case TimedSet => TimedSetKeepsEntries(s, fs, round, parseDate);
    case CancelSet =>
      var r := ApplyCancel(s, fs);
      forall k | 0 <= k < |r.volatile| ensures WellFormedEntry(r.volatile[k]) {
        CancelKeepsEntry(s, fs, k);
      }
    case _ =>
  }

  lemma TimedSetKeepsEntries(s: StateValue, fs: seq<string>, round: int, parseDate: string -> Option<int>)
    requires forall i :: 0 <= i < |fs| ==> IsTrimmed(fs[i]) && !Contains(fs[i], Separator)
    requires WellFormedSchedule(s.volatile)
    ensures WellFormedSchedule(ApplyTimedSet(s, fs, round, parseDate).volatile)
  {
    var r := ApplyTimedSet(s, fs, round, parseDate);
    if r.volatile != s.volatile {
      CoerceIsFieldValue(fs[1]);
      assert r.volatile == s.volatile + [r.volatile[|s.volatile|]];
    }
  }

  lemma CancelKeepsEntry(s: StateValue, fs: seq<string>, k: int)
    requires |fs| >= 1 && WellFormedSchedule(s.volatile)
    requires 0 <= k < |ApplyCancel(s, fs).volatile|
    ensures WellFormedEntry(ApplyCancel(s, fs).volatile[k])
  {
    var r := ApplyCancel(s, fs);
    assert r.volatile[k] in r.volatile;
    assert r.volatile[k] in s.volatile;
  }

  /** A list of commands keeps the schedule well formed. */
  lemma {:induction false} CommandsKeepScheduleWellFormed(s: StateValue, cs: seq<Command>, round: int, parseDate: string -> Option<int>)
    requires WellFormedSchedule(s.volatile)
    ensures WellFormedSchedule(ApplyCommands(s, cs, round, parseDate).volatile)
    decreases |cs|
  {
    if cs != [] {
      CommandsKeepScheduleWellFormed(s, cs[..|cs| - 1], round, parseDate);
      CommandKeepsScheduleWellFormed(ApplyCommands(s, cs[..|cs| - 1], round, parseDate), cs[|cs| - 1], round, parseDate);
    }
  }

  /** Promotion keeps the remaining schedule well formed. */
  lemma RemainingWellFormed(vol: seq<VolatileEntry>, round: int, now: int)
    requires WellFormedSchedule(vol)
    ensures WellFormedSchedule(Remaining(vol, round, now))
  {
    var r := Remaining(vol, round, now);
    forall k | 0 <= k < |r| ensures WellFormedEntry(r[k]) {
      assert r[k] in r;
    }
  }

  /** A round-mode `TIMED_SET` issued at round `round` with `units` rounds falls due
      exactly from round `round + units` on, not before. */
  lemma RoundEntryFallsDue(s: StateValue, c: Command, round: int, parseDate: string -> Option<int>, units: int, later: int, now: int)
    requires c.kind == TimedSet
    requires var fs := Fields(c.params); Given(fs, 0) && Given(fs, 1) && Given(fs, 2) && Given(fs, 3) && Given(fs, 4)
    requires !IsTrueWord(Fields(c.params)[3]) && ToNumber(Fields(c.params)[4]) == Some(units)
    ensures var r := ApplyCommand(s, c, round, parseDate);
      |r.volatile| == |s.volatile| + 1 &&
      (IsDue(r.volatile[|s.volatile|], later, now) <==> later >= round + units)
  {
    TimedSetAppends(s, c, round, parseDate);
  }

  // ---------------------------------------------------------------------------
  // The round counter as written
  // ---------------------------------------------------------------------------

  /** `getRoundCounter` as written reads `.message_id` on what `getChatMessages`
      returns, an array (or a promise of one), before the `await` and without the
      `[0]` that `processMessageState` uses: the round is `undefined` (`None`). */
  function RoundAsWritten(): Option<int> {
    None
  }

  /** `currentRound + Number(units)` with the round possibly `undefined`: adding to
      `undefined`, or adding `NaN`, gives `NaN`. */
  function RoundTargetAsWritten(round: Option<int>, units: Option<int>): (t: TargetTime)
    ensures t.At? <==> round.Some? && units.Some?
    ensures t.At? ==> t.time == round.value + units.value
  {
    match round
    case None => Invalid
    case Some(r) =>
      match units
      case None => Invalid
      case Some(u) => At(r + u)
  }

  /** `currentRound >= targetTime` with the round possibly `undefined`, which
      compares false with every number, `NaN` and `null` alike. */
  predicate RoundDueAsWritten(round: Option<int>, target: TargetTime) {
    round.Some? && target.At? && round.value >= target.time
  }

  /** With the round as written, a round-mode `TIMED_SET` stores a `NaN` target,
      and no round-mode target of any kind ever falls due. */
  lemma UndefinedRoundNeverDue(units: Option<int>, target: TargetTime)
    ensures RoundTargetAsWritten(RoundAsWritten(), units) == Invalid
    ensures !RoundDueAsWritten(RoundAsWritten(), target)
  {
  }

  /** With a defined round, the comparison as written is the model's `IsDue` on a
      round-mode entry. */
  lemma DefinedRoundIsDue(e: VolatileEntry, round: int, now: int)
    requires !e.isGameTime
    ensures RoundDueAsWritten(Some(round), e.targetTime) <==> IsDue(e, round, now)
  {
  }
}
