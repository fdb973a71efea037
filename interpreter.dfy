/** `applyCommandsToState` on values: what each of the five commands does to the
    state, and what a list of them does when applied in order. */
module Interpreter {
  import opened Wrappers
  import opened Seqs
  import opened Text
  import opened Values
  import opened WorldState

  /** The separator between the fields of a command. */
  const Separator: string := "::"

  /** `command.params.split('::').map(p => p.trim())`. */
  function Fields(params: string): (fs: seq<string>)
    ensures |fs| >= 1
    ensures forall i :: 0 <= i < |fs| ==> IsTrimmed(fs[i]) && !Contains(fs[i], Separator)
  {
    var parts := SplitOn(params, Separator);
    assert forall i :: 0 <= i < |parts| ==> !Contains(Trim(parts[i]), Separator) by {
      forall i | 0 <= i < |parts| ensures !Contains(Trim(parts[i]), Separator) {
        TrimKeepsAbsent(parts[i], Separator);
      }
    }
    seq(|parts|, i requires 0 <= i < |parts| => Trim(parts[i]))
  }

  /** `params[k]` is truthy: the field is there and is not the empty string. */
  predicate Given(fs: seq<string>, k: nat) {
    k < |fs| && fs[k] != ""
  }

  /** The parameters of a two-field command as `processVolatileUpdates` writes
      them: `${varName} :: ${varValue}`. */
  function PairParams(name: string, value: string): string {
    name + " :: " + value
  }

  /** Splitting such parameters gives back the two fields, as long as each is
      trimmed and holds no separator. */
  lemma FieldsOfPair(name: string, value: string)
    requires IsTrimmed(name) && IsTrimmed(value)
    requires !Contains(name, Separator) && !Contains(value, Separator)
    ensures Fields(PairParams(name, value)) == [name, value]
  {
    SplitOfPair(name, value);
    FieldsOfTwo(PairParams(name, value), name + " ", " " + value);
    TrimSpaceAfter(name);
    TrimSpaceBefore(value);
  }

  lemma TrimSpaceAfter(name: string)
    requires IsTrimmed(name)
    ensures Trim(name + " ") == name
  {
    TrimDropsTrailing(name, " ");
  }

  lemma TrimSpaceBefore(value: string)
    requires IsTrimmed(value)
    ensures Trim(" " + value) == value
  {
    TrimDropsLeading(" ", value);
  }

  lemma SplitOfPair(name: string, value: string)
    requires !Contains(name, Separator) && !Contains(value, Separator)
    ensures SplitOn(PairParams(name, value), Separator) == [name + " ", " " + value]
  {
    var left, right := name + " ", " " + value;
    var t := left + Separator + right;
    assert PairParams(name, value) == t;
    forall j | 0 <= j < |left| ensures !OccursAt(t, Separator, j) {
      assert t == name + " " + (Separator + right);
      SeparatorNotBefore(name, Separator + right, j);
    }
    SplitAtFirst(left, Separator, right);
    forall j | 0 <= j <= |right| ensures !OccursAt(right, Separator, j) {
      SeparatorNotAfter(value, j);
    }
    SplitNone(right, Separator);
  }

  lemma FieldsOfTwo(params: string, a: string, b: string)
    requires SplitOn(params, Separator) == [a, b]
    ensures Fields(params) == [Trim(a), Trim(b)]
  {
    var fs := Fields(params);
    assert |fs| == 2;
    assert fs[0] == Trim(a) && fs[1] == Trim(b);
  }

  lemma SeparatorNotBefore(name: string, rest: string, j: int)
    requires !Contains(name, Separator) && 0 <= j <= |name|
    ensures !OccursAt(name + " " + rest, Separator, j)
  {
    var t := name + " " + rest;
    if j + 2 <= |name| {
      assert t[j..j + 2] == name[j..j + 2];
      assert !OccursAt(name, Separator, j);
    } else if j + 2 <= |t| {
      assert t[|name|] == ' ';
      assert t[j..j + 2][|name| - j] == t[|name|];
    }
  }

  lemma SeparatorNotAfter(value: string, j: int)
    requires !Contains(value, Separator) && 0 <= j
    ensures !OccursAt(" " + value, Separator, j)
  {
    var t := " " + value;
    if 1 <= j && j + 2 <= |t| {
      assert t[j..j + 2] == value[j - 1..j + 1];
      assert !OccursAt(value, Separator, j - 1);
    } else if j == 0 && 2 <= |t| {
      assert t[0..2][0] == ' ';
    }
  }

  // ---------------------------------------------------------------------------
  // The five commands
  // ---------------------------------------------------------------------------

  /** `SET path :: value`: skipped without a name or a value; otherwise the
      coerced value is written at the path. */
  function ApplySet(s: StateValue, fs: seq<string>): (r: StateValue)
    ensures r.volatile == s.volatile && r.responseSummary == s.responseSummary
  {
    if !Given(fs, 0) || |fs| < 2 then s
    else s.(staticVars := SetPath(s.staticVars, PathOf(fs[0]), Coerce(fs[1])))
  }

  /** The new value of the variable an `ADD` of `delta` writes over `existing` (the
      value at the path, `Num(0)` when there is none): an array gets the delta
      appended as a string; anything else is read as a number (0 when it is not
      one) and the delta is added. `None` when the delta is not a number. */
  function Added(existing: Value, delta: string): Option<Value> {
    if existing.Arr? then Some(Arr(existing.items + [Str(delta)]))
    else match ToNumber(delta)
      case None => None
      case Some(d) => Some(Num(BaseNumber(existing) + d))
  }

  /** `ADD path :: delta`: skipped without a name or a delta, or when `Added` has no
      new value. An array found at the path is grown in place (`push`), wherever
      `_.get` found it; any other new value is written with `_.set`. */
  function ApplyAdd(s: StateValue, fs: seq<string>): (r: StateValue)
    ensures r.volatile == s.volatile && r.responseSummary == s.responseSummary
  {
    if !Given(fs, 0) || |fs| < 2 then s
    else
      var path := PathOf(fs[0]);
      var existing := GetPath(s.staticVars, path).GetOr(Num(0));
      match Added(existing, fs[1])
      case None => s
      case Some(v) =>
        if existing.Arr? then s.(staticVars := PutPath(s.staticVars, path, v))
        else s.(staticVars := SetPath(s.staticVars, path, v))
  }

  /** `RESPONSE_SUMMARY text`: the whole parameter text, trimmed, is appended. */
  function ApplyResponseSummary(s: StateValue, params: string): (r: StateValue)
    ensures r.staticVars == s.staticVars && r.volatile == s.volatile
  {
    s.(responseSummary := s.responseSummary + [Trim(params)])
  }

  /** When a `TIMED_SET` falls due. In game-time mode the units are a date, and
      `new Date(units).toISOString()` throws for one that does not parse (`None`: the
      command is abandoned). In round mode the target is the current round plus the
      units, which is `NaN` when the units are not a number. */
  function TargetOf(isGameTime: bool, units: string, round: int, parseDate: string -> Option<int>): Option<TargetTime> {
    if isGameTime then
      match parseDate(units)
      case None => None
      case Some(t) => Some(At(t))
    else
      match ToNumber(units)
      case None => Some(Invalid)
      case Some(n) => Some(At(round + n))
  }

  /** `TIMED_SET path :: value :: reason :: isGameTime :: units`: skipped unless all
      five fields are given; otherwise one scheduled entry is appended. */
  function ApplyTimedSet(s: StateValue, fs: seq<string>, round: int, parseDate: string -> Option<int>): (r: StateValue)
    ensures r.staticVars == s.staticVars && r.responseSummary == s.responseSummary
  {
    if !(Given(fs, 0) && Given(fs, 1) && Given(fs, 2) && Given(fs, 3) && Given(fs, 4)) then s
    else
      var isGameTime := IsTrueWord(fs[3]);
      match TargetOf(isGameTime, fs[4], round, parseDate)
      case None => s
      case Some(target) =>
        s.(volatile := s.volatile + [VolatileEntry(fs[0], Coerce(fs[1]), isGameTime, target, fs[2])])
  }

  /** The entries a `CANCEL_SET` by name keeps: those whose name and reason both
      differ from the identifier. */
  predicate Survives(id: string, e: VolatileEntry) {
    e.varName != id && e.reason != id
  }

  /** `volatile.filter(...)` for a `CANCEL_SET` by name. */
  function CancelMatching(vol: seq<VolatileEntry>, id: string): (r: seq<VolatileEntry>)
    ensures forall e :: e in r ==> e in vol && Survives(id, e)
  {
    Filter((e: VolatileEntry) => Survives(id, e), vol)
  }

  /** `CANCEL_SET identifier`: nothing without an identifier or without scheduled
      entries; an identifier that `parseInt` reads as a valid index removes that
      entry; any other removes every entry named or labelled by it. */
  function ApplyCancel(s: StateValue, fs: seq<string>): (r: StateValue)
    requires |fs| >= 1
    ensures r.staticVars == s.staticVars && r.responseSummary == s.responseSummary
    ensures |r.volatile| <= |s.volatile|
  {
    var id := fs[0];
    if id == "" || s.volatile == [] then s
    else
      var index := ParseInt(id);
      if index.Some? && 0 <= index.value < |s.volatile| then
        s.(volatile := s.volatile[..index.value] + s.volatile[index.value + 1..])
      else s.(volatile := CancelMatching(s.volatile, id))
  }

  /** One turn of the loop: the command's parameters are split into fields and the
      command changes the one part of the state it is about. */
  function ApplyCommand(s: StateValue, c: Command, round: int, parseDate: string -> Option<int>): (r: StateValue)
    ensures c.kind != Set && c.kind != Add ==> r.staticVars == s.staticVars
    ensures c.kind != TimedSet && c.kind != CancelSet ==> r.volatile == s.volatile
    ensures c.kind != ResponseSummary ==> r.responseSummary == s.responseSummary
  {
    var fs := Fields(c.params);
    match c.kind
    case Set => ApplySet(s, fs)
    case Add => ApplyAdd(s, fs)
    case ResponseSummary => ApplyResponseSummary(s, c.params)
    case TimedSet => ApplyTimedSet(s, fs, round, parseDate)
    case CancelSet => ApplyCancel(s, fs)
  }

  /** The commands applied one after another, first to last. The summaries only
      ever grow: what was there stays a prefix. */
  function ApplyCommands(s: StateValue, cs: seq<Command>, round: int, parseDate: string -> Option<int>): (r: StateValue)
    ensures s.responseSummary <= r.responseSummary
    decreases |cs|
  {
    if cs == [] then s
    else ApplyCommand(ApplyCommands(s, cs[..|cs| - 1], round, parseDate), cs[|cs| - 1], round, parseDate)
  }

  // ---------------------------------------------------------------------------
  // Order of application
  // ---------------------------------------------------------------------------

  /** Applying two lists in a row is applying their concatenation. */
  lemma {:induction false} ApplyCommandsAppend(s: StateValue, a: seq<Command>, b: seq<Command>, round: int, parseDate: string -> Option<int>)
    ensures ApplyCommands(s, a + b, round, parseDate) == ApplyCommands(ApplyCommands(s, a, round, parseDate), b, round, parseDate)
    decreases |b|
  {
    if b == [] {
      assert a + b == a;
    } else {
      var b' := b[..|b| - 1];
      assert (a + b)[..|a + b| - 1] == a + b';
      assert (a + b)[|a + b| - 1] == b[|b| - 1];
      ApplyCommandsAppend(s, a, b', round, parseDate);
    }
  }

  /** Commands other than `RESPONSE_SUMMARY` leave the summaries alone, whatever
      else they do; `RESPONSE_SUMMARY` appends exactly its trimmed text. */
  lemma ResponseSummaryAppends(s: StateValue, c: Command, round: int, parseDate: string -> Option<int>)
    ensures ApplyCommand(s, c, round, parseDate).responseSummary ==
      if c.kind == ResponseSummary then s.responseSummary + [Trim(c.params)] else s.responseSummary
  {
  }

  // ---------------------------------------------------------------------------
  // SET and ADD
  // ---------------------------------------------------------------------------

  /** A `SET` with a name and a value writes the coerced value at the path, whatever
      was there before; every top-level variable other than the path's first key is
      untouched. */
  lemma SetWrites(s: StateValue, c: Command, round: int, parseDate: string -> Option<int>)
    requires c.kind == Set
    requires var fs := Fields(c.params); Given(fs, 0) && |fs| >= 2
    requires Reaches(Obj(s.staticVars), PathOf(Fields(c.params)[0]))
    ensures var fs := Fields(c.params); var r := ApplyCommand(s, c, round, parseDate);
      && GetPath(r.staticVars, PathOf(fs[0])) == Some(Coerce(fs[1]))
      && (forall k :: k in s.staticVars && k != PathOf(fs[0])[0] ==> r.staticVars[k] == s.staticVars[k])
  {
    var fs := Fields(c.params);
    GetAfterSet(Obj(s.staticVars), PathOf(fs[0]), Coerce(fs[1]));
  }

  /** A `SET` without a name or without a value changes nothing. */
  lemma SetSkipped(s: StateValue, c: Command, round: int, parseDate: string -> Option<int>)
    requires c.kind == Set
    requires var fs := Fields(c.params); !Given(fs, 0) || |fs| < 2
    ensures ApplyCommand(s, c, round, parseDate) == s
  {
  }

  /** `ADD` onto an array appends the delta as a string element, never a number,
      to the array `_.get` found, so a path `_.set` would not follow (a guarded key,
      say) still grows it. */
  lemma AddToArray(s: StateValue, c: Command, items: seq<Value>, round: int, parseDate: string -> Option<int>)
    requires c.kind == Add
    requires var fs := Fields(c.params); Given(fs, 0) && |fs| >= 2
    requires GetPath(s.staticVars, PathOf(Fields(c.params)[0])) == Some(Arr(items))
    ensures var fs := Fields(c.params);
      GetPath(ApplyCommand(s, c, round, parseDate).staticVars, PathOf(fs[0])) == Some(Arr(items + [Str(fs[1])]))
    // The push creates no variable, and other variables keep their values.
    ensures var r := ApplyCommand(s, c, round, parseDate).staticVars;
      && r.Keys == s.staticVars.Keys
      && forall k :: k in s.staticVars && k != PathOf(Fields(c.params)[0])[0] ==> r[k] == s.staticVars[k]
  {
    var fs := Fields(c.params);
    var path := PathOf(fs[0]);
    var appended := Arr(items + [Str(fs[1])]);
    AddAppends(s, fs, appended);
    PutPathIsPutIn(s.staticVars, path, appended);
    GetAfterPut(Obj(s.staticVars), path, appended);
  }

  /** `ADD` onto anything but an array adds the delta to the current number, which
      is 0 for a missing variable (read as `Num(0)`) and for anything `Number` does
      not read. */
  lemma AddNumbers(s: StateValue, c: Command, existing: Value, delta: int, round: int, parseDate: string -> Option<int>)
    requires c.kind == Add
    requires var fs := Fields(c.params); Given(fs, 0) && |fs| >= 2 && ToNumber(fs[1]) == Some(delta)
    requires GetPath(s.staticVars, PathOf(Fields(c.params)[0])).GetOr(Num(0)) == existing && !existing.Arr?
    requires Reaches(Obj(s.staticVars), PathOf(Fields(c.params)[0]))
    ensures GetPath(ApplyCommand(s, c, round, parseDate).staticVars, PathOf(Fields(c.params)[0])) ==
      Some(Num(BaseNumber(existing) + delta))
  {
    var fs := Fields(c.params);
    var path := PathOf(fs[0]);
    var written := Num(BaseNumber(existing) + delta);
    AddedNumber(existing, fs[1], delta);
    AddWrites(s, fs, written);
    SetPathIsSetIn(s.staticVars, path, written);
    GetAfterSet(Obj(s.staticVars), path, written);
  }

  /** The sum field by field; comparing whole values directly sends the solver on
      a long search through the value type. */
  lemma AddedSum(existing: Value, delta: string, d: int)
    requires ToNumber(delta) == Some(d) && !existing.Arr?
    ensures Added(existing, delta).Some? && Added(existing, delta).value.Num?
    ensures Added(existing, delta).value.n == BaseNumber(existing) + d
  {
  }

  lemma AddedNumber(existing: Value, delta: string, d: int)
    requires ToNumber(delta) == Some(d) && !existing.Arr?
    ensures Added(existing, delta) == Some(Num(BaseNumber(existing) + d))
  {
    AddedSum(existing, delta, d);
  }

  /** An `ADD` onto an array puts the grown array where the old one was. */
  lemma AddAppends(s: StateValue, fs: seq<string>, v: Value)
    requires Given(fs, 0) && |fs| >= 2
    requires GetPath(s.staticVars, PathOf(fs[0])).GetOr(Num(0)).Arr?
    requires Added(GetPath(s.staticVars, PathOf(fs[0])).GetOr(Num(0)), fs[1]) == Some(v)
    ensures ApplyAdd(s, fs) == s.(staticVars := PutPath(s.staticVars, PathOf(fs[0]), v))
  {
  }

  /** An `ADD` with a new number writes it at the path. */
  lemma AddWrites(s: StateValue, fs: seq<string>, v: Value)
    requires Given(fs, 0) && |fs| >= 2
    requires !GetPath(s.staticVars, PathOf(fs[0])).GetOr(Num(0)).Arr?
    requires Added(GetPath(s.staticVars, PathOf(fs[0])).GetOr(Num(0)), fs[1]) == Some(v)
    ensures ApplyAdd(s, fs) == s.(staticVars := SetPath(s.staticVars, PathOf(fs[0]), v))
  {
  }

  /** An `ADD` without a new value changes nothing. */
  lemma AddKeeps(s: StateValue, fs: seq<string>)
    requires Given(fs, 0) && |fs| >= 2
    requires Added(GetPath(s.staticVars, PathOf(fs[0])).GetOr(Num(0)), fs[1]).None?
    ensures ApplyAdd(s, fs) == s
  {
  }

  /** `ADD` of a delta that is not a number onto anything but an array changes
      nothing; so does an `ADD` without a name or a delta. */
  lemma AddSkipped(s: StateValue, c: Command, round: int, parseDate: string -> Option<int>)
    requires c.kind == Add
    requires var fs := Fields(c.params);
      || !Given(fs, 0) || |fs| < 2
      || (ToNumber(fs[1]).None? && !GetPath(s.staticVars, PathOf(fs[0])).GetOr(Num(0)).Arr?)
    ensures ApplyCommand(s, c, round, parseDate) == s
  {
  }

  // ---------------------------------------------------------------------------
  // TIMED_SET and CANCEL_SET
  // ---------------------------------------------------------------------------

  /** A `TIMED_SET` with all five fields appends exactly one entry, built from them,
      after the existing ones; in round mode its target is the current round plus
      the units. */
  lemma TimedSetAppends(s: StateValue, c: Command, round: int, parseDate: string -> Option<int>)
    requires c.kind == TimedSet
    requires var fs := Fields(c.params); Given(fs, 0) && Given(fs, 1) && Given(fs, 2) && Given(fs, 3) && Given(fs, 4)
    requires !IsTrueWord(Fields(c.params)[3]) || parseDate(Fields(c.params)[4]).Some?
    ensures var fs := Fields(c.params); var r := ApplyCommand(s, c, round, parseDate);
      && |r.volatile| == |s.volatile| + 1
      && r.volatile[..|s.volatile|] == s.volatile
      && r.volatile[|s.volatile|].varName == fs[0]
      && r.volatile[|s.volatile|].value == Coerce(fs[1])
      && r.volatile[|s.volatile|].reason == fs[2]
      && r.volatile[|s.volatile|].isGameTime == IsTrueWord(fs[3])
      && (!IsTrueWord(fs[3]) ==>
            r.volatile[|s.volatile|].targetTime == match ToNumber(fs[4]) case None => Invalid case Some(n) => At(round + n))
  {
    var fs := Fields(c.params);
    var r := ApplyCommand(s, c, round, parseDate);
    assert r.volatile[..|s.volatile|] == s.volatile;
  }

  /** A `TIMED_SET` with all five fields and a target appends the entry built from
      them. */
  lemma TimedSetWrites(s: StateValue, fs: seq<string>, round: int, parseDate: string -> Option<int>, target: TargetTime)
    requires Given(fs, 0) && Given(fs, 1) && Given(fs, 2) && Given(fs, 3) && Given(fs, 4)
    requires TargetOf(IsTrueWord(fs[3]), fs[4], round, parseDate) == Some(target)
    ensures ApplyTimedSet(s, fs, round, parseDate) ==
      s.(volatile := s.volatile + [VolatileEntry(fs[0], Coerce(fs[1]), IsTrueWord(fs[3]), target, fs[2])])
  {
  }

  /** A `TIMED_SET` missing a field or a target changes nothing. */
  lemma TimedSetKeeps(s: StateValue, fs: seq<string>, round: int, parseDate: string -> Option<int>)
    requires || !(Given(fs, 0) && Given(fs, 1) && Given(fs, 2) && Given(fs, 3) && Given(fs, 4))
             || TargetOf(IsTrueWord(fs[3]), fs[4], round, parseDate).None?
    ensures ApplyTimedSet(s, fs, round, parseDate) == s
  {
  }

  /** A `TIMED_SET` missing any of its five fields, or whose date does not parse,
      changes nothing. */
  lemma TimedSetSkipped(s: StateValue, c: Command, round: int, parseDate: string -> Option<int>)
    requires c.kind == TimedSet
    requires var fs := Fields(c.params);
      || !(Given(fs, 0) && Given(fs, 1) && Given(fs, 2) && Given(fs, 3) && Given(fs, 4))
      || (IsTrueWord(fs[3]) && parseDate(fs[4]).None?)
    ensures ApplyCommand(s, c, round, parseDate) == s
  {
  }

  /** A `CANCEL_SET` without an identifier, or with nothing scheduled, changes
      nothing. */
  lemma CancelSkipped(s: StateValue, c: Command, round: int, parseDate: string -> Option<int>)
    requires c.kind == CancelSet
    requires Fields(c.params)[0] == "" || s.volatile == []
    ensures ApplyCommand(s, c, round, parseDate) == s
  {
  }

  /** A `CANCEL_SET` whose identifier reads as an index of the schedule removes that
      entry and no other, keeping the rest in order. */
  lemma CancelByIndex(s: StateValue, c: Command, i: int, round: int, parseDate: string -> Option<int>)
    requires c.kind == CancelSet
    requires ParseInt(Fields(c.params)[0]) == Some(i) && 0 <= i < |s.volatile|
    ensures ApplyCommand(s, c, round, parseDate).volatile == s.volatile[..i] + s.volatile[i + 1..]
  {
    assert Fields(c.params)[0] != "";
  }

  /** A `CANCEL_SET` whose identifier is not an index of the schedule keeps exactly
      the entries whose name and reason differ from it, every copy of them, in
      their order. */
  lemma CancelByName(s: StateValue, c: Command, round: int, parseDate: string -> Option<int>)
    requires c.kind == CancelSet
    requires var id := Fields(c.params)[0];
      id != "" && s.volatile != [] &&
      (ParseInt(id).None? || !(0 <= ParseInt(id).value < |s.volatile|))
    ensures var id := Fields(c.params)[0]; var r := ApplyCommand(s, c, round, parseDate);
      && IsSubsequence(r.volatile, s.volatile)
      && (forall e :: e in r.volatile <==> e in s.volatile && Survives(id, e))
      && (forall e :: multiset(r.volatile)[e] == if Survives(id, e) then multiset(s.volatile)[e] else 0)
  {
    var id := Fields(c.params)[0];
    var p := (e: VolatileEntry) => Survives(id, e);
    FilterIsSubsequence(p, s.volatile);
    forall e ensures multiset(CancelMatching(s.volatile, id))[e] == if Survives(id, e) then multiset(s.volatile)[e] else 0 {
      FilterCount(p, s.volatile, e);
    }
    forall e | e in s.volatile && Survives(id, e) ensures e in CancelMatching(s.volatile, id) {
      FilterKeeps(p, s.volatile, e);
    }
  }
}
