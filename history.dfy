/** The two backward scans over the chat: the state to start from is the newest
    one stored in a message that is not the user's, and the newest message that
    is not the user's is the one whose state gets re-read. */
module History {
  import opened Wrappers
  import opened WorldState
  import opened StateBlock

  /** A chat message: who wrote it, its text, and the alternative versions
      ("swipes") with the index of the one on show. */
  datatype Message = Message(role: string, text: string, swipes: Option<seq<string>>, swipeId: Option<int>)

  /** `message.role === "user"` */
  predicate IsUser(m: Message) {
    m.role == "user"
  }

  /** `message.swipes?.[message.swipe_id ?? 0] ?? message.message`: the swipe on
      show, or the text when there are no swipes or the index is out of range. */
  function SwipeContent(m: Message): (r: string)
    ensures m.swipes.None? ==> r == m.text
  {
    var k := m.swipeId.GetOr(0);
    match m.swipes
    case Some(sw) => if 0 <= k < |sw| then sw[k] else m.text
    case None => m.text
  }

  /** The state a message holds, read from the swipe on show. */
  function StoredState(m: Message, decode: string -> Option<StateValue>): Option<StateValue> {
    ParseState(SwipeContent(m), decode)
  }

  /** The message is one `findLatestState` loads a state from. */
  predicate Loads(m: Message, decode: string -> Option<StateValue>) {
    !IsUser(m) && StoredState(m, decode).Some?
  }

  /** What `findLatestState(history)` returns: the state of the last message that
      loads one, or the initial state. */
  function LatestState(history: seq<Message>, decode: string -> Option<StateValue>): StateValue
    decreases |history|
  {
    if history == [] then Initial
    else
      var m := history[|history| - 1];
      if Loads(m, decode) then StoredState(m, decode).value
      else LatestState(history[..|history| - 1], decode)
  }

  /** `findLatestState(chatHistory)`: walks back from the newest message, skips the
      user's, and returns the first state that parses; the initial state when none
      does. */
  method FindLatestState(history: seq<Message>, decode: string -> Option<StateValue>) returns (s: StateValue)
    ensures s == LatestState(history, decode)
  {
    var i := |history|;
    assert history[..i] == history;
    while i > 0
      invariant 0 <= i <= |history|
      invariant LatestState(history, decode) == LatestState(history[..i], decode)
    {
      i := i - 1;
      assert history[..i + 1][..i] == history[..i];
      var message := history[i];
      if message.role == "user" {
        continue;
      }
      var swipeContent := SwipeContent(message);
      var state := ParseState(swipeContent, decode);
      if state.Some? {
        return state.value;
      }
    }
    return Initial;
  }

  /** The latest state is the stored state of the last message that loads one, and
      the initial state when no message does. */
  lemma {:induction false} LatestStateIs(history: seq<Message>, decode: string -> Option<StateValue>, i: int)
    requires 0 <= i < |history| && Loads(history[i], decode)
    requires forall j :: i < j < |history| ==> !Loads(history[j], decode)
    ensures LatestState(history, decode) == StoredState(history[i], decode).value
    decreases |history|
  {
    if i < |history| - 1 {
      var init := history[..|history| - 1];
      assert init[i] == history[i];
      forall j | i < j < |init| ensures !Loads(init[j], decode) {
        assert init[j] == history[j];
      }
      LatestStateIs(init, decode, i);
    }
  }

  /** Without a message that loads a state the scan falls back to the initial
      state. */
  lemma {:induction false} LatestStateInitial(history: seq<Message>, decode: string -> Option<StateValue>)
    requires forall j :: 0 <= j < |history| ==> !Loads(history[j], decode)
    ensures LatestState(history, decode) == Initial
    decreases |history|
  {
    if history != [] {
      var init := history[..|history| - 1];
      forall j | 0 <= j < |init| ensures !Loads(init[j], decode) {
        assert init[j] == history[j];
      }
      LatestStateInitial(init, decode);
    }
  }

  /** User messages are never consulted: two histories that differ only in what the
      user's messages say give the same state. */
  lemma {:induction false} LatestStateIgnoresUser(h1: seq<Message>, h2: seq<Message>, decode: string -> Option<StateValue>)
    requires |h1| == |h2|
    requires forall j :: 0 <= j < |h1| ==> h1[j] == h2[j] || (IsUser(h1[j]) && IsUser(h2[j]))
    ensures LatestState(h1, decode) == LatestState(h2, decode)
    decreases |h1|
  {
    if h1 != [] {
      var n := |h1| - 1;
      var i1, i2 := h1[..n], h2[..n];
      forall j | 0 <= j < n ensures i1[j] == i2[j] || (IsUser(i1[j]) && IsUser(i2[j])) {
        assert i1[j] == h1[j] && i2[j] == h2[j];
      }
      LatestStateIgnoresUser(i1, i2, decode);
    }
  }

  /** `findLastAiMessageAndIndex(beforeIndex)`: the index of the last message
      before `beforeIndex` that is not the user's, or -1 when there is none; -1 as
      the argument means the whole chat. */
  method FindLastAiMessageAndIndex(chat: seq<Message>, beforeIndex: int) returns (r: int)
    requires beforeIndex <= |chat|
    ensures var b := if beforeIndex == -1 then |chat| else beforeIndex;
      && (r == -1 || (0 <= r < b && !IsUser(chat[r])))
      && (forall j :: r < j < b && 0 <= j ==> IsUser(chat[j]))
  {
    var b := beforeIndex;
    if b == -1 {
      b := |chat|;
    }
    var i := b - 1;
    while i >= 0
      invariant i < b
      invariant forall j :: i < j < b && 0 <= j ==> IsUser(chat[j])
    {
      if chat[i].role != "user" {
        return i;
      }
      i := i - 1;
    }
    return -1;
  }
}
