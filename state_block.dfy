/** The state block embedded in a message: the lazy expression that finds the
    first block for parsing, the greedy one that strips every block, and the text
    the block is rendered as. The JSON inside a block is produced and read by an
    encode/decode pair passed in from outside.

    The proofs are stated for any pair of non-empty markers without line breaks,
    and then applied to the two markers below. */
module StateBlock {
  import opened Wrappers
  import opened Text
  import opened WorldState

  /** `STATE_BLOCK_START_MARKER` */
  const StartMarker: string := "<!--<|state|>"
  /** `STATE_BLOCK_END_MARKER` */
  const EndMarker: string := "</|state|>-->"

  /** Both markers are non-empty and neither holds a line break. */
  lemma MarkersShape()
    ensures |StartMarker| > 0 && '\n' !in StartMarker
    ensures |EndMarker| > 0 && '\n' !in EndMarker
  {
  }

  /** Some `open` in `t` is followed, after its own end, by a `close`: the lazy and
      the greedy expression both have a match exactly then. */
  ghost predicate Spans(t: string, open: string, close: string) {
    exists a, b :: OccursAt(t, open, a) && OccursAt(t, close, b) && a + |open| <= b
  }

  /** A state block: a start marker followed by an end marker. */
  ghost predicate HasBlock(t: string) {
    Spans(t, StartMarker, EndMarker)
  }

  // ---------------------------------------------------------------------------
  // Parsing: the lazy expression
  // ---------------------------------------------------------------------------

  /** `open([\s\S]*?)close`: where the capture group starts and ends. The match
      begins at the leftmost `open` and the lazy group stops at the first `close`
      behind it. */
  function LazySpan(t: string, open: string, close: string): (r: Option<(nat, nat)>)
    ensures r.Some? ==> var (lo, hi) := r.value;
      && lo >= |open| && lo <= hi
      && OccursAt(t, open, lo - |open|) && OccursAt(t, close, hi)
      && (forall p :: 0 <= p < lo - |open| ==> !OccursAt(t, open, p))
      && (forall p :: lo <= p < hi ==> !OccursAt(t, close, p))
  {
    match FindFrom(t, open, 0)
    case None => None
    case Some(i) =>
      match FindFrom(t, close, i + |open|)
      case None => None
      case Some(j) => Some((i + |open|, j))
  }

  /** The capture of `STATE_BLOCK_PARSE_REGEX`. */
  function LazyBlock(t: string): Option<(nat, nat)> {
    LazySpan(t, StartMarker, EndMarker)
  }

  /** The lazy expression matches exactly when the text holds a span. */
  lemma LazySpanFound(t: string, open: string, close: string)
    ensures LazySpan(t, open, close).Some? <==> Spans(t, open, close)
  {
    if Spans(t, open, close) {
      var a, b :| OccursAt(t, open, a) && OccursAt(t, close, b) && a + |open| <= b;
      var i := FindFrom(t, open, 0);
      assert i.Some? && i.value <= a;
      var j := FindFrom(t, close, i.value + |open|);
      assert j.Some?;
    }
  }

  /** The captured text holds no `close`: the lazy group stops at the first. */
  lemma LazyContentHasNoClose(t: string, open: string, close: string)
    requires |close| > 0 && LazySpan(t, open, close).Some?
    ensures var (lo, hi) := LazySpan(t, open, close).value; !Contains(t[lo..hi], close)
  {
    var (lo, hi) := LazySpan(t, open, close).value;
    if Contains(t[lo..hi], close) {
      var p :| 0 <= p <= hi - lo && OccursAt(t[lo..hi], close, p);
      OccursInSlice(t, lo, hi, close, p);
      assert false;
    }
  }

  /** `parseStateFromMessage(content)`: `null` for empty content, for content
      without a block and for an empty capture; otherwise the trimmed capture is
      decoded, and a decoding failure is `null` too. */
  function ParseState(t: string, decode: string -> Option<StateValue>): Option<StateValue> {
    if t == "" then None
    else match LazyBlock(t)
      case None => None
      case Some((lo, hi)) => if lo == hi then None else decode(Trim(t[lo..hi]))
  }

  /** The lazy expression matches exactly the messages with a block, a message
      parses only if it holds one, and what is parsed is the first block: its
      capture holds no end marker. */
  lemma ParseFindsFirstBlock(t: string, decode: string -> Option<StateValue>)
    ensures LazyBlock(t).Some? <==> HasBlock(t)
    ensures !HasBlock(t) ==> ParseState(t, decode) == None
    ensures LazyBlock(t).Some? ==> var (lo, hi) := LazyBlock(t).value; !Contains(t[lo..hi], EndMarker)
  {
    MarkersShape();
    LazySpanFound(t, StartMarker, EndMarker);
    if LazyBlock(t).Some? {
      LazyContentHasNoClose(t, StartMarker, EndMarker);
    }
  }

  // ---------------------------------------------------------------------------
  // Stripping: the greedy expression
  // ---------------------------------------------------------------------------

  /** `t.replace(/open([\s\S]*)close/, '')`: the span from the leftmost `open` to
      the last `close` behind it is cut out; text without a span is returned as it
      is. */
  function GreedyCut(t: string, open: string, close: string): (r: string)
    ensures |r| <= |t|
  {
    match FindFrom(t, open, 0)
    case None => t
    case Some(i) =>
      match FindLast(t, close)
      case None => t
      case Some(j) => if j < i + |open| then t else t[..i] + t[j + |close|..]
  }

  /** `content.replace(STATE_BLOCK_REMOVE_REGEX, '')`. */
  function RemoveBlocks(t: string): string {
    GreedyCut(t, StartMarker, EndMarker)
  }

  /** `.replace(...).trim()`: the narrative without its state blocks. */
  function CleanNarrative(t: string): string {
    Trim(RemoveBlocks(t))
  }

  /** A span means the leftmost `open` comes before the last `close`. */
  lemma SpanBounds(t: string, open: string, close: string)
    ensures Spans(t, open, close) <==>
      var fi := FindFrom(t, open, 0); var fj := FindLast(t, close);
      fi.Some? && fj.Some? && fi.value + |open| <= fj.value
  {
    if Spans(t, open, close) {
      var a, b :| OccursAt(t, open, a) && OccursAt(t, close, b) && a + |open| <= b;
      assert FindFrom(t, open, 0).value <= a;
      assert b <= FindLast(t, close).value;
    }
    var fi := FindFrom(t, open, 0);
    var fj := FindLast(t, close);
    if fi.Some? && fj.Some? && fi.value + |open| <= fj.value {
      assert OccursAt(t, open, fi.value) && OccursAt(t, close, fj.value);
    }
  }

  /** Text without a span is left as it is, and text with one gets shorter. */
  lemma GreedyCutChanges(t: string, open: string, close: string)
    requires |close| > 0
    ensures !Spans(t, open, close) ==> GreedyCut(t, open, close) == t
    ensures Spans(t, open, close) ==> |GreedyCut(t, open, close)| < |t|
  {
    SpanBounds(t, open, close);
  }

  /** An `open` that ends before the cut lies in the text before it. */
  lemma OpenInPrefix(t: string, open: string, close: string, i: nat, j: nat, a: int)
    requires i <= j + |close| <= |t| && a + |open| <= i
    requires OccursAt(t[..i] + t[j + |close|..], open, a)
    ensures OccursAt(t, open, a)
  {
    OccursSplit(t[..i], t[j + |close|..], open, a);
    assert t[..i] == t[0..i];
    OccursInSlice(t, 0, i, open, a);
  }

  /** A `close` that starts after the cut lies in the text after it. */
  lemma CloseInSuffix(t: string, open: string, close: string, i: nat, j: nat, b: int)
    requires |close| > 0 && i <= j + |close| <= |t| && i <= b
    requires OccursAt(t[..i] + t[j + |close|..], close, b)
    ensures OccursAt(t, close, j + |close| + b - i)
  {
    OccursSplit(t[..i], t[j + |close|..], close, b);
    assert t[j + |close|..] == t[j + |close|..|t|];
    OccursInSlice(t, j + |close|, |t|, close, b - i);
  }

  /** Cutting from the first `open` at `i` through the last `close` at `j` leaves
      no span: the text before `i` holds no `open` and the text after the last
      `close` holds no `close`. */
  lemma CutLeavesNone(t: string, open: string, close: string, i: nat, j: nat)
    requires |open| > 0 && |close| > 0
    requires FindFrom(t, open, 0) == Some(i) && FindLast(t, close) == Some(j)
    requires i + |open| <= j
    ensures !Spans(t[..i] + t[j + |close|..], open, close)
  {
    var r := t[..i] + t[j + |close|..];
    if Spans(r, open, close) {
      var a, b :| OccursAt(r, open, a) && OccursAt(r, close, b) && a + |open| <= b;
      if b < i {
        OpenInPrefix(t, open, close, i, j, a);
        assert false;
      } else {
        CloseInSuffix(t, open, close, i, j, b);
        assert false;
      }
    }
  }

  /** After the greedy removal no span is left. */
  lemma GreedyCutLeavesNone(t: string, open: string, close: string)
    requires |open| > 0 && |close| > 0
    ensures !Spans(GreedyCut(t, open, close), open, close)
  {
    var fi := FindFrom(t, open, 0);
    var fj := FindLast(t, close);
    SpanBounds(t, open, close);
    if fi.Some? && fj.Some? && fi.value + |open| <= fj.value {
      CutLeavesNone(t, open, close, fi.value, fj.value);
    }
  }

  /** A span in a slice is a span in the whole text. */
  lemma SpanInSlice(t: string, open: string, close: string, lo: nat, hi: nat)
    requires lo <= hi <= |t| && Spans(t[lo..hi], open, close)
    ensures Spans(t, open, close)
  {
    var a, b :| OccursAt(t[lo..hi], open, a) && OccursAt(t[lo..hi], close, b) && a + |open| <= b;
    OccursInSlice(t, lo, hi, open, a);
    OccursInSlice(t, lo, hi, close, b);
  }

  /** Trimming text without a span leaves no span. */
  lemma TrimKeepsNoSpan(t: string, open: string, close: string)
    requires !Spans(t, open, close)
    ensures !Spans(Trim(t), open, close)
  {
    if Spans(Trim(t), open, close) {
      var a := LeadingSpaces(t);
      var b := TrailingSpaces(t[a..]);
      assert Trim(t) == t[a..|t| - b];
      SpanInSlice(t, open, close, a, |t| - b);
    }
  }

  /** Stripping removes every block, text without a block only gets trimmed, and
      stripping a second time changes nothing. */
  lemma CleanNarrativeIdempotent(t: string)
    ensures !HasBlock(CleanNarrative(t))
    ensures !HasBlock(t) ==> CleanNarrative(t) == Trim(t)
    ensures CleanNarrative(CleanNarrative(t)) == CleanNarrative(t)
  {
    MarkersShape();
    var r := RemoveBlocks(t);
    GreedyCutLeavesNone(t, StartMarker, EndMarker);
    GreedyCutChanges(t, StartMarker, EndMarker);
    TrimKeepsNoSpan(r, StartMarker, EndMarker);
    GreedyCutChanges(CleanNarrative(t), StartMarker, EndMarker);
    TrimIdempotent(r);
  }

  /** A message with a block gets shorter when its blocks are removed. */
  lemma RemoveBlocksShortens(t: string)
    requires HasBlock(t)
    ensures |RemoveBlocks(t)| < |t|
  {
    MarkersShape();
    GreedyCutChanges(t, StartMarker, EndMarker);
  }

  // ---------------------------------------------------------------------------
  // Rendering
  // ---------------------------------------------------------------------------

  /** `${open}\n${json}\n${close}`. */
  function Block(open: string, json: string, close: string): string {
    open + "\n" + json + "\n" + close
  }

  /** `${START}\n${json}\n${END}`: the block a state is written back as. */
  function RenderBlock(json: string): string {
    Block(StartMarker, json, EndMarker)
  }

  /** `${cleanNarrative}\n\n${newStateBlock}`: the rewritten message. */
  function RewriteMessage(t: string, json: string): string {
    CleanNarrative(t) + "\n\n" + RenderBlock(json)
  }

  /** No occurrence of a pattern without line breaks covers a line break. */
  lemma NewlineBreaks(t: string, pat: string, p: int, k: int)
    requires OccursAt(t, pat, p) && '\n' !in pat
    requires p <= k < p + |pat|
    ensures t[k] != '\n'
  {
    assert t[p..p + |pat|][k - p] == pat[k - p];
  }

  /** An occurrence inside a slice is an occurrence in that slice. */
  lemma OccursInside(m: string, lo: nat, hi: nat, pat: string, p: int)
    requires OccursAt(m, pat, p) && lo <= p && p + |pat| <= hi <= |m|
    ensures OccursAt(m[lo..hi], pat, p - lo)
  {
    var w := m[lo..hi][p - lo..p - lo + |pat|];
    forall k | 0 <= k < |pat| ensures w[k] == pat[k] {
      assert m[p..p + |pat|][k] == pat[k];
    }
    assert w == pat;
  }

  /** `m` is laid out as `c`, two line breaks, `open`, a line break, `json`, a line
      break and `close`. */
  predicate Framed(m: string, c: string, open: string, json: string, close: string) {
    var lo := |c| + 2 + |open|;
    var hi := lo + |json| + 2;
    && |m| == hi + |close|
    && m[0..|c|] == c && m[|c|] == '\n' && m[|c| + 1] == '\n'
    && m[|c| + 2..lo] == open && m[lo] == '\n'
    && m[lo + 1..hi - 1] == json && m[hi - 1] == '\n' && m[hi..] == close
  }

  /** The block is laid out as its three parts between two line breaks. */
  lemma BlockFramed(open: string, json: string, close: string)
    ensures Framed("\n\n" + Block(open, json, close), [], open, json, close)
  {
    var m := "\n\n" + Block(open, json, close);
    assert m == "\n\n" + open + "\n" + json + "\n" + close;
  }

  /** A slice of the right operand of a concatenation, seen in the whole. */
  lemma SliceOfRight(c: string, b: string, x: nat, y: nat)
    requires x <= y <= |b|
    ensures (c + b)[|c| + x..|c| + y] == b[x..y]
  {
    var w1 := (c + b)[|c| + x..|c| + y];
    var w2 := b[x..y];
    forall k | 0 <= k < |w1| ensures w1[k] == w2[k] {
    }
  }

  /** A rewritten message is laid out as narrative, line breaks and block. */
  lemma RewriteFramed(c: string, open: string, json: string, close: string)
    ensures Framed(c + "\n\n" + Block(open, json, close), c, open, json, close)
  {
    var b := "\n\n" + Block(open, json, close);
    BlockFramed(open, json, close);
    var m := c + "\n\n" + Block(open, json, close);
    assert m == c + b;
    assert m[0..|c|] == c;
    var lo := 2 + |open|;
    var hi := lo + |json| + 2;
    SliceOfRight(c, b, 2, lo);
    SliceOfRight(c, b, lo + 1, hi - 1);
    SliceOfRight(c, b, hi, |b|);
    assert m[|c| + hi..] == m[|c| + hi..|c| + |b|];
  }

  /** No `open` starts in `c` or in the two line breaks behind it. */
  lemma NoOpenBefore(m: string, c: string, open: string, p: int)
    requires |c| + 2 <= |m| && m[0..|c|] == c && m[|c|] == '\n' && m[|c| + 1] == '\n'
    requires |open| > 0 && '\n' !in open && !Contains(c, open)
    requires 0 <= p < |c| + 2
    ensures !OccursAt(m, open, p)
  {
    if OccursAt(m, open, p) {
      if p + |open| <= |c| {
        OccursInside(m, 0, |c|, open, p);
      } else {
        NewlineBreaks(m, open, p, if p < |c| then |c| else p);
      }
    }
  }

  /** No `close` starts between the line breaks around `json`. */
  lemma NoCloseInside(m: string, lo: nat, hi: nat, json: string, close: string, p: int)
    requires lo + 2 <= hi <= |m| && m[lo] == '\n' && m[lo + 1..hi - 1] == json && m[hi - 1] == '\n'
    requires |close| > 0 && '\n' !in close && !Contains(json, close)
    requires lo <= p < hi
    ensures !OccursAt(m, close, p)
  {
    if OccursAt(m, close, p) {
      if p == lo {
        NewlineBreaks(m, close, p, lo);
      } else if p + |close| <= hi - 1 {
        OccursInside(m, lo + 1, hi - 1, close, p);
      } else {
        NewlineBreaks(m, close, p, hi - 1);
      }
    }
  }

  /** The first `open` is the one behind `c` and its two line breaks. */
  lemma FirstOpenAfter(m: string, c: string, open: string)
    requires |c| + 2 + |open| <= |m| && m[0..|c|] == c && m[|c|] == '\n' && m[|c| + 1] == '\n'
    requires m[|c| + 2..|c| + 2 + |open|] == open
    requires |open| > 0 && '\n' !in open && !Contains(c, open)
    ensures FindFrom(m, open, 0) == Some(|c| + 2)
  {
    forall p | 0 <= p < |c| + 2 ensures !OccursAt(m, open, p) {
      NoOpenBefore(m, c, open, p);
    }
    FindFromIs(m, open, 0, |c| + 2);
  }

  /** The first `close` from `lo` on is the one behind the JSON and its line break. */
  lemma FirstCloseAfter(m: string, lo: nat, hi: nat, json: string, close: string)
    requires lo + 2 <= hi && hi + |close| <= |m|
    requires m[lo] == '\n' && m[lo + 1..hi - 1] == json && m[hi - 1] == '\n' && m[hi..hi + |close|] == close
    requires |close| > 0 && '\n' !in close && !Contains(json, close)
    ensures FindFrom(m, close, lo) == Some(hi)
  {
    forall p | lo <= p < hi ensures !OccursAt(m, close, p) {
      NoCloseInside(m, lo, hi, json, close, p);
    }
    FindFromIs(m, close, lo, hi);
  }

  /** The slice from one line break to the next. */
  lemma BetweenBreaks(m: string, lo: nat, hi: nat, json: string)
    requires lo + 2 <= hi <= |m| && m[lo] == '\n' && m[lo + 1..hi - 1] == json && m[hi - 1] == '\n'
    ensures m[lo..hi] == "\n" + json + "\n"
  {
    assert m[lo..hi] == [m[lo]] + m[lo + 1..hi - 1] + [m[hi - 1]];
  }

  /** The lazy span is given by the first `open` and the first `close` behind it. */
  lemma LazySpanIs(t: string, open: string, close: string, i: nat, j: nat)
    requires FindFrom(t, open, 0) == Some(i) && FindFrom(t, close, i + |open|) == Some(j)
    ensures LazySpan(t, open, close) == Some((i + |open|, j))
  {
  }

  /** The capture of a framed text is the JSON between its two line breaks. */
  lemma FramedSpan(m: string, c: string, open: string, json: string, close: string)
    requires Framed(m, c, open, json, close)
    requires |open| > 0 && '\n' !in open && !Contains(c, open)
    requires |close| > 0 && '\n' !in close && !Contains(json, close)
    ensures var lo := |c| + 2 + |open|; var hi := lo + |json| + 2;
      LazySpan(m, open, close) == Some((lo, hi)) && m[lo..hi] == "\n" + json + "\n"
  {
    var lo := |c| + 2 + |open|;
    var hi := lo + |json| + 2;
    FirstOpenAfter(m, c, open);
    assert m[hi..hi + |close|] == m[hi..];
    FirstCloseAfter(m, lo, hi, json, close);
    LazySpanIs(m, open, close, |c| + 2, hi);
    BetweenBreaks(m, lo, hi, json);
  }

  /** The capture of narrative `c` followed by a block is non-empty and trims to
      the block's JSON. */
  lemma CaptureOfLayout(c: string, open: string, json: string, close: string) returns (lo: nat, hi: nat)
    requires |open| > 0 && '\n' !in open && !Contains(c, open)
    requires |close| > 0 && '\n' !in close && !Contains(json, close) && IsTrimmed(json)
    ensures var m := c + "\n\n" + Block(open, json, close);
      && LazySpan(m, open, close) == Some((lo, hi)) && lo < hi <= |m| && Trim(m[lo..hi]) == json
    ensures var m := c + "\n\n" + Block(open, json, close); lo < hi <= |m| && m[lo..hi] == "\n" + json + "\n"
  {
    var m := c + "\n\n" + Block(open, json, close);
    RewriteFramed(c, open, json, close);
    FramedSpan(m, c, open, json, close);
    lo, hi := |c| + 2 + |open|, |c| + 2 + |open| + |json| + 2;
    assert LazySpan(m, open, close) == Some((lo, hi));
    assert m[lo..hi] == "\n" + json + "\n";
    TrimSurrounded("\n", json, "\n");
  }

  /** Parsing a rewritten message gives back what the rendered JSON decodes to, as
      long as the narrative left in front holds no stray start marker and the JSON
      holds no end marker. */
  lemma ParseRewritten(t: string, json: string, decode: string -> Option<StateValue>)
    requires !Contains(CleanNarrative(t), StartMarker)
    requires IsTrimmed(json) && !Contains(json, EndMarker)
    ensures ParseState(RewriteMessage(t, json), decode) == decode(json)
  {
    ParseLayout(CleanNarrative(t), json, decode);
  }

  /** Parsing narrative `c` followed by a rendered block. */
  lemma ParseLayout(c: string, json: string, decode: string -> Option<StateValue>)
    requires !Contains(c, StartMarker)
    requires IsTrimmed(json) && !Contains(json, EndMarker)
    ensures ParseState(c + "\n\n" + RenderBlock(json), decode) == decode(json)
  {
    MarkersShape();
    var lo, hi := CaptureOfLayout(c, StartMarker, json, EndMarker);
  }

  /** An occurrence at the very end is the last one. */
  lemma LastAtEnd(m: string, pat: string)
    requires |pat| <= |m| && OccursAt(m, pat, |m| - |pat|)
    ensures FindLast(m, pat) == Some(|m| - |pat|)
  {
  }

  /** The greedy removal cuts a rewritten message back to its narrative and the two
      line breaks: from the first `open`, which follows them, through the last
      `close`, which ends the message. */
  lemma GreedyCutLayout(c: string, open: string, json: string, close: string)
    requires |open| > 0 && '\n' !in open && !Contains(c, open)
    ensures GreedyCut(c + "\n\n" + Block(open, json, close), open, close) == c + "\n\n"
  {
    var m := c + "\n\n" + Block(open, json, close);
    RewriteFramed(c, open, json, close);
    FirstOpenAfter(m, c, open);
    var hi := |c| + 2 + |open| + |json| + 2;
    assert m[hi..] == close;
    LastAtEnd(m, close);
    assert m[..|c| + 2] == c + "\n\n" by {
      assert m[..|c| + 2] == m[0..|c|] + [m[|c|], m[|c| + 1]];
    }
    assert m[hi + |close|..] == [];
  }

  /** Rewriting a message keeps its narrative: stripping the rewritten message gives
      what stripping the original gave, whatever the new state is. */
  lemma RewriteKeepsNarrative(t: string, json: string)
    requires !Contains(CleanNarrative(t), StartMarker)
    ensures CleanNarrative(RewriteMessage(t, json)) == CleanNarrative(t)
  {
    var c := CleanNarrative(t);
    MarkersShape();
    GreedyCutLayout(c, StartMarker, json, EndMarker);
    assert AllSpace("\n\n") by {
      assert IsSpace("\n\n"[0]) && IsSpace("\n\n"[1]);
    }
    TrimDropsTrailing(c, "\n\n");
  }

  /** When narrative `c` holds `open` at `i`, the greedy removal cuts from there
      through the block's `close` at the very end, so only `c[..i]` is left. */
  lemma GreedyCutStrayOpen(c: string, open: string, json: string, close: string, i: nat)
    requires FindFrom(c, open, 0) == Some(i)
    ensures GreedyCut(c + "\n\n" + Block(open, json, close), open, close) == c[..i]
  {
    var rest := "\n\n" + Block(open, json, close);
    assert c + "\n\n" + Block(open, json, close) == c + rest;
    CloseEndsBlock(c, open, json, close);
    CutFromStray(c, rest, open, close, i);
  }

  /** With the first `open` inside `c` and the last `close` ending the text, the
      greedy removal keeps just the part of `c` before that `open`. */
  lemma CutFromStray(c: string, rest: string, open: string, close: string, i: nat)
    requires FindFrom(c, open, 0) == Some(i)
    requires FindLast(c + rest, close) == Some(|c + rest| - |close|) && |c| < |c + rest| - |close|
    ensures GreedyCut(c + rest, open, close) == c[..i]
  {
    FirstStaysFirst(c, rest, open, i);
    var m := c + rest;
    assert GreedyCut(m, open, close) == m[..i] + m[|m|..];
    assert m[..i] == c[..i];
  }

  /** The first occurrence in `c` stays the first one whatever follows `c`. */
  lemma FirstStaysFirst(c: string, rest: string, pat: string, i: nat)
    requires FindFrom(c, pat, 0) == Some(i)
    ensures FindFrom(c + rest, pat, 0) == Some(i)
  {
    OccursLeft(c, rest, pat, i);
    forall j | 0 <= j < i ensures !OccursAt(c + rest, pat, j) {
      if OccursAt(c + rest, pat, j) {
        OccursSplit(c, rest, pat, j);
      }
    }
    FindFromIs(c + rest, pat, 0, i);
  }

  /** The last `close` of a text that ends with a block is the block's own. */
  lemma CloseEndsBlock(c: string, open: string, json: string, close: string)
    ensures var m := c + "\n\n" + Block(open, json, close);
      FindLast(m, close) == Some(|m| - |close|) && |c| < |m| - |close|
  {
    var m := c + "\n\n" + Block(open, json, close);
    var front := c + "\n\n" + open + "\n" + json + "\n";
    assert m == front + close;
    assert OccursAt(close, close, 0) by { assert close[0..|close|] == close; }
    OccursRight(front, close, close, 0);
    LastAtEnd(m, close);
  }

  /** A start marker left in the narrative (one without an end marker behind it
      survives the removal) makes the rewrite lose the narrative from that marker
      on: what is read back is the trimmed part before it, strictly shorter. */
  lemma RewriteTruncates(t: string, json: string, i: nat)
    requires FindFrom(CleanNarrative(t), StartMarker, 0) == Some(i)
    ensures CleanNarrative(RewriteMessage(t, json)) == Trim(CleanNarrative(t)[..i])
    ensures |CleanNarrative(RewriteMessage(t, json))| < |CleanNarrative(t)|
  {
    GreedyCutStrayOpen(CleanNarrative(t), StartMarker, json, EndMarker, i);
  }

  /** The message `a <!--<|state|> b`, whose start marker has no end marker, keeps
      only `a` as its narrative once rewritten. */
  lemma RewriteTruncatesExample(json: string)
    ensures CleanNarrative(RewriteMessage("a <!--<|state|> b", json)) == "a"
  {
    var t := "a <!--<|state|> b";
    ExampleIsNarrative(t);
    ExampleStartAt(t);
    RewriteTruncates(t, json, 2);
    ExampleFront(t);
  }

  /** No end marker: the removal leaves the message whole, and it is trimmed. */
  lemma ExampleIsNarrative(t: string)
    requires t == "a <!--<|state|> b"
    ensures CleanNarrative(t) == t
  {
    AbsentCharNotContained(t, EndMarker, '/');
    assert RemoveBlocks(t) == t;
    assert IsTrimmed(t);
    TrimmedFixpoint(t);
  }

  /** The start marker begins after `a` and a space. */
  lemma ExampleStartAt(t: string)
    requires t == "a <!--<|state|> b"
    ensures FindFrom(t, StartMarker, 0) == Some(2)
  {
    assert OccursAt(t, StartMarker, 2);
    assert !OccursAt(t, StartMarker, 0) by { assert t[0..13][0] == 'a'; }
    assert !OccursAt(t, StartMarker, 1) by { assert t[1..14][0] == ' '; }
    FindFromIs(t, StartMarker, 0, 2);
  }

  /** What precedes the marker trims to `a`. */
  lemma ExampleFront(t: string)
    requires t == "a <!--<|state|> b"
    ensures Trim(t[..2]) == "a"
  {
    assert t[..2] == "a" + " ";
    assert AllSpace(" ") by { assert IsSpace(" "[0]); }
    TrimDropsTrailing("a", " ");
  }
}
