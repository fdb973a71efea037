/** Command extraction: the global regular expression
    `<(SET|ADD|TIMED_SET|RESPONSE_SUMMARY|CANCEL_SET)\s*::\s*([\s\S]*?)>` and the
    `exec` loop that collects its matches, left to right and without overlap. */
module CommandScanner {
  import opened Wrappers
  import opened Text
  import opened WorldState

  /** One match of the command expression: its keyword, where the match starts,
      where its `::` is, where the `params` group starts, and where the match ends
      (just after the `>`). */
  datatype Token = Token(kind: Kind, start: nat, colon: nat, paramsStart: nat, end: nat)

  /** The `params` group of a match. */
  function Params(t: string, tok: Token): string
    requires tok.paramsStart < tok.end <= |t|
  {
    t[tok.paramsStart..tok.end - 1]
  }

  // ---------------------------------------------------------------------------
  // What a match is
  // ---------------------------------------------------------------------------

  /** Every character of `t[lo..hi]` is white space. */
  predicate SpacesBetween(t: string, lo: int, hi: int)
    decreases hi - lo
  {
    0 <= lo <= hi <= |t| && (lo == hi || (SpacesBetween(t, lo, hi - 1) && IsSpace(t[hi - 1])))
  }

  lemma {:induction false} SpaceAt(t: string, lo: int, hi: int, k: int)
    requires SpacesBetween(t, lo, hi) && lo <= k < hi
    ensures IsSpace(t[k])
    decreases hi - lo
  {
    if k < hi - 1 {
      SpaceAt(t, lo, hi - 1, k);
    }
  }

  /** No character of `t[lo..hi]` is `c`. */
  predicate CharAbsent(t: string, c: char, lo: int, hi: int)
    decreases hi - lo
  {
    0 <= lo <= hi <= |t| && (lo == hi || (CharAbsent(t, c, lo, hi - 1) && t[hi - 1] != c))
  }

  lemma {:induction false} CharAbsentAt(t: string, c: char, lo: int, hi: int, k: int)
    requires CharAbsent(t, c, lo, hi) && lo <= k < hi
    ensures t[k] != c
    decreases hi - lo
  {
    if k < hi - 1 {
      CharAbsentAt(t, c, lo, hi - 1, k);
    }
  }

  /** The word `w` is written in `t` from position `i` on. */
  predicate WordAt(t: string, i: nat, w: string)
    decreases |w|
  {
    i + |w| <= |t| && (w == [] || (t[i] == w[0] && WordAt(t, i + 1, w[1..])))
  }

  /** `tok` is the match the expression finds at `tok.start` in `t`:
      - `<` and the keyword;
      - `\s*::\s*`, where the second `\s*` takes all the white space there is, so
        the text after it is not white space (it is the first parameter character
        or the closing `>`);
      - the shortest text up to a `>`, so the parameters hold no `>`, and the `>`. */
  ghost predicate IsCommandMatch(t: string, tok: Token) {
    var keywordEnd := tok.start + 1 + |KindName(tok.kind)|;
    && keywordEnd <= tok.colon
    && tok.colon + 2 <= tok.paramsStart < tok.end <= |t|
    && t[tok.start] == '<'
    && WordAt(t, tok.start + 1, KindName(tok.kind))
    && SpacesBetween(t, keywordEnd, tok.colon)
    && t[tok.colon] == ':' && t[tok.colon + 1] == ':'
    && SpacesBetween(t, tok.colon + 2, tok.paramsStart)
    && !IsSpace(t[tok.paramsStart])
    && t[tok.end - 1] == '>'
    && CharAbsent(t, '>', tok.paramsStart, tok.end - 1)
  }

  // ---------------------------------------------------------------------------
  // Matching at one position
  // ---------------------------------------------------------------------------

  /** The keyword that begins with `c`, if any: the five keywords begin with five
      different letters. */
  function KeywordStarting(c: char): (r: Option<Kind>)
    ensures r.Some? ==> KindName(r.value)[0] == c
  {
    match c
    case 'S' => Some(Set)
    case 'A' => Some(Add)
    case 'T' => Some(TimedSet)
    case 'R' => Some(ResponseSummary)
    case 'C' => Some(CancelSet)
    case _ => None
  }

  /** A keyword's first letter leads back to it. */
  lemma KeywordStartingName(k: Kind)
    ensures KeywordStarting(KindName(k)[0]) == Some(k)
  {
  }

  /** The keyword alternative that matches at `i`. At most one can (see
      `KeywordAtUnique`), so trying them in the expression's order or by first
      letter finds the same one. */
  function KeywordAt(t: string, i: nat): (r: Option<Kind>)
    ensures r.Some? ==> WordAt(t, i, KindName(r.value))
  {
    if i >= |t| then None
    else match KeywordStarting(t[i])
      case None => None
      case Some(k) => if WordAt(t, i, KindName(k)) then Some(k) else None
  }

  /** Whichever keyword occurs at `i` is the one `KeywordAt` finds. */
  lemma KeywordAtUnique(t: string, i: nat, k: Kind)
    requires WordAt(t, i, KindName(k))
    ensures KeywordAt(t, i) == Some(k)
  {
    KeywordStartingName(k);
  }

  /** The first character that is not white space, looking from `i`, is at `c`. */
  ghost predicate FirstNonSpace(t: string, i: int, c: int) {
    SpacesBetween(t, i, c) && c < |t| && !IsSpace(t[c])
  }

  /** There is only one first non-space character. */
  lemma FirstNonSpaceUnique(t: string, i: int, c1: int, c2: int)
    ensures FirstNonSpace(t, i, c1) && FirstNonSpace(t, i, c2) ==> c1 == c2
  {
    if FirstNonSpace(t, i, c1) && FirstNonSpace(t, i, c2) {
      if c1 < c2 {
        SpaceAt(t, i, c2, c1);
      } else if c2 < c1 {
        SpaceAt(t, i, c1, c2);
      }
    }
  }

  /** Where the keyword of a match ends. */
  function KeywordEnd(tok: Token): nat {
    tok.start + 1 + |KindName(tok.kind)|
  }

  /** What fixes a match once its start is known: its keyword is the one
      `KeywordAt` finds, and its `::` and its parameters each begin at the first
      character that is not white space. */
  lemma MatchFacts(t: string, tok: Token)
    ensures IsCommandMatch(t, tok) ==>
      && KeywordAt(t, tok.start + 1) == Some(tok.kind)
      && FirstNonSpace(t, KeywordEnd(tok), tok.colon)
      && FirstNonSpace(t, tok.colon + 2, tok.paramsStart)
  {
    if IsCommandMatch(t, tok) {
      KeywordAtUnique(t, tok.start + 1, tok.kind);
    }
  }

  /** Two matches that start at the same position are the same match: the keyword,
      the colons, the start of the parameters and the closing `>` are each the first
      of their kind. */
  lemma MatchUnique(t: string, a: Token, b: Token)
    ensures IsCommandMatch(t, a) && IsCommandMatch(t, b) && a.start == b.start ==> a == b
  {
    MatchFacts(t, a);
    MatchFacts(t, b);
    if IsCommandMatch(t, a) && IsCommandMatch(t, b) && a.start == b.start {
      FirstNonSpaceUnique(t, KeywordEnd(a), a.colon, b.colon);
      FirstNonSpaceUnique(t, a.colon + 2, a.paramsStart, b.paramsStart);
      if a.end < b.end {
        CharAbsentAt(t, '>', a.paramsStart, b.end - 1, a.end - 1);
      } else if b.end < a.end {
        CharAbsentAt(t, '>', a.paramsStart, a.end - 1, b.end - 1);
      }
    }
  }

  /** The match of the command expression that starts exactly at `p`, if any. */
  ghost function MatchAt(t: string, p: nat): (r: Option<Token>)
    ensures r.Some? ==> r.value.start == p && IsCommandMatch(t, r.value)
    ensures r.None? <==> NoMatchAt(t, p)
  {
    if exists tok: Token :: tok.start == p && IsCommandMatch(t, tok)
    then Some(var tok: Token :| tok.start == p && IsCommandMatch(t, tok); tok)
    else None
  }

  /** No match of the expression starts at `p`. */
  ghost predicate NoMatchAt(t: string, p: int) {
    forall tok: Token :: tok.start == p ==> !IsCommandMatch(t, tok)
  }

  /** Any match at `p` is the one `MatchAt` names. */
  lemma MatchAtIs(t: string, tok: Token)
    ensures IsCommandMatch(t, tok) ==> MatchAt(t, tok.start) == Some(tok)
  {
    if IsCommandMatch(t, tok) {
      MatchUnique(t, MatchAt(t, tok.start).value, tok);
    }
  }

  /** With the keyword `kind` after the `<` at `p`, the first character that is not
      white space is at `c` and begins `::`, the white space after them ends at `j`,
      and the first `>` from there is at `q`. */
  ghost predicate MatchFound(t: string, p: nat, kind: Kind, c: nat, j: nat, q: nat) {
    && p < |t| && t[p] == '<'
    && KeywordAt(t, p + 1) == Some(kind)
    && FirstNonSpace(t, p + 1 + |KindName(kind)|, c)
    && c + 1 < |t| && t[c] == ':' && t[c + 1] == ':'
    && FirstNonSpace(t, c + 2, j)
    && j <= q < |t| && CharAbsent(t, '>', j, q) && t[q] == '>'
  }

  /** The positions `MatchHere` finds make a match. */
  lemma FoundIsMatch(t: string, p: nat, kind: Kind, c: nat, j: nat, q: nat)
    requires MatchFound(t, p, kind, c, j, q)
    ensures MatchAt(t, p) == Some(Token(kind, p, c, j, q + 1))
  {
    var tok := Token(kind, p, c, j, q + 1);
    assert IsCommandMatch(t, tok);
    MatchAtIs(t, tok);
  }

  /** The regular-expression engine tried at one position: a `<`, the keyword, a
      greedy `\s*`, the colons, a greedy `\s*`, then the lazy group up to the first
      `>`. */
  method MatchHere(t: string, p: nat) returns (r: Option<Token>)
    ensures r == MatchAt(t, p)
  {
    if p >= |t| || t[p] != '<' {
      return None;
    }
    var k := KeywordAt(t, p + 1);
    if k.None? {
      NoMatchWithoutKeyword(t, p);
      return None;
    }
    var kind := k.value;
    var i := p + 1 + |KindName(kind)|;
    var c := i;
    while c < |t| && IsSpace(t[c])
      invariant i <= c <= |t| && SpacesBetween(t, i, c)
      decreases |t| - c
    {
      c := c + 1;
    }
    if c + 2 > |t| || t[c] != ':' || t[c + 1] != ':' {
      NoMatchWithoutColons(t, p, kind, c);
      return None;
    }
    var j := c + 2;
    while j < |t| && IsSpace(t[j])
      invariant c + 2 <= j <= |t| && SpacesBetween(t, c + 2, j)
      decreases |t| - j
    {
      j := j + 1;
    }
    var q := j;
    while q < |t| && t[q] != '>'
      invariant j <= q <= |t| && CharAbsent(t, '>', j, q)
      decreases |t| - q
    {
      q := q + 1;
    }
    if q == |t| {
      NoMatchWithoutGt(t, p, kind, c, j);
      return None;
    }
    FoundIsMatch(t, p, kind, c, j, q);
    r := Some(Token(kind, p, c, j, q + 1));
  }

  /** No match at `p` when no keyword follows the `<`. */
  lemma NoMatchWithoutKeyword(t: string, p: nat)
    requires KeywordAt(t, p + 1).None?
    ensures NoMatchAt(t, p)
  {
    forall tok: Token | tok.start == p ensures !IsCommandMatch(t, tok) {
      MatchFacts(t, tok);
    }
  }

  /** After the keyword `kind` at `start + 1`, the first character that is not white
      space is at `c` (or there is none), and no `::` begins there. */
  ghost predicate ColonsMissing(t: string, start: nat, kind: Kind, c: nat) {
    var i := start + 1 + |KindName(kind)|;
    && KeywordAt(t, start + 1) == Some(kind)
    && i <= c <= |t| && SpacesBetween(t, i, c) && (c == |t| || !IsSpace(t[c]))
    && (c + 2 > |t| || t[c] != ':' || t[c + 1] != ':')
  }

  /** No match at `p` when the first character after the keyword that is not white
      space does not begin `::`. */
  lemma NoMatchWithoutColons(t: string, p: nat, kind: Kind, c: nat)
    requires ColonsMissing(t, p, kind, c)
    ensures NoMatchAt(t, p)
  {
    forall tok: Token | tok.start == p ensures !IsCommandMatch(t, tok) {
      ColonsNotAt(t, kind, c, tok);
    }
  }

  lemma ColonsNotAt(t: string, kind: Kind, c: nat, tok: Token)
    requires ColonsMissing(t, tok.start, kind, c)
    ensures !IsCommandMatch(t, tok)
  {
    MatchFacts(t, tok);
    if IsCommandMatch(t, tok) {
      if c < |t| {
        FirstNonSpaceUnique(t, KeywordEnd(tok), c, tok.colon);
      } else {
        SpaceAt(t, KeywordEnd(tok), c, tok.colon);
      }
    }
  }

  /** After the keyword `kind` at `start + 1` and the `::` at `c`, white space runs
      up to `j` and no `>` follows. */
  ghost predicate GtMissing(t: string, start: nat, kind: Kind, c: nat, j: nat) {
    && KeywordAt(t, start + 1) == Some(kind)
    && FirstNonSpace(t, start + 1 + |KindName(kind)|, c)
    && c + 2 <= j <= |t| && SpacesBetween(t, c + 2, j)
    && CharAbsent(t, '>', j, |t|)
  }

  /** No match at `p` when no `>` follows the parameters' start. */
  lemma NoMatchWithoutGt(t: string, p: nat, kind: Kind, c: nat, j: nat)
    requires GtMissing(t, p, kind, c, j)
    ensures NoMatchAt(t, p)
  {
    forall tok: Token | tok.start == p ensures !IsCommandMatch(t, tok) {
      GtNotAfter(t, kind, c, j, tok);
    }
  }

  lemma GtNotAfter(t: string, kind: Kind, c: nat, j: nat, tok: Token)
    requires GtMissing(t, tok.start, kind, c, j)
    ensures !IsCommandMatch(t, tok)
  {
    MatchFacts(t, tok);
    FirstNonSpaceUnique(t, KeywordEnd(tok), c, tok.colon);
    if IsCommandMatch(t, tok) {
      if tok.paramsStart < j {
        SpaceAt(t, c + 2, j, tok.paramsStart);
      } else {
        CharAbsentAt(t, '>', j, |t|, tok.end - 1);
      }
    }
  }

  // ---------------------------------------------------------------------------
  // The global scan, over the outcome at every position
  // ---------------------------------------------------------------------------

  /** The outcome of trying the expression at each position: a match found at `p`
      starts at `p`, and its parameters and its end lie inside the text. */
  predicate IsMatchTable(ms: seq<Option<Token>>) {
    forall p :: 0 <= p < |ms| && ms[p].Some? ==>
      ms[p].value.start == p < ms[p].value.paramsStart < ms[p].value.end <= |ms|
  }

  /** `exec` from `from`: the first match at or after `from`. */
  function NextIn(ms: seq<Option<Token>>, from: nat): (r: Option<Token>)
    requires IsMatchTable(ms)
    ensures r.Some? ==> from <= r.value.start < |ms| && ms[r.value.start] == r
    decreases |ms| - from
  {
    if from >= |ms| then None
    else if ms[from].Some? then ms[from]
    else NextIn(ms, from + 1)
  }

  /** `NextIn` skips no match: whenever one starts at `p`, the one found starts no
      later. */
  lemma {:induction false} NextInIsFirst(ms: seq<Option<Token>>, from: nat, p: nat)
    requires IsMatchTable(ms) && from <= p < |ms| && ms[p].Some?
    ensures NextIn(ms, from).Some? && NextIn(ms, from).value.start <= p
    decreases p - from
  {
    if from < p && ms[from].None? {
      NextInIsFirst(ms, from + 1, p);
    }
  }

  /** Repeated `exec` calls: each search resumes where the previous match ended. */
  function ScanIn(ms: seq<Option<Token>>, from: nat): (toks: seq<Token>)
    requires IsMatchTable(ms)
    ensures forall i :: 0 <= i < |toks| ==> from <= toks[i].start < toks[i].paramsStart < toks[i].end <= |ms|
    decreases |ms| - from
  {
    match NextIn(ms, from)
    case None => []
    case Some(tok) => [tok] + ScanIn(ms, tok.end)
  }

  /** The matches come in order of position and do not overlap. */
  lemma {:induction false} ScanInOrdered(ms: seq<Option<Token>>, from: nat)
    requires IsMatchTable(ms)
    ensures forall i :: 0 <= i < |ScanIn(ms, from)| - 1 ==> ScanIn(ms, from)[i].end <= ScanIn(ms, from)[i + 1].start
    decreases |ms| - from
  {
    match NextIn(ms, from)
    case None =>
    case Some(tok) =>
      ScanInOrdered(ms, tok.end);
      var rest := ScanIn(ms, tok.end);
      var toks := [tok] + rest;
      assert ScanIn(ms, from) == toks;
      forall i | 0 <= i < |toks| - 1 ensures toks[i].end <= toks[i + 1].start {
        assert toks[i + 1] == rest[i];
        assert tok.end <= rest[i].start;
        if i > 0 {
          assert toks[i] == rest[i - 1];
          assert rest[i - 1].end <= rest[i - 1 + 1].start;
        }
      }
  }

  /** The outcome of the expression at every position of `t`. */
  ghost function MatchTable(t: string): (ms: seq<Option<Token>>)
    ensures |ms| == |t| && IsMatchTable(ms)
  {
    seq(|t|, p requires 0 <= p < |t| => MatchAt(t, p))
  }

  /** The matches from `from` onwards. */
  ghost function ScanFrom(t: string, from: nat): seq<Token> {
    ScanIn(MatchTable(t), from)
  }

  /** The `{type, params}` record of each match, in order. */
  function CommandsOf(t: string, toks: seq<Token>): (cs: seq<Command>)
    requires forall i :: 0 <= i < |toks| ==> toks[i].paramsStart < toks[i].end <= |t|
    ensures |cs| == |toks|
  {
    if toks == [] then []
    else [Command(toks[0].kind, Params(t, toks[0]))] + CommandsOf(t, toks[1..])
  }

  /** The `i`-th command records the `i`-th match. */
  lemma {:induction false} CommandsOfAt(t: string, toks: seq<Token>, i: nat)
    requires forall i :: 0 <= i < |toks| ==> toks[i].paramsStart < toks[i].end <= |t|
    requires i < |toks|
    ensures CommandsOf(t, toks)[i] == Command(toks[i].kind, Params(t, toks[i]))
    decreases i
  {
    if i > 0 {
      CommandsOfAt(t, toks[1..], i - 1);
    }
  }

  lemma CommandsOfCons(t: string, tok: Token, rest: seq<Token>)
    requires tok.paramsStart < tok.end <= |t|
    requires forall i :: 0 <= i < |rest| ==> rest[i].paramsStart < rest[i].end <= |t|
    ensures CommandsOf(t, [tok] + rest) == [Command(tok.kind, Params(t, tok))] + CommandsOf(t, rest)
  {
    assert ([tok] + rest)[1..] == rest;
  }

  /** The commands of a message, in order of appearance. */
  ghost function Commands(t: string): seq<Command> {
    CommandsOf(t, ScanFrom(t, 0))
  }

  // ---------------------------------------------------------------------------
  // The scan is the global regular expression
  // ---------------------------------------------------------------------------

  /** No match of the expression starts in `[lo, hi)`. */
  ghost predicate NoMatchIn(t: string, lo: int, hi: int) {
    forall tok: Token :: lo <= tok.start < hi ==> !IsCommandMatch(t, tok)
  }

  /** The matches of a global regular expression from `from` onwards: the first is
      the leftmost match at or after `from`, and the rest are the matches from where
      the first one ends. */
  ghost predicate GlobalMatches(t: string, from: nat, toks: seq<Token>)
    decreases |toks|
  {
    if toks == [] then NoMatchIn(t, from, |t| + 1)
    else
      && from <= toks[0].start
      && IsCommandMatch(t, toks[0])
      && NoMatchIn(t, from, toks[0].start)
      && GlobalMatches(t, toks[0].end, toks[1..])
  }

  /** Nothing matches between `from` and where the search from `from` stops. */
  lemma NoMatchBeforeNext(t: string, from: nat)
    ensures NoMatchIn(t, from, match NextIn(MatchTable(t), from) case None => |t| + 1 case Some(tok) => tok.start)
  {
    var ms := MatchTable(t);
    forall tok: Token | from <= tok.start && IsCommandMatch(t, tok)
      ensures NextIn(ms, from).Some? && NextIn(ms, from).value.start <= tok.start
    {
      MatchAtIs(t, tok);
      assert ms[tok.start] == MatchAt(t, tok.start);
      NextInIsFirst(ms, from, tok.start);
    }
  }

  /** The scan finds exactly the matches of the global expression. */
  lemma {:induction false} ScanIsGlobal(t: string, from: nat)
    ensures GlobalMatches(t, from, ScanFrom(t, from))
    decreases |t| - from
  {
    var ms := MatchTable(t);
    NoMatchBeforeNext(t, from);
    match NextIn(ms, from)
    case None =>
    case Some(tok) =>
      assert ms[tok.start] == MatchAt(t, tok.start);
      ScanIsGlobal(t, tok.end);
      assert ([tok] + ScanFrom(t, tok.end))[1..] == ScanFrom(t, tok.end);
  }

  /** The matches of the global expression are unique: they are what the scan finds. */
  lemma {:induction false} GlobalIsScan(t: string, from: nat, toks: seq<Token>)
    requires GlobalMatches(t, from, toks)
    ensures toks == ScanFrom(t, from)
    decreases |toks|
  {
    var ms := MatchTable(t);
    NoMatchBeforeNext(t, from);
    match NextIn(ms, from)
    case None =>
      if toks != [] {
        assert false;
      }
    case Some(tok) =>
      assert ms[tok.start] == MatchAt(t, tok.start);
      assert toks != [] by {
        if toks == [] { assert false; }
      }
      MatchAtIs(t, toks[0]);
      assert tok.start == toks[0].start by {
        if tok.start < toks[0].start { assert false; }
      }
      GlobalIsScan(t, tok.end, toks[1..]);
  }

  lemma {:induction false} GlobalMatchesAt(t: string, from: nat, toks: seq<Token>, i: nat)
    requires GlobalMatches(t, from, toks) && i < |toks|
    ensures IsCommandMatch(t, toks[i])
    decreases i
  {
    if i > 0 {
      GlobalMatchesAt(t, toks[0].end, toks[1..], i - 1);
    }
  }

  /** No command's `params` contains `>`: the lazy group stops at the first one. */
  lemma CommandsHaveNoGt(t: string)
    ensures forall i :: 0 <= i < |Commands(t)| ==> '>' !in Commands(t)[i].params
  {
    ScanIsGlobal(t, 0);
    var toks := ScanFrom(t, 0);
    forall i | 0 <= i < |toks| ensures '>' !in Commands(t)[i].params {
      GlobalMatchesAt(t, 0, toks, i);
      ParamsHaveNoGt(t, toks[i]);
      CommandsOfAt(t, toks, i);
    }
  }

  lemma ParamsHaveNoGt(t: string, tok: Token)
    requires IsCommandMatch(t, tok)
    ensures '>' !in Params(t, tok)
  {
    var ps := Params(t, tok);
    forall m | 0 <= m < |ps| ensures ps[m] != '>' {
      assert ps[m] == t[tok.paramsStart + m];
      CharAbsentAt(t, '>', tok.paramsStart, tok.end - 1, tok.paramsStart + m);
    }
  }

  /** A message with no `<` holds no commands: nothing else can start a match. */
  lemma NoAngleNoCommands(t: string)
    requires '<' !in t
    ensures Commands(t) == []
  {
    var toks := ScanFrom(t, 0);
    if toks != [] {
      ScanIsGlobal(t, 0);
      assert false;
    }
  }

  // ---------------------------------------------------------------------------
  // The exec loop
  // ---------------------------------------------------------------------------

  /** One step of the search: the first match from `p` is the one at `p`, if there
      is one, and otherwise the first match from `p + 1`. */
  lemma NextStep(t: string, p: nat)
    requires p < |t|
    ensures NextIn(MatchTable(t), p) == if MatchAt(t, p).Some? then MatchAt(t, p) else NextIn(MatchTable(t), p + 1)
  {
    assert MatchTable(t)[p] == MatchAt(t, p);
  }

  /** `COMMAND_REGEX.exec(content)` with the expression's `lastIndex`. */
  method Exec(content: string, lastIndex: nat) returns (m: Option<Token>)
    ensures m == NextIn(MatchTable(content), lastIndex)
  {
    var p := lastIndex;
    while p < |content|
      invariant lastIndex <= p
      invariant NextIn(MatchTable(content), p) == NextIn(MatchTable(content), lastIndex)
      decreases |content| - p
    {
      var r := MatchHere(content, p);
      NextStep(content, p);
      if r.Some? {
        return r;
      }
      p := p + 1;
    }
    return None;
  }

  /** One turn of the loop: the commands from `from` are the one the next match
      records, then the commands from where that match ends. */
  lemma CommandsStep(t: string, from: nat)
    ensures match NextIn(MatchTable(t), from)
      case None => CommandsOf(t, ScanFrom(t, from)) == []
      case Some(tok) =>
        CommandsOf(t, ScanFrom(t, from)) == [Command(tok.kind, Params(t, tok))] + CommandsOf(t, ScanFrom(t, tok.end))
  {
    var ms := MatchTable(t);
    match NextIn(ms, from)
    case None =>
    case Some(tok) =>
      var rest := ScanFrom(t, tok.end);
      assert ScanFrom(t, from) == [tok] + rest;
      CommandsOfCons(t, tok, rest);
  }

  /** The `while ((match = COMMAND_REGEX.exec(messageContent)) !== null)` loop that
      pushes `{type, params}` for every match. */
  method ExtractCommands(content: string) returns (results: seq<Command>)
    ensures results == Commands(content)
  {
    var lastIndex := 0;
    results := [];
    while true
      invariant lastIndex <= |content|
      invariant results + CommandsOf(content, ScanFrom(content, lastIndex)) == Commands(content)
      decreases |content| - lastIndex
    {
      var m := Exec(content, lastIndex);
      CommandsStep(content, lastIndex);
      if m.None? {
        break;
      }
      var tok := m.value;
      var command := Command(tok.kind, Params(content, tok));
      ghost var later := CommandsOf(content, ScanFrom(content, tok.end));
      assert CommandsOf(content, ScanFrom(content, lastIndex)) == [command] + later;
      assert (results + [command]) + later == results + ([command] + later);
      results := results + [command];
      lastIndex := tok.end;
    }
  }
}
