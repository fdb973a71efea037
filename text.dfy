/** The string primitives of JavaScript that the state manager leans on:
    white space and `trim`, substring search, `split`, and the integer part of
    `Number`, `parseInt`, `String` and `toLowerCase`. */
module Text {
  import opened Wrappers

  // ---------------------------------------------------------------------------
  // White space
  // ---------------------------------------------------------------------------

  /** JavaScript's WhiteSpace and LineTerminator characters: exactly what the
      regular-expression class `\s` matches and what `String.prototype.trim` removes. */
  predicate IsSpace(c: char) {
    || c == ' ' || c == '\t' || c == '\n' || c == '\r' || c == '\U{000B}' || c == '\U{000C}'
    || c == '\U{00A0}' || c == '\U{1680}' || ('\U{2000}' <= c <= '\U{200A}')
    || c == '\U{2028}' || c == '\U{2029}' || c == '\U{202F}' || c == '\U{205F}'
    || c == '\U{3000}' || c == '\U{FEFF}'
  }

  predicate AllSpace(s: string) {
    forall i {:trigger IsSpace(s[i])} :: 0 <= i < |s| ==> IsSpace(s[i])
  }

  /** Neither end of `s` is white space: what `trim` leaves behind. */
  predicate IsTrimmed(s: string) {
    s == [] || (!IsSpace(s[0]) && !IsSpace(s[|s| - 1]))
  }

  /** The number of white-space characters at the front of `s`. */
  function LeadingSpaces(s: string): (n: nat)
    ensures n <= |s|
    ensures AllSpace(s[..n])
    ensures n == |s| || !IsSpace(s[n])
  {
    if s != [] && IsSpace(s[0]) then 1 + LeadingSpaces(s[1..]) else 0
  }

  /** The number of white-space characters at the back of `s`. */
  function TrailingSpaces(s: string): (n: nat)
    ensures n <= |s|
    ensures AllSpace(s[|s| - n..])
    ensures n == |s| || !IsSpace(s[|s| - n - 1])
  {
    if s != [] && IsSpace(s[|s| - 1]) then 1 + TrailingSpaces(s[..|s| - 1]) else 0
  }

  /** `String.prototype.trim`: the middle slice of `s` left after cutting off the
      white space at both ends. */
  function Trim(s: string): (r: string)
    ensures IsTrimmed(r)
    ensures |r| <= |s|
  {
    s[LeadingSpaces(s)..TrimEnd(s)]
  }

  /** Where the slice that `Trim` keeps ends. */
  function TrimEnd(s: string): (e: nat)
    ensures LeadingSpaces(s) <= e <= |s|
    ensures e == LeadingSpaces(s) || !IsSpace(s[e - 1])
  {
    var a := LeadingSpaces(s);
    var b := TrailingSpaces(s[a..]);
    assert a < |s| - b ==> s[|s| - b - 1] == s[a..][|s[a..]| - b - 1];
    |s| - b
  }

  /** `trim` leaves a string without white space at its ends unchanged. */
  lemma TrimmedFixpoint(s: string)
    requires IsTrimmed(s)
    ensures Trim(s) == s
  {
    assert LeadingSpaces(s) == 0;
    if s != [] {
      assert TrailingSpaces(s) == 0;
    }
  }

  /** `trim` is idempotent. */
  lemma TrimIdempotent(s: string)
    ensures Trim(Trim(s)) == Trim(s)
  {
    TrimmedFixpoint(Trim(s));
  }

  /** `LeadingSpaces` is determined by where the first non-space character is. */
  lemma {:induction false} LeadingSpacesIs(s: string, n: nat)
    requires n <= |s| && AllSpace(s[..n]) && (n == |s| || !IsSpace(s[n]))
    ensures LeadingSpaces(s) == n
  {
    if n > 0 {
      assert IsSpace(s[0]) by { assert s[..n][0] == s[0]; }
      var tail := s[1..][..n - 1];
      assert AllSpace(tail) by {
        forall i | 0 <= i < |tail| ensures IsSpace(tail[i]) {
          assert tail[i] == s[..n][i + 1];
        }
      }
      LeadingSpacesIs(s[1..], n - 1);
    }
  }

  /** Trailing white space added to a trimmed string is trimmed away again. */
  lemma TrimDropsTrailing(s: string, w: string)
    requires IsTrimmed(s) && AllSpace(w)
    ensures Trim(s + w) == s
  {
    if s == [] {
      assert s + w == w;
      LeadingAllSpace(w);
    } else {
      TrimDropsTrailingNonEmpty(s, w);
    }
  }

  lemma TrimDropsTrailingNonEmpty(s: string, w: string)
    requires s != [] && IsTrimmed(s) && AllSpace(w)
    ensures Trim(s + w) == s
  {
    var t := s + w;
    NoLeadingSpaces(t);
    TrailingOfSpaceSuffix(s, w);
    assert t[0..] == t;
    assert t[0..|t| - |w|] == s;
  }

  lemma NoLeadingSpaces(t: string)
    requires t != [] && !IsSpace(t[0])
    ensures LeadingSpaces(t) == 0
  {
  }

  lemma {:induction false} LeadingAllSpace(w: string)
    requires AllSpace(w)
    ensures LeadingSpaces(w) == |w|
  {
    if w != [] {
      assert AllSpace(w[1..]) by {
        forall i | 0 <= i < |w[1..]| ensures IsSpace(w[1..][i]) { assert w[1..][i] == w[i + 1]; }
      }
      LeadingAllSpace(w[1..]);
    }
  }

  lemma {:induction false} TrailingOfSpaceSuffix(s: string, w: string)
    requires s != [] && !IsSpace(s[|s| - 1]) && AllSpace(w)
    ensures TrailingSpaces(s + w) == |w|
    decreases |w|
  {
    var t := s + w;
    if w == [] {
      assert t == s;
    } else {
      var w' := w[..|w| - 1];
      assert t[..|t| - 1] == s + w';
      assert IsSpace(t[|t| - 1]) by { assert t[|t| - 1] == w[|w| - 1]; }
      assert AllSpace(w') by {
        forall i | 0 <= i < |w'| ensures IsSpace(w'[i]) { assert w'[i] == w[i]; }
      }
      TrailingOfSpaceSuffix(s, w');
    }
  }

  /** Leading white space added to a trimmed string is trimmed away again. */
  lemma TrimDropsLeading(w: string, s: string)
    requires IsTrimmed(s) && AllSpace(w)
    ensures Trim(w + s) == s
  {
    TrimSurrounded(w, s, []);
    assert w + s + [] == w + s;
  }

  /** White space around a trimmed string is trimmed away. */
  lemma TrimSurrounded(w1: string, s: string, w2: string)
    requires AllSpace(w1) && IsTrimmed(s) && AllSpace(w2)
    ensures Trim(w1 + s + w2) == s
  {
    var t := w1 + s + w2;
    if s == [] {
      assert t == w1 + w2;
      assert AllSpace(t) by {
        forall i | 0 <= i < |t| ensures IsSpace(t[i]) {
          if i < |w1| { assert t[i] == w1[i]; } else { assert t[i] == w2[i - |w1|]; }
        }
      }
      LeadingAllSpace(t);
    } else {
      assert t == w1 + (s + w2);
      LeadingOfSpacePrefix(w1, s + w2);
      assert t[|w1|..] == s + w2;
      TrailingOfSpaceSuffix(s, w2);
      assert (s + w2)[..|s|] == s;
    }
  }

  lemma {:induction false} LeadingOfSpacePrefix(w: string, s: string)
    requires AllSpace(w) && (s == [] || !IsSpace(s[0]))
    ensures LeadingSpaces(w + s) == |w|
  {
    var t := w + s;
    if w == [] {
      assert t == s;
    } else {
      assert t[1..] == w[1..] + s;
      assert AllSpace(w[1..]) by {
        forall i | 0 <= i < |w[1..]| ensures IsSpace(w[1..][i]) { assert w[1..][i] == w[i + 1]; }
      }
      LeadingOfSpacePrefix(w[1..], s);
    }
  }

  // ---------------------------------------------------------------------------
  // Substring search
  // ---------------------------------------------------------------------------

  /** `pat` occurs in `t` starting at index `i`. */
  predicate OccursAt(t: string, pat: string, i: int) {
    0 <= i && i + |pat| <= |t| && t[i..i + |pat|] == pat
  }

  /** `pat` occurs somewhere in `t`. */
  predicate Contains(t: string, pat: string) {
    exists i :: 0 <= i <= |t| && OccursAt(t, pat, i)
  }

  /** The first occurrence of `pat` in `t` at or after `from` (`indexOf`). */
  function FindFrom(t: string, pat: string, from: nat): (r: Option<nat>)
    ensures r.Some? ==> from <= r.value && OccursAt(t, pat, r.value)
    ensures r.Some? ==> forall j :: from <= j < r.value ==> !OccursAt(t, pat, j)
    ensures r.None? ==> forall j :: from <= j ==> !OccursAt(t, pat, j)
    decreases |t| - from
  {
    if from + |pat| > |t| then None
    else if t[from..from + |pat|] == pat then Some(from)
    else FindFrom(t, pat, from + 1)
  }

  /** The last occurrence of `pat` in `t` that starts before `bound`. */
  function FindLastBefore(t: string, pat: string, bound: nat): (r: Option<nat>)
    ensures r.Some? ==> r.value < bound && OccursAt(t, pat, r.value)
    ensures r.Some? ==> forall j :: r.value < j < bound ==> !OccursAt(t, pat, j)
    ensures r.None? ==> forall j :: 0 <= j < bound ==> !OccursAt(t, pat, j)
  {
    if bound == 0 then None
    else if OccursAt(t, pat, bound - 1) then Some(bound - 1)
    else FindLastBefore(t, pat, bound - 1)
  }

  /** The last occurrence of `pat` in `t` (`lastIndexOf`). */
  function FindLast(t: string, pat: string): (r: Option<nat>)
    ensures r.Some? ==> OccursAt(t, pat, r.value)
    ensures r.Some? ==> forall j :: r.value < j ==> !OccursAt(t, pat, j)
    ensures r.None? ==> forall j :: !OccursAt(t, pat, j)
  {
    FindLastBefore(t, pat, |t| + 1)
  }

  /** `FindFrom` is determined by where the first occurrence is. */
  lemma FindFromIs(t: string, pat: string, from: nat, q: nat)
    requires from <= q && OccursAt(t, pat, q)
    requires forall j :: from <= j < q ==> !OccursAt(t, pat, j)
    ensures FindFrom(t, pat, from) == Some(q)
  {
  }

  /** An occurrence in the left operand of a concatenation is one in the whole. */
  lemma OccursLeft(a: string, b: string, pat: string, i: int)
    requires OccursAt(a, pat, i)
    ensures OccursAt(a + b, pat, i)
  {
    assert (a + b)[i..i + |pat|] == a[i..i + |pat|];
  }

  /** An occurrence in the right operand of a concatenation is one in the whole. */
  lemma OccursRight(a: string, b: string, pat: string, i: int)
    requires OccursAt(b, pat, i)
    ensures OccursAt(a + b, pat, |a| + i)
  {
    assert (a + b)[|a| + i..|a| + i + |pat|] == b[i..i + |pat|];
  }

  /** An occurrence in a concatenation lies in the left operand, in the right
      operand, or straddles the seam. */
  lemma OccursSplit(a: string, b: string, pat: string, i: int)
    requires OccursAt(a + b, pat, i)
    ensures || (i + |pat| <= |a| && OccursAt(a, pat, i))
            || (|a| <= i && OccursAt(b, pat, i - |a|))
            || (i < |a| < i + |pat|)
  {
    if i + |pat| <= |a| {
      assert (a + b)[i..i + |pat|] == a[i..i + |pat|];
    } else if |a| <= i {
      assert (a + b)[i..i + |pat|] == b[i - |a|..i - |a| + |pat|];
    }
  }

  /** An occurrence in a slice of `t` is an occurrence in `t`, shifted. */
  lemma OccursInSlice(t: string, lo: nat, hi: nat, pat: string, i: int)
    requires lo <= hi <= |t| && OccursAt(t[lo..hi], pat, i)
    ensures OccursAt(t, pat, lo + i)
  {
    forall k | 0 <= k < |pat| ensures t[lo + i + k] == pat[k] {
      assert t[lo..hi][i..i + |pat|][k] == pat[k];
    }
    assert t[lo + i..lo + i + |pat|] == pat;
  }

  /** Where the slice that `Trim` keeps begins and ends. */
  lemma TrimBounds(s: string)
    ensures Trim(s) == s[LeadingSpaces(s)..TrimEnd(s)]
  {
  }

  /** Trimming cannot create an occurrence. */
  lemma TrimKeepsAbsent(s: string, pat: string)
    requires !Contains(s, pat)
    ensures !Contains(Trim(s), pat)
  {
    var t := Trim(s);
    if Contains(t, pat) {
      var j :| 0 <= j <= |t| && OccursAt(t, pat, j);
      var a := LeadingSpaces(s);
      var b := TrailingSpaces(s[a..]);
      assert t == s[a..|s| - b];
      OccursInSlice(s, a, |s| - b, pat, j);
      assert false;
    }
  }

  /** A pattern that contains the character `c` cannot occur in a string without it. */
  lemma AbsentChar(t: string, pat: string, c: char, i: int)
    requires c in pat && c !in t
    ensures !OccursAt(t, pat, i)
  {
  }

  // ---------------------------------------------------------------------------
  // split and join
  // ---------------------------------------------------------------------------

  /** `String.prototype.split` with a non-empty string separator. */
  function SplitOn(s: string, sep: string): (r: seq<string>)
    requires |sep| > 0
    ensures |r| >= 1
    ensures forall k :: 0 <= k < |r| ==> !Contains(r[k], sep)
    decreases |s|
  {
    match FindFrom(s, sep, 0)
    case None => [s]
    case Some(i) =>
      assert !Contains(s[..i], sep) by {
        forall j | OccursAt(s[..i], sep, j) ensures false {
          OccursInSlice(s, 0, i, sep, j);
        }
      }
      [s[..i]] + SplitOn(s[i + |sep|..], sep)
  }

  /** A split whose first separator comes right after `a`. */
  lemma SplitAtFirst(a: string, sep: string, b: string)
    requires |sep| > 0
    requires forall j :: 0 <= j < |a| ==> !OccursAt(a + sep + b, sep, j)
    ensures SplitOn(a + sep + b, sep) == [a] + SplitOn(b, sep)
  {
    var t := a + sep + b;
    assert t[|a|..|a| + |sep|] == sep;
    FindFromIs(t, sep, 0, |a|);
    assert t[..|a|] == a;
    assert t[|a| + |sep|..] == b;
  }

  /** A string without the separator splits into itself alone. */
  lemma SplitNone(a: string, sep: string)
    requires |sep| > 0 && !Contains(a, sep)
    ensures SplitOn(a, sep) == [a]
  {
    assert FindFrom(a, sep, 0).None?;
  }

  /** `Array.prototype.join` with a separator. */
  function JoinWith(parts: seq<string>, sep: string): string {
    if parts == [] then ""
    else if |parts| == 1 then parts[0]
    else parts[0] + sep + JoinWith(parts[1..], sep)
  }

  /** Joining the pieces of a split with the same separator gives back the input. */
  lemma {:induction false} JoinSplit(s: string, sep: string)
    requires |sep| > 0
    ensures JoinWith(SplitOn(s, sep), sep) == s
    decreases |s|
  {
    var found := FindFrom(s, sep, 0);
    if found.Some? {
      var i := found.value;
      var rest := s[i + |sep|..];
      var tail := SplitOn(rest, sep);
      assert SplitOn(s, sep) == [s[..i]] + tail;
      assert ([s[..i]] + tail)[1..] == tail;
      JoinSplit(rest, sep);
      assert s == s[..i] + sep + rest by {
        assert s[i..i + |sep|] == sep;
      }
    }
  }

  // ---------------------------------------------------------------------------
  // Integers as text
  // ---------------------------------------------------------------------------

  predicate IsDigit(c: char) {
    '0' <= c <= '9'
  }

  predicate AllDigits(s: string) {
    forall i :: 0 <= i < |s| ==> IsDigit(s[i])
  }

  function DigitValue(c: char): nat
    requires IsDigit(c)
  {
    c as int - '0' as int
  }

  function DigitChar(d: nat): (c: char)
    requires d < 10
    ensures IsDigit(c) && DigitValue(c) == d
  {
    ('0' as int + d) as char
  }

  /** The value of a string of decimal digits. */
  function DecimalValue(s: string): nat
    requires AllDigits(s)
  {
    if s == [] then 0 else DecimalValue(s[..|s| - 1]) * 10 + DigitValue(s[|s| - 1])
  }

  /** A decimal numeral without superfluous leading zeros. */
  predicate IsCanonicalNumeral(s: string) {
    |s| > 0 && AllDigits(s) && (s[0] != '0' || |s| == 1)
  }

  /** The decimal numeral of a natural number, as `String(n)` writes it. */
  function NatToString(n: nat): (r: string)
    ensures IsCanonicalNumeral(r)
    ensures DecimalValue(r) == n
  {
    if n < 10 then [DigitChar(n)]
    else
      var r := NatToString(n / 10) + [DigitChar(n % 10)];
      assert r[..|r| - 1] == NatToString(n / 10);
      r
  }

  /** `String(n)` for an integer `n`. */
  function IntToString(n: int): string {
    if n < 0 then "-" + NatToString(-n) else NatToString(n)
  }

  /** `Number(s)` restricted to integers: surrounding white space is ignored, the
      empty (or all-blank) string is 0, an optionally signed run of decimal digits is
      its value, and everything else is `NaN` (`None`). */
  function ToNumber(s: string): Option<int> {
    var t := Trim(s);
    if t == [] then Some(0)
    else if |t| > 1 && (t[0] == '-' || t[0] == '+') && AllDigits(t[1..]) then
      var v: int := DecimalValue(t[1..]);
      Some(if t[0] == '-' then -v else v)
    else if AllDigits(t) then Some(DecimalValue(t))
    else None
  }

  lemma NumeralIsTrimmed(s: string)
    requires |s| > 0 && AllDigits(s[1..]) && !IsSpace(s[0])
    ensures IsTrimmed(s)
  {
    if |s| > 1 {
      assert s[|s| - 1] == s[1..][|s| - 2];
    }
  }

  /** `Number(String(n)) == n`: printing an integer and coercing it back is lossless. */
  lemma ToNumberIntToString(n: int)
    ensures ToNumber(IntToString(n)) == Some(n)
  {
    var s := IntToString(n);
    if n < 0 {
      var d := NatToString(-n);
      assert s[1..] == d;
      NumeralIsTrimmed(s);
    } else {
      assert AllDigits(s[1..]) by {
        forall i | 0 <= i < |s[1..]| ensures IsDigit(s[1..][i]) { assert s[1..][i] == s[i + 1]; }
      }
      NumeralIsTrimmed(s);
    }
    TrimmedFixpoint(s);
  }

  /** `String(n)` has no white space at either end and no colon. */
  lemma IntToStringShape(n: int)
    ensures IsTrimmed(IntToString(n)) && ':' !in IntToString(n)
  {
    var d := NatToString(if n < 0 then -n else n);
    var s := IntToString(n);
    assert IsDigit(d[|d| - 1]);
    assert s[|s| - 1] == d[|d| - 1];
    assert forall i :: 0 <= i < |d| ==> d[i] != ':' by {
      forall i | 0 <= i < |d| ensures d[i] != ':' { assert IsDigit(d[i]); }
    }
    if n < 0 {
      assert s == "-" + d;
    } else {
      assert s == d && IsDigit(s[0]);
    }
  }

  /** A pattern that contains a character absent from `t` does not occur in `t`. */
  lemma AbsentCharNotContained(t: string, pat: string, c: char)
    requires c in pat && c !in t
    ensures !Contains(t, pat)
  {
    if Contains(t, pat) {
      var i :| 0 <= i <= |t| && OccursAt(t, pat, i);
      AbsentChar(t, pat, c, i);
      assert false;
    }
  }

  /** The number of decimal digits at the front of `s`. */
  function LeadingDigits(s: string): (n: nat)
    ensures n <= |s| && AllDigits(s[..n])
    ensures n == |s| || !IsDigit(s[n])
  {
    if s != [] && IsDigit(s[0]) then
      var n := 1 + LeadingDigits(s[1..]);
      assert AllDigits(s[..n]) by {
        forall i | 0 <= i < n ensures IsDigit(s[..n][i]) {
          if i > 0 { assert s[..n][i] == s[1..][..n - 1][i - 1]; }
        }
      }
      n
    else 0
  }

  /** `parseInt(s, 10)`: leading white space is skipped, an optional sign is read,
      then as many decimal digits as follow; without any digit the result is `NaN`. */
  function ParseInt(s: string): Option<int> {
    var t := s[LeadingSpaces(s)..];
    var signed := |t| > 0 && (t[0] == '-' || t[0] == '+');
    var body := if signed then t[1..] else t;
    var n := LeadingDigits(body);
    if n == 0 then None
    else
      var v: int := DecimalValue(body[..n]);
      Some(if signed && t[0] == '-' then -v else v)
  }

  /** `parseInt` reads a numeral and stops at the first character that is not a digit. */
  lemma ParseIntNumeral(k: nat, rest: string)
    requires rest == [] || !IsDigit(rest[0])
    ensures ParseInt(NatToString(k) + rest) == Some(k)
  {
    var d := NatToString(k);
    var s := d + rest;
    assert s[0] == d[0];
    assert LeadingSpaces(s) == 0;
    assert s[0..] == s;
    LeadingDigitsOfNumeral(d, rest);
    assert s[..|d|] == d;
  }

  lemma {:induction false} LeadingDigitsOfNumeral(d: string, rest: string)
    requires AllDigits(d) && (rest == [] || !IsDigit(rest[0]))
    ensures LeadingDigits(d + rest) == |d|
  {
    if d != [] {
      assert (d + rest)[1..] == d[1..] + rest;
      assert AllDigits(d[1..]) by {
        forall i | 0 <= i < |d[1..]| ensures IsDigit(d[1..][i]) { assert d[1..][i] == d[i + 1]; }
      }
      LeadingDigitsOfNumeral(d[1..], rest);
    } else {
      assert d + rest == rest;
    }
  }

  // ---------------------------------------------------------------------------
  // Case
  // ---------------------------------------------------------------------------

  function LowerAscii(c: char): char {
    if 'A' <= c <= 'Z' then (c as int + 32) as char else c
  }

  /** `s.toLowerCase() === 'true'`. Folding only ASCII letters gives the same answer
      as JavaScript's full Unicode lower-casing here: no character other than
      `T`, `R`, `U`, `E` lower-cases to one of `t`, `r`, `u`, `e`. */
  predicate IsTrueWord(s: string) {
    |s| == 4 && LowerAscii(s[0]) == 't' && LowerAscii(s[1]) == 'r'
    && LowerAscii(s[2]) == 'u' && LowerAscii(s[3]) == 'e'
  }
}
