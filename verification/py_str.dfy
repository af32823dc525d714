/**
 The handful of Python `str` operations the bot's parser relies on, with the
 semantics CPython gives them: `startswith`, the `in` operator, `find`,
 `split(sep)`, `split(sep, 1)`, `strip()` and (for ASCII) `lower()`.
 Strings are sequences of Unicode scalar values, as Python 3 `str` is.
 */
module PyStr {

  /** Python's `str.isspace()` on one character: the characters Python treats
      as whitespace (Unicode Zs, plus the bidirectional classes WS, B and S). */
  predicate IsSpace(c: char) {
    || ('\t' <= c <= '\r')
    || ('\U{1C}' <= c <= '\U{1F}')
    || c == ' ' || c == '\U{85}' || c == '\U{A0}' || c == '\U{1680}'
    || ('\U{2000}' <= c <= '\U{200A}')
    || c == '\U{2028}' || c == '\U{2029}' || c == '\U{202F}'
    || c == '\U{205F}' || c == '\U{3000}'
  }

  predicate AllSpace(s: string) {
    forall i :: 0 <= i < |s| ==> IsSpace(s[i])
  }

  /** A string `strip()` leaves alone: empty, or no whitespace at either end. */
  predicate IsStripped(s: string) {
    s == [] || (!IsSpace(s[0]) && !IsSpace(s[|s| - 1]))
  }

  /** `s.lstrip()`: drops the leading whitespace. */
  function LStrip(s: string): (r: string)
    ensures |r| <= |s| && r == s[|s| - |r|..]
    ensures AllSpace(s[..|s| - |r|])
    ensures r == [] || !IsSpace(r[0])
    decreases |s|
  {
    if |s| > 0 && IsSpace(s[0]) then
      var r := LStrip(s[1..]);
      assert s[..|s| - |r|] == [s[0]] + s[1..][..|s| - 1 - |r|];
      r
    else s
  }

  /** `s.rstrip()`: drops the trailing whitespace. */
  function RStrip(s: string): (r: string)
    ensures |r| <= |s| && r == s[..|r|]
    ensures AllSpace(s[|r|..])
    ensures r == [] || !IsSpace(r[|r| - 1])
    decreases |s|
  {
    if |s| > 0 && IsSpace(s[|s| - 1]) then
      var r := RStrip(s[..|s| - 1]);
      assert s[|r|..] == s[..|s| - 1][|r|..] + [s[|s| - 1]];
      r
    else s
  }

  /** `r` is the infix of `s` starting at `i`, and everything around it is
      whitespace. */
  predicate IsPaddingOf(s: string, i: int, r: string) {
    && 0 <= i <= |s| - |r|
    && s[i..i + |r|] == r
    && AllSpace(s[..i])
    && AllSpace(s[i + |r|..])
  }

  /** `s.strip()`: the result is the piece of `s` left after removing
      whitespace from both ends, and it has no whitespace at either end. */
  function Strip(s: string): (r: string)
    ensures IsStripped(r)
    ensures exists i :: IsPaddingOf(s, i, r)
  {
    var l := LStrip(s);
    var r := RStrip(l);
    var i := |s| - |l|;
    assert IsPaddingOf(s, i, r) by {
      assert s[i..i + |r|] == l[..|r|];
      assert s[i + |r|..] == l[|r|..];
    }
    assert r == [] || r[0] == l[0];
    r
  }

  lemma {:induction false} LStripOfSpacePrefix(a: string, t: string)
    requires AllSpace(a)
    requires t == [] || !IsSpace(t[0])
    ensures LStrip(a + t) == t
    decreases |a|
  {
    if |a| > 0 {
      assert (a + t)[1..] == a[1..] + t;
      LStripOfSpacePrefix(a[1..], t);
    } else {
      assert a + t == t;
    }
  }

  lemma {:induction false} RStripOfSpaceSuffix(t: string, b: string)
    requires AllSpace(b)
    requires t == [] || !IsSpace(t[|t| - 1])
    ensures RStrip(t + b) == t
    decreases |b|
  {
    if |b| > 0 {
      assert (t + b)[..|t + b| - 1] == t + b[..|b| - 1];
      RStripOfSpaceSuffix(t, b[..|b| - 1]);
    } else {
      assert t + b == t;
    }
  }

  /** `strip()` undoes any whitespace padding of a stripped string: the
      decomposition its contract describes is unique. */
  lemma {:induction false} StripOfPadded(a: string, t: string, b: string)
    requires AllSpace(a) && AllSpace(b) && IsStripped(t)
    ensures Strip(a + t + b) == t
  {
    if t == [] {
      assert a + t + b == a + b;
      assert AllSpace(a + b);
      LStripOfSpacePrefix(a + b, []);
      assert a + b + [] == a + b;
      assert LStrip(a + b) == [];
      RStripOfSpaceSuffix([], []);
    } else {
      assert a + t + b == a + (t + b);
      LStripOfSpacePrefix(a, t + b);
      RStripOfSpaceSuffix(t, b);
    }
  }

  lemma StripFixpoint(t: string)
    requires IsStripped(t)
    ensures Strip(t) == t
  {
    StripOfPadded([], t, []);
    assert [] + t + [] == t;
  }

  /** `strip()` is idempotent. */
  lemma StripIdempotent(s: string)
    ensures Strip(Strip(s)) == Strip(s)
  {
    StripFixpoint(Strip(s));
  }

  /** `s.startswith(p)`. */
  predicate StartsWith(s: string, p: string) {
    |p| <= |s| && s[..|p|] == p
  }

  /** `sep` occurs in `s` starting at index `k`. */
  predicate OccursAt(s: string, sep: string, k: int) {
    0 <= k && k + |sep| <= |s| && s[k..k + |sep|] == sep
  }

  /** Python's `sep in s`. */
  predicate Contains(s: string, sep: string) {
    exists k :: 0 <= k <= |s| && OccursAt(s, sep, k)
  }

  function FindFrom(s: string, sep: string, i: nat): (r: int)
    requires i <= |s|
    ensures r == -1 || (i <= r <= |s| && OccursAt(s, sep, r))
    ensures forall k :: i <= k && (r == -1 || k < r) ==> !OccursAt(s, sep, k)
    decreases |s| - i
  {
    if OccursAt(s, sep, i) then i
    else if i == |s| then -1
    else FindFrom(s, sep, i + 1)
  }

  /** `s.find(sep)`: the index of the first occurrence, or -1. */
  function Find(s: string, sep: string): (r: int)
    ensures r == -1 <==> !Contains(s, sep)
    ensures r != -1 ==> 0 <= r && OccursAt(s, sep, r)
    ensures forall k :: 0 <= k && (r == -1 || k < r) ==> !OccursAt(s, sep, k)
  {
    FindFrom(s, sep, 0)
  }

  /** Any index that is an occurrence with no earlier one is what `find` returns. */
  lemma FindIsFirst(s: string, sep: string, k: int)
    requires OccursAt(s, sep, k)
    requires forall j :: 0 <= j < k ==> !OccursAt(s, sep, j)
    ensures Find(s, sep) == k
  {
  }

  /** The text before the first occurrence of `sep` (all of `s` if none). */
  function Before(s: string, sep: string): (r: string)
    ensures StartsWith(s, r)
    ensures !Contains(s, sep) ==> r == s
    ensures Contains(s, sep) ==>
      OccursAt(s, sep, |r|) && forall k :: 0 <= k < |r| ==> !OccursAt(s, sep, k)
  {
    var i := Find(s, sep);
    if i < 0 then s else s[..i]
  }

  /** The text after the first occurrence of `sep`. */
  function After(s: string, sep: string): (r: string)
    requires Contains(s, sep)
    ensures s == Before(s, sep) + sep + r
  {
    var i := Find(s, sep);
    assert s == s[..i] + s[i..i + |sep|] + s[i + |sep|..];
    s[i + |sep|..]
  }

  /** Python's `s.split(sep)` for a non-empty separator: the pieces between
      successive non-overlapping occurrences, scanning left to right. */
  function Split(s: string, sep: string): (parts: seq<string>)
    requires |sep| > 0
    ensures |parts| >= 1
    ensures |parts| > 1 <==> Contains(s, sep)
    ensures parts[0] == Before(s, sep)
    ensures |parts| > 1 ==> parts[1] == Before(After(s, sep), sep)
    decreases |s|
  {
    var i := Find(s, sep);
    if i < 0 then [s] else [s[..i]] + Split(s[i + |sep|..], sep)
  }

  /** Python's `sep.join(parts)`. */
  function Join(parts: seq<string>, sep: string): string {
    if |parts| == 0 then []
    else if |parts| == 1 then parts[0]
    else parts[0] + sep + Join(parts[1..], sep)
  }

  /** Joining the pieces of a split with the separator gives back the string. */
  lemma {:induction false} SplitJoin(s: string, sep: string)
    requires |sep| > 0
    ensures Join(Split(s, sep), sep) == s
    decreases |s|
  {
    var i := Find(s, sep);
    if i >= 0 {
      var rest := s[i + |sep|..];
      SplitJoin(rest, sep);
      var parts := Split(s, sep);
      assert parts == [s[..i]] + Split(rest, sep);
      assert parts[1..] == Split(rest, sep);
      assert s == s[..i] + s[i..i + |sep|] + rest;
    }
  }

  /** No piece of a split contains the separator. */
  lemma {:induction false} SplitPiecesAreFree(s: string, sep: string)
    requires |sep| > 0
    ensures NoneContains(Split(s, sep), sep)
    decreases |s|
  {
    var i := Find(s, sep);
    if i >= 0 {
      var rest := s[i + |sep|..];
      SplitPiecesAreFree(rest, sep);
      NoOccurrenceInPrefix(s, sep, i);
      assert Split(s, sep) == [s[..i]] + Split(rest, sep);
    }
  }

  predicate NoneContains(parts: seq<string>, sep: string) {
    forall j :: 0 <= j < |parts| ==> !Contains(parts[j], sep)
  }

  /** A prefix of `s` that ends before the first occurrence holds none. */
  lemma NoOccurrenceInPrefix(s: string, sep: string, i: int)
    requires 0 <= i <= |s|
    requires forall k :: 0 <= k < i ==> !OccursAt(s, sep, k)
    requires |sep| > 0
    ensures !Contains(s[..i], sep)
  {
    forall k | 0 <= k <= i && OccursAt(s[..i], sep, k)
      ensures false
    {
      assert s[..i][k..k + |sep|] == s[k..k + |sep|];
      assert OccursAt(s, sep, k);
    }
  }

  /** Python's `s.split(sep, 1)`: at most one cut, at the first occurrence. */
  function SplitOnce(s: string, sep: string): (parts: seq<string>)
    requires |sep| > 0
    ensures |parts| == 1 || |parts| == 2
    ensures |parts| == 2 <==> Contains(s, sep)
    ensures |parts| == 1 ==> parts[0] == s
    ensures |parts| == 2 ==> parts[0] == Before(s, sep) && parts[1] == After(s, sep)
  {
    var i := Find(s, sep);
    if i < 0 then [s]
    else
      assert Before(s, sep) == s[..i] && After(s, sep) == s[i + |sep|..];
      [s[..i], s[i + |sep|..]]
  }

  /** For a one-character separator, `in` is plain membership. */
  lemma ContainsChar(s: string, c: char)
    ensures Contains(s, [c]) <==> c in s
  {
    if c in s {
      var k :| 0 <= k < |s| && s[k] == c;
      assert s[k..k + 1] == [c];
      assert OccursAt(s, [c], k);
    }
    if Contains(s, [c]) {
      var k :| 0 <= k <= |s| && OccursAt(s, [c], k);
      assert s[k] == s[k..k + 1][0] == c;
    }
  }

  /** An infix of a string without `sep` has none either. */
  lemma InfixKeepsAbsence(s: string, i: int, j: int, sep: string)
    requires 0 <= i <= j <= |s|
    requires !Contains(s, sep)
    ensures !Contains(s[i..j], sep)
  {
    var t := s[i..j];
    forall k | 0 <= k <= |t| && OccursAt(t, sep, k)
      ensures false
    {
      forall n | 0 <= n < |sep|
        ensures s[i + k..i + k + |sep|][n] == sep[n]
      {
        assert t[k..k + |sep|][n] == t[k + n] == s[i + k + n];
      }
      assert s[i + k..i + k + |sep|] == sep;
      assert OccursAt(s, sep, i + k);
    }
  }

  /** Every character an occurrence covers is a character of `sep`. */
  lemma OccurrenceChars(s: string, sep: string, k: int)
    requires OccursAt(s, sep, k)
    ensures forall p :: k <= p < k + |sep| ==> s[p] in sep
  {
    forall p | k <= p < k + |sep|
      ensures s[p] in sep
    {
      assert s[p] == s[k..k + |sep|][p - k];
    }
  }

  /** Cutting off a prefix keeps a separator absent. */
  lemma AfterKeepsAbsence(s: string, cut: string, sep: string)
    requires Contains(s, cut) && !Contains(s, sep)
    ensures !Contains(After(s, cut), sep)
  {
    var a := After(s, cut);
    assert s[|s| - |a|..|s|] == a;
    InfixKeepsAbsence(s, |s| - |a|, |s|, sep);
  }

  /** Stripping keeps a separator absent. */
  lemma StripKeepsAbsence(s: string, sep: string)
    requires !Contains(s, sep)
    ensures !Contains(Strip(s), sep)
  {
    var l := LStrip(s);
    InfixKeepsAbsence(s, |s| - |l|, |s|, sep);
    assert s[|s| - |l|..|s|] == l;
    InfixKeepsAbsence(l, 0, |RStrip(l)|, sep);
    assert l[0..|RStrip(l)|] == RStrip(l);
  }

  /** A character that does not occur in `sep` cannot be covered by an
      occurrence, so an occurrence in `x + [c] + y` lies wholly in `x` or
      wholly in `y`. */
  lemma OccurrenceSide(x: string, c: char, y: string, sep: string, k: int)
    requires c !in sep
    requires OccursAt(x + [c] + y, sep, k)
    ensures (k + |sep| <= |x| && OccursAt(x, sep, k)) || (k > |x| && OccursAt(y, sep, k - |x| - 1))
  {
    var s := x + [c] + y;
    OccurrenceChars(s, sep, k);
    assert s[|x|] == c;
    if k + |sep| <= |x| {
      assert s[k..k + |sep|] == x[k..k + |sep|];
    } else {
      var m := k - |x| - 1;
      assert s[k..k + |sep|] == y[m..m + |sep|];
    }
  }

  /** Occurrences of `x` and `y` carry over to `x + [c] + y`, shifted. */
  lemma OccurrenceLifts(x: string, c: char, y: string, sep: string)
    ensures forall k :: OccursAt(x, sep, k) ==> OccursAt(x + [c] + y, sep, k)
    ensures forall m :: OccursAt(y, sep, m) ==> OccursAt(x + [c] + y, sep, |x| + 1 + m)
  {
    var s := x + [c] + y;
    forall k | OccursAt(x, sep, k)
      ensures OccursAt(s, sep, k)
    {
      assert s[k..k + |sep|] == x[k..k + |sep|];
    }
    forall m | OccursAt(y, sep, m)
      ensures OccursAt(s, sep, |x| + 1 + m)
    {
      assert s[|x| + 1 + m..|x| + 1 + m + |sep|] == y[m..m + |sep|];
    }
  }

  /** Occurrences of `sep` in `x + [c] + y`, for `c` no part of `sep`, are
      exactly those of `x` and those of `y`. */
  lemma ContainsAcross(x: string, c: char, y: string, sep: string)
    requires c !in sep
    ensures Contains(x + [c] + y, sep) <==> Contains(x, sep) || Contains(y, sep)
  {
    var s := x + [c] + y;
    if Contains(s, sep) {
      var k :| 0 <= k <= |s| && OccursAt(s, sep, k);
      OccurrenceSide(x, c, y, sep, k);
    }
    OccurrenceLifts(x, c, y, sep);
  }

  /** Where `find` lands in `x + [c] + y` when `c` is no part of `sep` and
      `x` holds no occurrence. */
  lemma FindAcross(x: string, c: char, y: string, sep: string)
    requires c !in sep
    requires !Contains(x, sep)
    ensures Find(x + [c] + y, sep) == if Contains(y, sep) then |x| + 1 + Find(y, sep) else -1
  {
    ContainsAcross(x, c, y, sep);
    var s := x + [c] + y;
    if Contains(y, sep) {
      var k := |x| + 1 + Find(y, sep);
      OccurrenceLifts(x, c, y, sep);
      forall j | 0 <= j < k && OccursAt(s, sep, j)
        ensures false
      {
        OccurrenceSide(x, c, y, sep, j);
      }
      FindIsFirst(s, sep, k);
    }
  }

  /** A string that starts with `sep` has its first occurrence at 0. */
  lemma FindAtStart(sep: string, y: string)
    ensures Find(sep + y, sep) == 0
  {
    assert (sep + y)[0..|sep|] == sep;
    FindIsFirst(sep + y, sep, 0);
  }

  predicate IsAsciiUpper(c: char) {
    'A' <= c <= 'Z'
  }

  function LowerChar(c: char): char {
    if IsAsciiUpper(c) then (c as int + 32) as char else c
  }

  /** `s.lower()` restricted to ASCII: upper-case ASCII letters become their
      lower-case forms, every other character is kept. */
  function Lower(s: string): (r: string)
    ensures |r| == |s|
    ensures forall i :: 0 <= i < |r| ==> !IsAsciiUpper(r[i])
    ensures forall i :: 0 <= i < |s| && !IsAsciiUpper(s[i]) ==> r[i] == s[i]
    ensures forall i :: 0 <= i < |s| && IsAsciiUpper(s[i]) ==> r[i] as int == s[i] as int + 32
  {
    seq(|s|, i requires 0 <= i < |s| => LowerChar(s[i]))
  }

  /** Lower-casing twice is lower-casing once. */
  lemma LowerIdempotent(s: string)
    ensures Lower(Lower(s)) == Lower(s)
  {
  }
}
