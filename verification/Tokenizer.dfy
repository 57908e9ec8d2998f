/**
 Splitting a command line into arguments in place and finding the command:
 rte/src/rte_shell.c, with strtok_r as the C library defines it.
 */
module Tokenizer {
  import opened Types

  /** The number of arguments that fit: argv has 16 places, one kept for NULL. */
  const ARG_MAX: nat := 15

  type Text = seq<byte>

  /** A token, by the indices of its first byte and of the byte after its last. */
  datatype Span = Span(start: nat, end: nat)

  function SkipSpaces(s: Text, i: nat): (j: nat)
    requires i <= |s|
    ensures i <= j <= |s| && (j < |s| ==> s[j] != SPACE)
    decreases |s| - i
  {
    if i < |s| && s[i] == SPACE then SkipSpaces(s, i + 1) else i
  }

  function SkipToken(s: Text, i: nat): (j: nat)
    requires i <= |s|
    ensures i <= j <= |s| && (j < |s| ==> s[j] == SPACE)
    decreases |s| - i
  {
    if i < |s| && s[i] != SPACE then SkipToken(s, i + 1) else i
  }

  lemma {:induction false} SpacesSkipped(s: Text, i: nat)
    requires i <= |s|
    ensures forall k :: i <= k < SkipSpaces(s, i) ==> s[k] == SPACE
    decreases |s| - i
  {
    if i < |s| && s[i] == SPACE {
      SpacesSkipped(s, i + 1);
    }
  }

  lemma {:induction false} TokenSkipped(s: Text, i: nat)
    requires i <= |s|
    ensures forall k :: i <= k < SkipToken(s, i) ==> s[k] != SPACE
    decreases |s| - i
  {
    if i < |s| && s[i] != SPACE {
      TokenSkipped(s, i + 1);
    }
  }

  /** The tokens of s from index i on, left to right. */
  function Spans(s: Text, i: nat): seq<Span>
    requires i <= |s|
    decreases |s| - i
  {
    var a := SkipSpaces(s, i);
    if a == |s| then [] else
    var b := SkipToken(s, a);
    [Span(a, b)] + Spans(s, b)
  }

  /** A run without spaces that cannot be made longer on either side. */
  ghost predicate IsMaximalRun(s: Text, a: nat, b: nat) {
    a < b <= |s| && (forall k :: a <= k < b ==> s[k] != SPACE) &&
    (a == 0 || s[a - 1] == SPACE) && (b == |s| || s[b] == SPACE)
  }

  /** Index i does not lie inside a run. */
  predicate AtBoundary(s: Text, i: nat) {
    i <= |s| && (i == 0 || i == |s| || s[i - 1] == SPACE || s[i] == SPACE)
  }

  /** The next token is a maximal run, and no other run starts before its end. */
  lemma NextRun(s: Text, i: nat, c: nat, d: nat)
    requires AtBoundary(s, i) && i <= c && SkipSpaces(s, i) < |s|
    requires c < SkipToken(s, SkipSpaces(s, i))
    ensures IsMaximalRun(s, c, d) <==> c == SkipSpaces(s, i) && d == SkipToken(s, c)
  {
    var a := SkipSpaces(s, i);
    var b := SkipToken(s, a);
    SpacesSkipped(s, i);
    TokenSkipped(s, a);
    assert c < a ==> s[c] == SPACE;
    assert a < c ==> s[c - 1] != SPACE;
    assert a < d < b ==> s[d] != SPACE;
    assert i < a ==> s[a - 1] == SPACE;
  }

  /** The tokens are the maximal space-free runs, each once, in order. */
  lemma {:induction false} SpansAreMaximalRuns(s: Text, i: nat)
    requires AtBoundary(s, i)
    ensures forall a: nat, b: nat :: Span(a, b) in Spans(s, i) <==> i <= a && IsMaximalRun(s, a, b)
    decreases |s| - i
  {
    var a := SkipSpaces(s, i);
    if a < |s| {
      var b := SkipToken(s, a);
      SpansAreMaximalRuns(s, b);
      forall c: nat, d: nat
        ensures Span(c, d) in Spans(s, i) <==> i <= c && IsMaximalRun(s, c, d)
      {
        assert Span(c, d) in Spans(s, i) <==> Span(c, d) == Span(a, b) || Span(c, d) in Spans(s, b);
        if i <= c < b {
          NextRun(s, i, c, d);
        }
      }
    } else {
      SpacesSkipped(s, i);
      forall c: nat, d: nat | i <= c
        ensures !IsMaximalRun(s, c, d)
      {
        assert c < |s| ==> s[c] == SPACE;
      }
    }
  }

  /** Tokens come left to right with a space between them. */
  lemma {:induction false} SpansAscend(s: Text, i: nat)
    requires i <= |s|
    ensures forall k :: 0 <= k < |Spans(s, i)| ==>
                          i <= Spans(s, i)[k].start < Spans(s, i)[k].end <= |s|
    ensures forall k, l :: 0 <= k < l < |Spans(s, i)| ==> Spans(s, i)[k].end < Spans(s, i)[l].start
    decreases |s| - i
  {
    var a := SkipSpaces(s, i);
    if a < |s| {
      var b := SkipToken(s, a);
      if b < |s| {
        assert SkipSpaces(s, b) == SkipSpaces(s, b + 1);
        SpansAscend(s, b + 1);
        assert Spans(s, b) == Spans(s, b + 1);
      } else {
        assert SkipSpaces(s, b) == |s|;
        assert Spans(s, b) == [];
      }
      assert Spans(s, i) == [Span(a, b)] + Spans(s, b);
    }
  }

  function Cut(s: Text, t: Span): Text {
    if t.start <= t.end <= |s| then s[t.start..t.end] else []
  }

  /** The argument texts of a line: all its tokens. */
  function Tokens(s: Text): (ts: seq<Text>)
    ensures |ts| == |Spans(s, 0)|
  {
    var spans := Spans(s, 0);
    seq(|spans|, k requires 0 <= k < |spans| => Cut(s, spans[k]))
  }

  // ----- joining and splitting again

  function Join(ts: seq<Text>): Text {
    if ts == [] then [] else if |ts| == 1 then ts[0] else ts[0] + [SPACE] + Join(ts[1..])
  }

  ghost predicate IsToken(t: Text) {
    t != [] && SPACE !in t
  }

  /** The texts of the tokens from index i on. */
  function TokensFrom(s: Text, i: nat): seq<Text>
    requires i <= |s|
    decreases |s| - i
  {
    var a := SkipSpaces(s, i);
    if a == |s| then [] else
    var b := SkipToken(s, a);
    [s[a..b]] + TokensFrom(s, b)
  }

  lemma {:induction false} TokensFromSpans(s: Text, i: nat)
    requires i <= |s|
    ensures |TokensFrom(s, i)| == |Spans(s, i)|
    ensures forall k :: 0 <= k < |Spans(s, i)| ==> TokensFrom(s, i)[k] == Cut(s, Spans(s, i)[k])
    decreases |s| - i
  {
    var a := SkipSpaces(s, i);
    if a < |s| {
      TokensFromSpans(s, SkipToken(s, a));
    }
  }

  lemma {:induction false} SkipSpacesUnique(s: Text, i: nat, j: nat)
    requires i <= j <= |s| && (j < |s| ==> s[j] != SPACE) && forall k :: i <= k < j ==> s[k] == SPACE
    ensures SkipSpaces(s, i) == j
    decreases j - i
  {
    if i < j {
      SkipSpacesUnique(s, i + 1, j);
    }
  }

  lemma {:induction false} SkipTokenUnique(s: Text, i: nat, j: nat)
    requires i <= j <= |s| && (j < |s| ==> s[j] == SPACE) && forall k :: i <= k < j ==> s[k] != SPACE
    ensures SkipToken(s, i) == j
    decreases j - i
  {
    if i < j {
      SkipTokenUnique(s, i + 1, j);
    }
  }

  /** From index n on, t is s. */
  ghost predicate EndsWith(t: Text, n: nat, s: Text) {
    |t| == n + |s| && forall k :: n <= k < |t| ==> t[k] == s[k - n]
  }

  lemma SliceOfEnd(t: Text, n: nat, s: Text, a: nat, b: nat)
    requires EndsWith(t, n, s) && a <= b <= |s|
    ensures t[n + a..n + b] == s[a..b]
  {
  }

  lemma SpacesInEnd(t: Text, n: nat, s: Text, i: nat)
    requires EndsWith(t, n, s) && i <= |s|
    ensures SkipSpaces(t, n + i) == n + SkipSpaces(s, i)
  {
    SpacesSkipped(s, i);
    SkipSpacesUnique(t, n + i, n + SkipSpaces(s, i));
  }

  lemma TokenInEnd(t: Text, n: nat, s: Text, i: nat)
    requires EndsWith(t, n, s) && i <= |s|
    ensures SkipToken(t, n + i) == n + SkipToken(s, i)
  {
    TokenSkipped(s, i);
    SkipTokenUnique(t, n + i, n + SkipToken(s, i));
  }

  lemma TokensStep(s: Text, i: nat, a: nat, b: nat)
    requires i <= |s| && a == SkipSpaces(s, i) < |s| && b == SkipToken(s, a)
    ensures TokensFrom(s, i) == [s[a..b]] + TokensFrom(s, b)
  {
  }

  /** The first token from i on in s and from n + i on in t is the same. */
  lemma FirstTokenInEnd(t: Text, n: nat, s: Text, i: nat) returns (token: Text, b: nat)
    requires EndsWith(t, n, s) && i <= |s| && SkipSpaces(s, i) < |s|
    ensures i < b <= |s|
    ensures TokensFrom(s, i) == [token] + TokensFrom(s, b)
    ensures TokensFrom(t, n + i) == [token] + TokensFrom(t, n + b)
  {
    var a := SkipSpaces(s, i);
    b := SkipToken(s, a);
    token := s[a..b];
    SpacesInEnd(t, n, s, i);
    TokenInEnd(t, n, s, a);
    SliceOfEnd(t, n, s, a, b);
    TokensStep(s, i, a, b);
    TokensStep(t, n + i, n + a, n + b);
  }

  /** Splitting depends only on what is left of the line: from j = n + i on, t
      splits like s from i on. */
  lemma {:induction false} TokensFromEnd(t: Text, n: nat, s: Text, i: nat, j: nat)
    requires EndsWith(t, n, s) && i <= |s| && j == n + i
    ensures TokensFrom(t, j) == TokensFrom(s, i)
    decreases |s| - i
  {
    if SkipSpaces(s, i) < |s| {
      var token, b := FirstTokenInEnd(t, n, s, i);
      TokensFromEnd(t, n, s, b, n + b);
    } else {
      SpacesInEnd(t, n, s, i);
    }
  }

  /** A token at the front of a line is split off, and the single space behind
      it is passed over. */
  lemma SplitFirst(s: Text, t: Text)
    requires IsToken(t) && t <= s
    requires |t| == |s| || (|t| + 1 < |s| && s[|t|] == SPACE && s[|t| + 1] != SPACE)
    ensures TokensFrom(s, 0) == if |t| == |s| then [t] else [t] + TokensFrom(s, |t| + 1)
  {
    assert t[0] in t && forall k :: 0 <= k < |t| ==> s[k] in t;
    SkipSpacesUnique(s, 0, 0);
    SkipTokenUnique(s, 0, |t|);
    assert s[0..|t|] == t;
    if |t| < |s| {
      SkipSpacesUnique(s, |t|, |t| + 1);
      SkipSpacesUnique(s, |t| + 1, |t| + 1);
    }
  }

  /** How a joined line starts. */
  lemma JoinStarts(ts: seq<Text>)
    requires ts != [] && forall t :: t in ts ==> IsToken(t)
    ensures var s, t := Join(ts), ts[0];
            IsToken(t) && t <= s && s != [] && s[0] != SPACE &&
            if |ts| == 1 then s == t
            else |t| + 1 < |s| && s[|t|] == SPACE && s[|t| + 1] != SPACE && EndsWith(s, |t| + 1, Join(ts[1..]))
  {
    var t := ts[0];
    assert t in ts && t[0] in t;
    if |ts| > 1 {
      var next := ts[1..][0];
      assert next in ts && next[0] in next && next <= Join(ts[1..]);
      assert Join(ts) == t + [SPACE] + Join(ts[1..]);
    }
  }

  /** Tokens joined by single spaces split into the same tokens. */
  lemma {:induction false} SplitOfJoin(ts: seq<Text>)
    requires forall t :: t in ts ==> IsToken(t)
    ensures TokensFrom(Join(ts), 0) == ts
  {
    if ts != [] {
      var s, t, rest := Join(ts), ts[0], ts[1..];
      JoinStarts(ts);
      assert ts == [t] + rest;
      SplitFirst(s, t);
      if rest != [] {
        SplitOfJoin(rest);
        TokensFromEnd(s, |t| + 1, Join(rest), 0, |t| + 1);
      }
    }
  }

  lemma TokensAreTokens(s: Text)
    ensures Tokens(s) == TokensFrom(s, 0)
    ensures forall t :: t in Tokens(s) ==> IsToken(t)
  {
    TokensFromSpans(s, 0);
    SpansAreMaximalRuns(s, 0);
    var spans := Spans(s, 0);
    forall k | 0 <= k < |spans|
      ensures IsToken(Cut(s, spans[k]))
    {
      var sp := spans[k];
      assert sp in spans && sp == Span(sp.start, sp.end);
    }
  }

  /** Splitting a line, keeping the arguments that fit and joining them by
      single spaces gives a line that splits into the same arguments. */
  lemma RetokenizeIsStable(s: Text, n: nat)
    requires n <= |Tokens(s)|
    ensures Tokens(Join(Tokens(s)[..n])) == Tokens(s)[..n]
  {
    TokensAreTokens(s);
    TokensAreTokens(Join(Tokens(s)[..n]));
    SplitOfJoin(Tokens(s)[..n]);
  }

  // ----- C strings in a buffer

  /** The string that starts at index i and ends before the next NUL. */
  function CString(buf: seq<byte>, i: nat): Text
    decreases |buf| - i
  {
    if i >= |buf| || buf[i] == NUL then [] else [buf[i]] + CString(buf, i + 1)
  }

  lemma {:induction false} CStringIs(buf: seq<byte>, i: nat, t: Text)
    requires i + |t| < |buf| && buf[i..i + |t|] == t && NUL !in t && buf[i + |t|] == NUL
    ensures CString(buf, i) == t
    decreases |t|
  {
    if t != [] {
      assert buf[i] == t[0] && t[0] in t;
      assert buf[i + 1..i + |t|] == t[1..];
      CStringIs(buf, i + 1, t[1..]);
    }
  }

  lemma {:induction false} CStringSpan(buf: seq<byte>, i: nat)
    requires i <= |buf| && NUL in buf[i..]
    ensures var t := CString(buf, i);
            i + |t| < |buf| && buf[i..i + |t|] == t && NUL !in t && buf[i + |t|] == NUL
    decreases |buf| - i
  {
    if buf[i] != NUL {
      assert buf[i..] == [buf[i]] + buf[i + 1..];
      CStringSpan(buf, i + 1);
      var t := CString(buf, i + 1);
      assert CString(buf, i) == [buf[i]] + t;
      assert buf[i..i + 1 + |t|] == [buf[i]] + buf[i + 1..i + 1 + |t|];
    }
  }

  /** The buffer holds, from index from on, what is left of the line s. */
  ghost predicate Holds(buf: seq<byte>, s: Text, from: nat) {
    from <= |s| < |buf| && buf[from..|s|] == s[from..] && buf[|s|] == NUL && NUL !in s
  }

  /** Where strtok_r goes on after a token that ends at b. */
  function Resume(s: Text, b: nat): nat {
    if b < |s| then b + 1 else |s|
  }

  lemma SpansStep(s: Text, i: nat)
    requires i <= |s| && SkipSpaces(s, i) < |s|
    ensures var a := SkipSpaces(s, i);
            var b := SkipToken(s, a);
            Spans(s, i) == [Span(a, b)] + Spans(s, Resume(s, b))
  {
    var b := SkipToken(s, SkipSpaces(s, i));
    if b < |s| {
      assert SkipSpaces(s, b) == SkipSpaces(s, b + 1);
    }
  }

  const NULL := -1

  /** What one call of strtok_r does to the rest of the line from index from on. */
  ghost predicate Cuts(s: Text, from: nat, before: seq<byte>, p: int, save: nat, after: seq<byte>)
    requires from <= |s| < |before|
  {
    var a := SkipSpaces(s, from);
    if a == |s| then p == NULL && save == |s| && after == before
    else
      var b := SkipToken(s, a);
      p == a && save == Resume(s, b) && after == before[b := NUL]
  }

  /** strtok_r with the delimiter " ": from is the place the saved pointer
      refers to. The token found is cut off by a NUL in place of the space
      behind it; at the end of the line nothing is written. */
  method StrTokR(buf: array<byte>, from: nat, ghost s: Text) returns (p: int, save: nat)
    requires Holds(buf[..], s, from)
    modifies buf
    ensures Holds(buf[..], s, save)
    ensures Cuts(s, from, old(buf[..]), p, save, buf[..])
  {
    ghost var was := buf[..];
    assert forall k :: from <= k < |s| ==> was[k] == was[from..|s|][k - from] == s[k];
    var i := from;
    while buf[i] == SPACE
      invariant from <= i <= |s| && buf[..] == was
      invariant SkipSpaces(s, from) == SkipSpaces(s, i)
      decreases |s| - i
    {
      i := i + 1;
    }
    assert i < |s| ==> s[i] in s;
    if buf[i] == NUL {
      return NULL, i;
    }
    p := i;
    while buf[i] != SPACE && buf[i] != NUL
      invariant p <= i <= |s| && buf[..] == was
      invariant SkipToken(s, p) == SkipToken(s, i)
      decreases |s| - i
    {
      i := i + 1;
    }
    assert i < |s| ==> s[i] in s;
    if buf[i] == NUL {
      save := i;
      assert was[i := NUL] == was;
    } else {
      buf[i] := NUL;
      save := i + 1;
    }
  }

  predicate SpansFit(buf: seq<byte>, spans: seq<Span>) {
    forall k :: 0 <= k < |spans| ==> spans[k].end < |buf|
  }

  /** The buffer once the first n tokens have been cut off. */
  function Punched(buf: seq<byte>, spans: seq<Span>, n: nat): (r: seq<byte>)
    requires n <= |spans| && SpansFit(buf, spans)
    ensures |r| == |buf|
  {
    if n == 0 then buf else Punched(buf, spans, n - 1)[spans[n - 1].end := NUL]
  }

  /** Of the buffer, only bytes right behind one of those tokens change. */
  lemma {:induction false} PunchedAt(buf: seq<byte>, spans: seq<Span>, n: nat, i: nat)
    requires n <= |spans| && SpansFit(buf, spans)
    requires i < |buf|
    ensures Punched(buf, spans, n)[i] == if exists k :: 0 <= k < n && spans[k].end == i then NUL else buf[i]
  {
    if n > 0 {
      PunchedAt(buf, spans, n - 1, i);
    }
  }

  /** Cutting changes nothing but spaces of the line. */
  lemma PunchedChangesSpaces(buf: seq<byte>, s: Text, n: nat, i: nat)
    requires Holds(buf, s, 0) && n <= |Spans(s, 0)| && i < |buf|
    requires SpansFit(buf, Spans(s, 0))
    ensures Punched(buf, Spans(s, 0), n)[i] != buf[i] ==> i < |s| && buf[i] == SPACE
  {
    var spans := Spans(s, 0);
    PunchedAt(buf, spans, n, i);
    SpansAreMaximalRuns(s, 0);
    if k :| 0 <= k < n && spans[k].end == i {
      assert spans[k] in spans && spans[k] == Span(spans[k].start, i);
      assert i < |s| ==> s[i] == buf[i];
    }
  }

  /** The bytes of a token stay as they are. */
  lemma TokenUntouched(buf: seq<byte>, s: Text, n: nat, k: nat, i: nat)
    requires Holds(buf, s, 0) && k < n <= |Spans(s, 0)| && SpansFit(buf, Spans(s, 0))
    requires Spans(s, 0)[k].start <= i < Spans(s, 0)[k].end
    ensures i < |s| && Punched(buf, Spans(s, 0), n)[i] == s[i]
  {
    var spans := Spans(s, 0);
    SpansAscend(s, 0);
    PunchedAt(buf, spans, n, i);
    forall l | 0 <= l < n
      ensures spans[l].end != i
    {
      assert spans[l].start < spans[l].end;
    }
    assert s[i] == buf[..|s|][i];
  }

  lemma PunchedRun(buf: seq<byte>, s: Text, n: nat, k: nat)
    requires Holds(buf, s, 0) && k < n <= |Spans(s, 0)| && SpansFit(buf, Spans(s, 0))
    ensures var t, r := Spans(s, 0)[k], Punched(buf, Spans(s, 0), n);
            t.start < t.end <= |s| && r[t.start..t.end] == s[t.start..t.end] && r[t.end] == NUL
  {
    var t, r := Spans(s, 0)[k], Punched(buf, Spans(s, 0), n);
    SpansAscend(s, 0);
    forall i | t.start <= i < t.end
      ensures r[i] == s[i]
    {
      TokenUntouched(buf, s, n, k, i);
    }
    PunchedAt(buf, Spans(s, 0), n, t.end);
  }

  /** Once cut off, a token can be read as a C string from its first byte. */
  lemma PunchedToken(buf: seq<byte>, s: Text, n: nat, k: nat)
    requires Holds(buf, s, 0) && k < n <= |Spans(s, 0)| && SpansFit(buf, Spans(s, 0))
    ensures CString(Punched(buf, Spans(s, 0), n), Spans(s, 0)[k].start) == Tokens(s)[k]
  {
    PunchedRun(buf, s, n, k);
    var t := Spans(s, 0)[k];
    var token := s[t.start..t.end];
    assert NUL !in token;
    CStringIs(Punched(buf, Spans(s, 0), n), t.start, token);
  }

  /** The state of the loop when n tokens have been stored: p is the next one,
      already cut off. */
  ghost predicate Splitting(was: seq<byte>, s: Text, n: nat, p: int, save: nat, buf: seq<byte>) {
    var spans := Spans(s, 0);
    n <= |spans| && SpansFit(was, spans) && Holds(buf, s, save) &&
    p == (if n < |spans| then spans[n].start else NULL) &&
    Spans(s, save) == spans[Min(n + 1, |spans|)..] &&
    buf == Punched(was, spans, Min(n + 1, |spans|))
  }

  lemma SplitStarts(was: seq<byte>, s: Text, p: int, save: nat, buf: seq<byte>)
    requires Holds(was, s, 0) && Holds(buf, s, save) && Cuts(s, 0, was, p, save, buf)
    ensures Splitting(was, s, 0, p, save, buf)
  {
    SpansAscend(s, 0);
    if SkipSpaces(s, 0) < |s| {
      SpansStep(s, 0);
      assert Punched(was, Spans(s, 0), 1) == Punched(was, Spans(s, 0), 0)[Spans(s, 0)[0].end := NUL];
    } else {
      assert SkipSpaces(s, |s|) == |s|;
    }
  }

  lemma SplitContinues(was: seq<byte>, s: Text, n: nat, p: int, save: nat, buf: seq<byte>,
                       q: int, next: nat, after: seq<byte>)
    requires Splitting(was, s, n, p, save, buf) && n < |Spans(s, 0)|
    requires Holds(after, s, next) && Cuts(s, save, buf, q, next, after)
    ensures Splitting(was, s, n + 1, q, next, after)
  {
    var spans := Spans(s, 0);
    assert Spans(s, save) == spans[n + 1..];
    if SkipSpaces(s, save) < |s| {
      SpansStep(s, save);
      assert spans[n + 1] == spans[n + 1..][0];
      assert spans[n + 2..] == spans[n + 1..][1..];
    } else {
      assert n + 1 == |spans|;
      assert SkipSpaces(s, |s|) == |s|;
    }
  }

  /** The result of splitting the line s: argv holds the first 15 tokens and a
      NULL behind them, each token can be read from the buffer as a C string,
      the first 16 tokens are cut off, and only spaces have become NUL. */
  ghost predicate SplitInto(was: seq<byte>, s: Text, buf: seq<byte>, argv: seq<int>, argc: nat) {
    |buf| == |was| > |s| && |argv| == ARG_MAX + 1 &&
    argc == Min(ARG_MAX, |Tokens(s)|) &&
    argv[argc] == NULL &&
    SpansFit(was, Spans(s, 0)) && buf == Punched(was, Spans(s, 0), Min(ARG_MAX + 1, |Spans(s, 0)|)) &&
    (forall k :: 0 <= k < argc ==> 0 <= argv[k] < |s| && CString(buf, argv[k]) == Tokens(s)[k]) &&
    (forall i :: 0 <= i < |buf| && buf[i] != was[i] ==> i < |s| && was[i] == SPACE && buf[i] == NUL)
  }

  /** The first n places of argv hold the first n tokens. */
  ghost predicate Stored(argv: seq<int>, s: Text, n: nat) {
    n <= |argv| && n <= |Spans(s, 0)| && forall k :: 0 <= k < n ==> argv[k] == Spans(s, 0)[k].start
  }

  lemma StoreNext(argv: seq<int>, s: Text, n: nat, p: int)
    requires Stored(argv, s, n) && n < |argv|
    requires n < |Spans(s, 0)| && p == Spans(s, 0)[n].start
    ensures Stored(argv[n := p], s, n + 1)
  {
  }

  lemma StoredPrefix(argv: seq<int>, s: Text, n: nat, p: int)
    requires Stored(argv, s, n) && n < |argv|
    ensures Stored(argv[n := p], s, n)
  {
  }

  lemma SplitEnds(was: seq<byte>, s: Text, argc: nat, p: int, save: nat, buf: seq<byte>, argv: seq<int>)
    requires Holds(was, s, 0) && Splitting(was, s, argc, p, save, buf)
    requires argc <= ARG_MAX && (p == NULL || argc == ARG_MAX) && |argv| == ARG_MAX + 1
    requires argv[argc] == NULL && Stored(argv, s, argc)
    ensures SplitInto(was, s, buf, argv, argc)
  {
    var spans := Spans(s, 0);
    var n := Min(argc + 1, |spans|);
    SpansAscend(s, 0);
    forall k | 0 <= k < argc
      ensures CString(buf, argv[k]) == Tokens(s)[k]
    {
      PunchedToken(was, s, n, k);
    }
    forall i | 0 <= i < |buf| && buf[i] != was[i]
      ensures i < |s| && was[i] == SPACE && buf[i] == NUL
    {
      PunchedChangesSpaces(was, s, n, i);
      PunchedAt(was, spans, n, i);
    }
  }

  /** The loop of rte_shell_execute. When there is a sixteenth token it is
      looked for, and cut off, but not stored. */
  method Split(line: array<byte>, argv: array<int>, ghost s: Text) returns (argc: nat)
    requires Holds(line[..], s, 0) && argv.Length == ARG_MAX + 1 && line as object != argv
    modifies line, argv
    ensures SplitInto(old(line[..]), s, line[..], argv[..], argc)
  {
    ghost var was := line[..];
    argc := 0;
    var p, save := StrTokR(line, 0, s);
    SplitStarts(was, s, p, save, line[..]);
    while p != NULL && argc < ARG_MAX
      invariant argc <= ARG_MAX
      invariant Splitting(was, s, argc, p, save, line[..])
      invariant Stored(argv[..], s, argc)
      decreases ARG_MAX - argc
    {
      ghost var before, at, from := line[..], p, save;
      StoreNext(argv[..], s, argc, p);
      argv[argc] := p;
      p, save := StrTokR(line, save, s);
      SplitContinues(was, s, argc, at, from, before, p, save, line[..]);
      argc := argc + 1;
    }
    StoredPrefix(argv[..], s, argc, NULL);
    argv[argc] := NULL;
    SplitEnds(was, s, argc, p, save, line[..], argv[..]);
  }

  // ----- finding the command

  /** lookup: the first command of that name, or the number of commands. */
  method Lookup(names: seq<Text>, name: Text) returns (ix: nat)
    ensures ix <= |names| && name !in names[..ix]
    ensures ix < |names| ==> names[ix] == name
  {
    ix := 0;
    while ix < |names|
      invariant ix <= |names| && name !in names[..ix]
    {
      if names[ix] == name {
        return;
      }
      ix := ix + 1;
    }
  }

  /** What becomes of a command line. The first two return -1, and the last the
      result of the command, which gets the arguments. */
  datatype Outcome = NoCommand | Unknown(name: Text) | Ran(command: nat, args: seq<Text>)

  ghost predicate IsOutcome(names: seq<Text>, args: seq<Text>, outcome: Outcome) {
    if args == [] then outcome == NoCommand
    else if args[0] !in names then outcome == Unknown(args[0])
    else outcome.Ran? && outcome.args == args && outcome.command < |names| &&
         names[outcome.command] == args[0] && args[0] !in names[..outcome.command]
  }

  /** The arguments and the table of commands decide the outcome. */
  lemma OutcomeUnique(names: seq<Text>, args: seq<Text>, a: Outcome, b: Outcome)
    requires IsOutcome(names, args, a) && IsOutcome(names, args, b)
    ensures a == b
  {
    if a.Ran? && b.Ran? {
      FirstIndexUnique(names, args[0], a.command, b.command);
    }
  }

  lemma FirstIndexUnique(names: seq<Text>, name: Text, i: nat, j: nat)
    requires i < |names| && names[i] == name && name !in names[..i]
    requires j < |names| && names[j] == name && name !in names[..j]
    ensures i == j
  {
    forall k | 0 <= k < i
      ensures names[k] != name
    {
      assert names[..i][k] in names[..i];
    }
    forall k | 0 <= k < j
      ensures names[k] != name
    {
      assert names[..j][k] in names[..j];
    }
  }

  /** The arguments a line gives a command. */
  function Arguments(s: Text): seq<Text> {
    Tokens(s)[..Min(ARG_MAX, |Tokens(s)|)]
  }

  /** The arguments are texts of maximal runs of the line, from the first on: of
      all of them, or of the first 15. */
  lemma ArgumentsAreRuns(s: Text)
    ensures |Arguments(s)| == if |Spans(s, 0)| <= 15 then |Spans(s, 0)| else 15
    ensures forall k :: 0 <= k < |Arguments(s)| ==>
              IsMaximalRun(s, Spans(s, 0)[k].start, Spans(s, 0)[k].end) &&
              Arguments(s)[k] == s[Spans(s, 0)[k].start..Spans(s, 0)[k].end]
  {
    SpansAreMaximalRuns(s, 0);
    forall k | 0 <= k < |Arguments(s)|
      ensures IsMaximalRun(s, Spans(s, 0)[k].start, Spans(s, 0)[k].end)
    {
      var run := Spans(s, 0)[k];
      assert run in Spans(s, 0) && run == Span(run.start, run.end);
    }
  }

  /** Words separated by single spaces are the arguments, up to 15 of them. */
  lemma ArgumentsOfJoin(words: seq<Text>)
    requires forall w :: w in words ==> w != [] && 0x20 !in w
    ensures Arguments(Join(words)) == words[..Min(15, |words|)]
  {
    SplitOfJoin(words);
    TokensAreTokens(Join(words));
  }

  /** What becomes of words separated by single spaces: none is no command, an
      unknown first word is reported, and otherwise the first command of that
      name runs with the words, up to 15 of them, as its arguments. */
  lemma OutcomeOfWords(names: seq<Text>, words: seq<Text>, outcome: Outcome)
    requires forall w :: w in words ==> w != [] && 0x20 !in w
    requires IsOutcome(names, Arguments(Join(words)), outcome)
    ensures words == [] ==> outcome == NoCommand
    ensures words != [] && words[0] !in names ==> outcome == Unknown(words[0])
    ensures words != [] && words[0] in names ==>
              outcome.Ran? && outcome.args == words[..Min(15, |words|)] &&
              outcome.command < |names| && names[outcome.command] == words[0] &&
              forall i :: 0 <= i < outcome.command ==> names[i] != words[0]
  {
    ArgumentsOfJoin(words);
    if outcome.Ran? {
      forall i | 0 <= i < outcome.command
        ensures names[i] != words[0]
      {
        assert names[..outcome.command][i] in names[..outcome.command];
      }
    }
  }

  /** The bytes of a C string, as strcmp and the commands read it. */
  method ReadString(buf: array<byte>, from: nat) returns (t: Text)
    ensures t == CString(buf[..], from)
  {
    t := [];
    var i := from;
    while i < buf.Length && buf[i] != NUL
      invariant t + CString(buf[..], i) == CString(buf[..], from)
      decreases buf.Length - i
    {
      assert t + CString(buf[..], i) == (t + [buf[i]]) + CString(buf[..], i + 1);
      t := t + [buf[i]];
      i := i + 1;
    }
    assert t == t + [];
  }

  /** rte_shell_execute and rte_shell_execute_arg. */
  method Execute(line: array<byte>, names: seq<Text>, ghost s: Text) returns (outcome: Outcome)
    requires Holds(line[..], s, 0)
    modifies line
    ensures IsOutcome(names, Arguments(s), outcome)
  {
    ghost var was := line[..];
    var argv := new int[ARG_MAX + 1];
    var argc := Split(line, argv, s);
    if argc == 0 {
      return NoCommand;
    }
    var args: seq<Text> := [];
    while |args| < argc
      invariant |args| <= argc
      invariant args == Tokens(s)[..|args|]
      invariant SplitInto(was, s, line[..], argv[..], argc)
    {
      assert argv[|args|] == argv[..][|args|];
      var t := ReadString(line, argv[|args|]);
      args := args + [t];
    }
    var ix := Lookup(names, args[0]);
    if ix == |names| {
      return Unknown(args[0]);
    }
    outcome := Ran(ix, args);
  }
}
