/** strtok on a buffer in place, and the command line loop of the shell on top of it. */
module Tokens {
  import opened Basics

  // ----- maximal runs of a text -----

  predicate IsDelim(c: char, delim: string) { c in delim }

  /** t[i..j] is a non-empty run without delimiters that cannot be extended on either side. */
  ghost predicate MaximalRun(t: string, delim: string, i: int, j: int) {
    && 0 <= i < j <= |t|
    && (forall k :: i <= k < j ==> t[k] !in delim)
    && (i > 0 ==> t[i - 1] in delim)
    && (j < |t| ==> t[j] in delim)
  }

  /** The length of the longest prefix of delimiters. */
  function Skip(t: string, delim: string): (k: nat)
    ensures k <= |t|
  {
    if t != [] && IsDelim(t[0], delim) then 1 + Skip(t[1..], delim) else 0
  }

  /** The length of the longest prefix without delimiters. */
  function Word(t: string, delim: string): (k: nat)
    ensures k <= |t|
  {
    if t != [] && !IsDelim(t[0], delim) then 1 + Word(t[1..], delim) else 0
  }

  lemma {:induction false} SkipIs(t: string, delim: string)
    ensures var k := Skip(t, delim);
            (forall i :: 0 <= i < k ==> IsDelim(t[i], delim)) && (k < |t| ==> !IsDelim(t[k], delim))
  {
    if t != [] && IsDelim(t[0], delim) { SkipIs(t[1..], delim); }
  }

  lemma {:induction false} WordIs(t: string, delim: string)
    ensures var k := Word(t, delim);
            (forall i :: 0 <= i < k ==> !IsDelim(t[i], delim)) && (k < |t| ==> IsDelim(t[k], delim))
  {
    if t != [] && !IsDelim(t[0], delim) { WordIs(t[1..], delim); }
  }

  datatype Span = Span(start: nat, end: nat)

  /** The spans that successive strtok calls return on text t, which starts at position `at`. */
  function Spans(t: string, delim: string, at: nat): seq<Span>
    decreases |t|
  {
    var d := Skip(t, delim);
    if d == |t| then []
    else
      var w := Word(t[d..], delim);
      [Span(at + d, at + d + w)] + Rest(t, delim, at, d + w)
  }

  /** The spans behind the delimiter at position m, if there is one. */
  function Rest(t: string, delim: string, at: nat, m: nat): seq<Span>
    requires m <= |t|
    decreases |t|, 0
  {
    if m == |t| then [] else Spans(t[m + 1..], delim, at + m + 1)
  }

  /** The first word of t: it starts at d and ends at e. */
  ghost predicate FirstWord(t: string, delim: string, d: nat, e: nat) {
    && d < e <= |t|
    && (forall k :: 0 <= k < d ==> IsDelim(t[k], delim))
    && (forall k :: d <= k < e ==> !IsDelim(t[k], delim))
    && (e < |t| ==> IsDelim(t[e], delim))
  }

  lemma Unfold(t: string, delim: string, at: nat)
    ensures var d := Skip(t, delim);
            if d == |t| then Spans(t, delim, at) == []
            else
              var e := d + Word(t[d..], delim);
              Spans(t, delim, at) == [Span(at + d, at + e)] + Rest(t, delim, at, e)
  {}

  /** Either all of t is delimiters and there are no spans, or the first span is the first word. */
  lemma Cut(t: string, delim: string, at: nat) returns (d: nat, e: nat)
    ensures d == Skip(t, delim)
    ensures d == |t| ==> Spans(t, delim, at) == [] && forall k :: 0 <= k < |t| ==> IsDelim(t[k], delim)
    ensures d < |t| ==> FirstWord(t, delim, d, e) && Spans(t, delim, at) == [Span(at + d, at + e)] + Rest(t, delim, at, e)
  {
    hide Spans, Skip, Word, Rest, IsDelim;
    d, e := Skip(t, delim), 0;
    SkipIs(t, delim);
    Unfold(t, delim, at);
    if d < |t| {
      var u := t[d..];
      e := d + Word(u, delim);
      WordIs(u, delim);
      assert u[0] == t[d];
      forall k | d <= k < e ensures !IsDelim(t[k], delim) { assert t[k] == u[k - d]; }
      assert e < |t| ==> t[e] == u[e - d];
    }
  }

  function CountDelims(t: string, delim: string): nat {
    if t == [] then 0 else (if IsDelim(t[0], delim) then 1 else 0) + CountDelims(t[1..], delim)
  }

  /** The count for one delimiter is how often the character occurs. */
  lemma {:induction false} CountIs(t: string, c: char)
    ensures CountDelims(t, [c]) == multiset(t)[c]
  {
    if t != [] {
      assert t == [t[0]] + t[1..];
      CountIs(t[1..], c);
    }
  }

  lemma {:induction false} SpansFrom(t: string, delim: string, at: nat)
    ensures forall s :: s in Spans(t, delim, at) ==> at <= s.start < s.end <= at + |t|
    decreases |t|
  {
    var d, e := Cut(t, delim, at);
    hide Spans, Skip, Word;
    if d < |t| && e < |t| { SpansFrom(t[e + 1..], delim, at + e + 1); }
  }

  /** The spans are the maximal runs, all of them and nothing else. */
  lemma {:induction false} SpansAreRuns(t: string, delim: string, at: nat, i: nat, j: nat)
    ensures Span(at + i, at + j) in Spans(t, delim, at) <==> MaximalRun(t, delim, i, j)
    decreases |t|
  {
    var d, e := Cut(t, delim, at);
    hide Spans, Skip, Word;
    var atStart := i < |t| && IsDelim(t[i], delim);
    if d < |t| {
      FirstRun(t, delim, d, e, i, j);
      if e < |t| {
        SpansFrom(t[e + 1..], delim, at + e + 1);
        if i > e && j > e {
          SpansAreRuns(t[e + 1..], delim, at + e + 1, i - e - 1, j - e - 1);
          RunInTail(t, delim, e + 1, i, j);
        }
      }
    }
  }

  /** A maximal run either is the first word or lies behind the delimiter that ends it. */
  lemma FirstRun(t: string, delim: string, d: nat, e: nat, i: nat, j: nat)
    requires FirstWord(t, delim, d, e)
    ensures MaximalRun(t, delim, d, e)
    ensures MaximalRun(t, delim, i, j) ==> (i == d && j == e) || i > e
  {
    var atStart := i < |t| && IsDelim(t[i], delim);
    var before := 0 < i <= |t| && IsDelim(t[i - 1], delim);
    var atEnd := j < |t| && IsDelim(t[j], delim);
    var atE := e < |t| && IsDelim(t[e], delim);
  }

  lemma RunInTail(t: string, delim: string, m: nat, i: nat, j: nat)
    requires 0 < m <= |t| && m <= i && m <= j && IsDelim(t[m - 1], delim)
    ensures MaximalRun(t[m..], delim, i - m, j - m) <==> MaximalRun(t, delim, i, j)
  {
    var u := t[m..];
    assert forall k :: m <= k < |t| ==> u[k - m] == t[k];
    assert forall k :: 0 <= k < |u| ==> u[k] == t[k + m];
  }

  /** There are at most as many runs as delimiters plus one. */
  lemma {:induction false} SpansAtMost(t: string, delim: string, at: nat)
    ensures |Spans(t, delim, at)| <= CountDelims(t, delim) + 1
    decreases |t|
  {
    var d, e := Cut(t, delim, at);
    hide Spans, Skip, Word;
    if d < |t| && e < |t| {
      SpansAtMost(t[e + 1..], delim, at + e + 1);
      CountSplit(t, delim, e);
    }
  }

  lemma {:induction false} CountSplit(t: string, delim: string, k: nat)
    requires k < |t| && IsDelim(t[k], delim)
    ensures CountDelims(t, delim) >= 1 + CountDelims(t[k + 1..], delim)
  {
    if k > 0 {
      assert t[1..][k - 1] == t[k] && t[1..][k..] == t[k + 1..];
      CountSplit(t[1..], delim, k - 1);
    }
  }

  /** Spans come in order, with a delimiter between any two. */
  lemma {:induction false} SpansOrdered(t: string, delim: string, at: nat, a: nat, b: nat)
    requires a < b < |Spans(t, delim, at)|
    ensures Spans(t, delim, at)[a].end < Spans(t, delim, at)[b].start
    decreases |t|
  {
    var d, e := Cut(t, delim, at);
    hide Spans, Skip, Word;
    if a == 0 {
      SpansFrom(t[e + 1..], delim, at + e + 1);
      assert Spans(t, delim, at)[b] in Rest(t, delim, at, e);
    } else {
      SpansOrdered(t[e + 1..], delim, at + e + 1, a - 1, b - 1);
    }
  }

  // ----- strtok -----

  /** The buffer has text without NUL from p up to a NUL at `end`. */
  ghost predicate TextTo(buf: array<char>, p: nat, end: nat)
    reads buf
  {
    p <= end < buf.Length && buf[end] == NUL && forall k :: p <= k < end ==> buf[k] != NUL
  }

  class Strtok {
    /** The static pointer; None is NULL. */
    var s: Option<nat>

    constructor ()
      ensures s == None
    {
      s := None;
    }

    method SkipDelims(buf: array<char>, p0: nat, delim: string, ghost end: nat) returns (p: nat)
      requires TextTo(buf, p0, end)
      ensures p == p0 + Skip(buf[p0..end], delim) <= end
    {
      p := p0;
      while buf[p] != NUL && IsDelim(buf[p], delim)
        invariant p0 <= p <= end
        invariant Skip(buf[p0..end], delim) == p - p0 + Skip(buf[p..end], delim)
        decreases end - p
      {
        assert buf[p..end][0] == buf[p] && buf[p..end][1..] == buf[p + 1..end];
        p := p + 1;
      }
      assert p < end ==> buf[p..end][0] == buf[p];
    }

    method ScanWord(buf: array<char>, p0: nat, delim: string, ghost end: nat) returns (p: nat)
      requires TextTo(buf, p0, end)
      ensures p == p0 + Word(buf[p0..end], delim) <= end
    {
      p := p0;
      while buf[p] != NUL && !IsDelim(buf[p], delim)
        invariant p0 <= p <= end
        invariant Word(buf[p0..end], delim) == p - p0 + Word(buf[p..end], delim)
        decreases end - p
      {
        assert buf[p..end][0] == buf[p] && buf[p..end][1..] == buf[p + 1..end];
        p := p + 1;
      }
      assert p < end ==> buf[p..end][0] == buf[p];
    }

    /** One call: it returns the first span of the text the pointer stands at, cuts the text there
        and moves the pointer behind the cut; b is where the token ends. */
    method Next(str: Option<nat>, buf: array<char>, delim: string, ghost end: nat) returns (r: Option<nat>, ghost b: nat)
      requires str.Some? ==> TextTo(buf, str.value, end)
      requires str.None? && s.Some? ==> TextTo(buf, s.value, end)
      modifies this, buf
      ensures var from := if str.Some? then str else old(s);
              && (from.None? ==> r == None && s == None && buf[..] == old(buf[..]))
              && (from.Some? ==> Advanced(old(buf[..]), buf[..], delim, from.value, end, r, b, s))
    {
      b := 0;
      if str.Some? {
        s := str;
      }
      if s.None? {
        return None, b;
      }
      r, b := Advance(s.value, buf, delim, end);
    }

    /** The call with the pointer at p0. */
    method Advance(p0: nat, buf: array<char>, delim: string, ghost end: nat) returns (r: Option<nat>, ghost b: nat)
      requires TextTo(buf, p0, end)
      modifies this, buf
      ensures Advanced(old(buf[..]), buf[..], delim, p0, end, r, b, s)
    {
      hide Spans, Skip, Word, FirstWord, Rest, Advanced;
      ghost var all := buf[..];
      ghost var t := buf[p0..end];
      ghost var d, e := Cut(t, delim, p0);
      assert t == all[p0..end];
      b := p0 + e;
      var p := SkipDelims(buf, p0, delim, end);
      if buf[p] == NUL {
        s := None;
        NoWord(all, delim, p0, end);
        return None, b;
      }
      r := Some(p);
      WordEnd(t, delim, d, e);
      assert buf[p..end] == t[d..];
      p := ScanWord(buf, p, delim, end);
      if buf[p] == NUL {
        s := None;
      } else {
        buf[p] := NUL;
        s := Some(p + 1);
      }
      assert buf[..] == all[p := NUL];
      FoundWord(all, delim, p0, end, d, e);
    }
  }

  lemma NoWord(all: string, delim: string, p0: nat, end: nat)
    requires p0 <= end < |all| && Skip(all[p0..end], delim) == end - p0
    ensures Advanced(all, all, delim, p0, end, None, 0, None)
    ensures forall b :: Advanced(all, all, delim, p0, end, None, b, None)
  {
    var d, e := Cut(all[p0..end], delim, p0);
  }

  lemma FoundWord(all: string, delim: string, p0: nat, end: nat, d: nat, e: nat)
    requires p0 <= end < |all| && d < end - p0 && FirstWord(all[p0..end], delim, d, e)
    requires Spans(all[p0..end], delim, p0) == [Span(p0 + d, p0 + e)] + Rest(all[p0..end], delim, p0, e)
    ensures Advanced(all, all[p0 + e := NUL], delim, p0, end, Some(p0 + d), p0 + e,
              if p0 + e == end then None else Some(p0 + e + 1))
  {
    hide Skip, Word, IsDelim;
    var t, now := all[p0..end], all[p0 + e := NUL];
    if p0 + e < end {
      assert now[p0 + e + 1..end] == t[e + 1..];
    }
  }

  /** The effect of one call on the buffer, from text at p0 on. */
  ghost predicate Advanced(old_: string, now: string, delim: string, p0: nat, end: nat, r: Option<nat>, b: nat, s: Option<nat>)
    requires p0 <= end < |old_| && |now| == |old_|
  {
    var spans := Spans(old_[p0..end], delim, p0);
    match r
    case None => spans == [] && s == None && now == old_
    case Some(a) =>
      && p0 <= a < b <= end && now == old_[b := NUL]
      && s == (if b == end then None else Some(b + 1))
      && spans == [Span(a, b)] + (if b == end then [] else Spans(now[b + 1..end], delim, b + 1))
  }

  lemma WordEnd(t: string, delim: string, d: nat, e: nat)
    requires d == Skip(t, delim) && d < |t| && FirstWord(t, delim, d, e)
    ensures e == d + Word(t[d..], delim)
  {
    var u := t[d..];
    WordIs(u, delim);
    var w := Word(u, delim);
    assert forall k :: 0 <= k < |u| ==> u[k] == t[d + k];
    var atE := e < |t| && IsDelim(t[e], delim);
    var atW := d + w < |t| && IsDelim(t[d + w], delim);
    var inU := e - d < |u| && IsDelim(u[e - d], delim);
  }

  // ----- the command line loop of the shell -----

  /** The buffer holds the characters of span sp of the line, followed by a NUL. */
  ghost predicate TokenAt(now: string, line: string, sp: Span) {
    && sp.start < sp.end <= |line| && sp.end < |now|
    && now[sp.start..sp.end] == line[sp.start..sp.end] && now[sp.end] == NUL
  }

  /** Every span but the last n of them has been cut out of the buffer and is intact. */
  ghost predicate AllTokensAt(now: string, line: string, spans: seq<Span>) {
    forall i :: 0 <= i < |spans| ==> TokenAt(now, line, spans[i])
  }

  /** The spaces of the line. */
  method CountSpaces(buf: array<char>, ghost end: nat) returns (n: nat)
    requires TextTo(buf, 0, end)
    ensures n == CountDelims(buf[..end], " ")
  {
    n := 0;
    var i := 0;
    while buf[i] != NUL
      invariant 0 <= i <= end && CountDelims(buf[..end], " ") == n + CountDelims(buf[i..end], " ")
      decreases end - i
    {
      assert buf[i..end][0] == buf[i] && buf[i..end][1..] == buf[i + 1..end];
      assert IsDelim(buf[i], " ") <==> buf[i] == ' ';
      if buf[i] == ' ' {
        n := n + 1;
      }
      i := i + 1;
    }
  }

  /** shell_execute_command up to the command lookup: argv holds the starts of the tokens. */
  method Tokenise(tok: Strtok, buf: array<char>, ghost end: nat) returns (argv: array<nat>, argc: nat)
    requires TextTo(buf, 0, end)
    modifies tok, buf
    ensures fresh(argv)
    ensures var line := old(buf[..end]);
            var spans := Spans(line, " ", 0);
            && argc == |spans| <= argv.Length == CountDelims(line, " ") + 1
            && (forall i :: 0 <= i < argc ==> argv[i] == spans[i].start)
            && AllTokensAt(buf[..], line, spans)
  {
    hide Spans, Advanced, TokenAt, AllTokensAt, LoopState, CountDelims;
    ghost var line := buf[..end];
    ghost var spans := Spans(line, " ", 0);
    SpansAtMost(line, " ", 0);
    NoTokens(buf[..], line);
    var spaces := CountSpaces(buf, end);
    argv := new nat[spaces + 1];
    argc := 0;
    assert buf[..][0..end] == line;
    var token;
    ghost var b;
    ghost var before := buf[..];
    token, b := tok.Next(Some(0), buf, " ", end);
    CutStep(before, buf[..], line, end, token, b, 0, tok.s, spans, 0);
    Continues(buf, line, end, token, b, tok.s, spans, argc);
    while token.Some?
      invariant tok.s.Some? ==> TextTo(buf, tok.s.value, end)
      invariant LoopState(buf[..], line, end, token, b, tok.s, spans, argc)
      invariant argc <= |spans| && forall i :: 0 <= i < argc ==> argv[i] == spans[i].start
      decreases |spans| - argc
    {
      LoopFacts(buf[..], line, end, token, b, tok.s, spans, argc);
      argv[argc] := token.value;
      argc := argc + 1;
      before := buf[..];
      ghost var s0, token0, b0 := tok.s, token, b;
      token, b := tok.Next(None, buf, " ", end);
      CutNext(before, buf[..], line, end, token0, b0, s0, token, b, tok.s, spans, argc);
      Continues(buf, line, end, token, b, tok.s, spans, argc);
    }
    LoopFacts(buf[..], line, end, token, b, tok.s, spans, argc);
  }

  /** The state between two strtok calls: n tokens are stored, the current one ends at b, and what
      the pointer stands at is what is left of the line. */
  ghost predicate LoopState(now: string, line: string, end: nat, token: Option<nat>, b: nat, s: Option<nat>, spans: seq<Span>, n: nat) {
    && |line| == end < |now| && now[end] == NUL && n <= |spans|
    && (token.None? ==> n == |spans| && s.None?)
    && (token.Some? ==> n < |spans| && spans[n] == Span(token.value, b) && EndBy(spans[..n + 1], b))
    && AllTokensAt(now, line, if token.Some? then spans[..n + 1] else spans)
    && (token.Some? && s.None? ==> n + 1 == |spans|)
    && (s.Some? ==>
          && token.Some? && s.value == b + 1 <= end
          && (forall k :: s.value <= k < end ==> now[k] == line[k] && now[k] != NUL)
          && spans[n + 1..] == Spans(now[s.value..end], " ", s.value))
  }

  lemma LoopFacts(now: string, line: string, end: nat, token: Option<nat>, b: nat, s: Option<nat>, spans: seq<Span>, n: nat)
    requires LoopState(now, line, end, token, b, s, spans, n)
    ensures token.Some? ==> n < |spans| && spans[n].start == token.value
    ensures token.None? ==> n == |spans| && AllTokensAt(now, line, spans)
  {}

  ghost predicate EndBy(spans: seq<Span>, b: nat) {
    forall i :: 0 <= i < |spans| ==> spans[i].end <= b
  }

  lemma NoTokens(now: string, line: string)
    ensures AllTokensAt(now, line, [])
  {}

  /** What Tokenise needs of the buffer for the next call. */
  lemma Continues(buf: array<char>, line: string, end: nat, token: Option<nat>, b: nat, s: Option<nat>, spans: seq<Span>, n: nat)
    requires LoopState(buf[..], line, end, token, b, s, spans, n)
    ensures s.Some? ==> TextTo(buf, s.value, end)
  {
    assert end < buf.Length && buf[..][end] == buf[end];
    if s.Some? {
      forall k | s.value <= k < end ensures buf[k] != NUL { assert buf[..][k] == buf[k]; }
    }
  }

  /** One call from text at p0 that is still as in the line. */
  lemma CutStep(before: string, now: string, line: string, end: nat, token: Option<nat>, b: nat, p0: nat, s: Option<nat>,
                spans: seq<Span>, n: nat)
    requires |line| == end < |before| && |now| == |before| && p0 <= end && before[end] == NUL && n <= |spans|
    requires forall k :: p0 <= k < end ==> before[k] == line[k] && before[k] != NUL
    requires spans[n..] == Spans(before[p0..end], " ", p0)
    requires AllTokensAt(before, line, spans[..n]) && (forall i :: 0 <= i < n ==> spans[i].end < p0)
    requires Advanced(before, now, " ", p0, end, token, b, s)
    ensures LoopState(now, line, end, token, b, s, spans, n)
  {
    hide Spans, Word, Skip;
    if token.None? {
      assert spans[..n] == spans;
    } else {
      var us := spans[..n + 1];
      assert spans[n] == spans[n..][0] && spans[n + 1..] == spans[n..][1..];
      assert us[..n] == spans[..n] && us[n] == Span(token.value, b);
      TokensKept(before, now, line, us, p0, b);
    }
  }

  /** Cutting a new token at b leaves the earlier ones alone. */
  lemma TokensKept(before: string, now: string, line: string, us: seq<Span>, p0: nat, b: nat)
    requires us != [] && b <= |line| < |before| && now == before[b := NUL]
    requires us[|us| - 1].end == b && p0 <= us[|us| - 1].start < b
    requires forall k :: p0 <= k < b ==> before[k] == line[k]
    requires AllTokensAt(before, line, us[..|us| - 1]) && forall i :: 0 <= i < |us| - 1 ==> us[i].end < p0
    ensures AllTokensAt(now, line, us) && EndBy(us, b)
  {
    forall i | 0 <= i < |us| ensures TokenAt(now, line, us[i]) {
      var sp := us[i];
      if i < |us| - 1 {
        assert sp == us[..|us| - 1][i] && TokenAt(before, line, sp);
        assert now[sp.start..sp.end] == before[sp.start..sp.end];
      } else {
        assert now[sp.start..sp.end] == line[sp.start..sp.end];
      }
    }
  }

  /** The call that follows a token. */
  lemma CutNext(before: string, now: string, line: string, end: nat, token0: Option<nat>, b0: nat, s0: Option<nat>,
                token: Option<nat>, b: nat, s: Option<nat>, spans: seq<Span>, n: nat)
    requires n > 0 && LoopState(before, line, end, token0, b0, s0, spans, n - 1) && token0.Some? && |now| == |before|
    requires s0.None? ==> token == None && s == None && now == before
    requires s0.Some? ==> Advanced(before, now, " ", s0.value, end, token, b, s)
    ensures LoopState(now, line, end, token, b, s, spans, n)
  {
    if s0.Some? {
      forall i | 0 <= i < n ensures spans[i].end < s0.value {
        assert spans[..n][i] == spans[i];
      }
      CutStep(before, now, line, end, token, b, s0.value, s, spans, n);
    } else {
      assert spans[..n] == spans;
    }
  }
}
