/**
 lib-clib/src/strtok.cpp. A buffer is a character sequence that ends with a NUL; the position kept
 between calls is NONE for the null pointer.
 */
module Strtok {
  import opened Digits

  const NONE := -1

  /** The buffer and the static `last`. */
  datatype TokState = TokState(buf: seq<char>, last: int)

  ghost predicate Terminated(buf: seq<char>) {
    |buf| > 0 && buf[|buf| - 1] == NUL
  }

  ghost predicate Ready(st: TokState) {
    Terminated(st.buf) && (st.last == NONE || 0 <= st.last < |st.buf|)
  }

  /** First position from s on that is not a delimiter; the terminator is none. */
  function SkipDelimiters(buf: seq<char>, s: nat, delim: seq<char>): (i: nat)
    requires Terminated(buf) && s < |buf| && NUL !in delim
    ensures s <= i < |buf| && buf[i] !in delim && forall k | s <= k < i :: buf[k] in delim
    decreases |buf| - s
  {
    if buf[s] in delim then SkipDelimiters(buf, s + 1, delim) else s
  }

  /** First position from s on that ends a token. */
  function TokenEnd(buf: seq<char>, s: nat, delim: seq<char>): (e: nat)
    requires Terminated(buf) && s < |buf|
    ensures s <= e < |buf| && (buf[e] == NUL || buf[e] in delim)
    ensures forall k | s <= k < e :: buf[k] != NUL && buf[k] !in delim
    decreases |buf| - s
  {
    if buf[s] == NUL || buf[s] in delim then s else TokenEnd(buf, s + 1, delim)
  }

  /** One call from position s: the new state and the start of the token, or NONE. */
  function Token(buf: seq<char>, s: nat, delim: seq<char>): (r: (TokState, int))
    requires Terminated(buf) && s < |buf| && NUL !in delim
    ensures Ready(r.0)
  {
    var i := SkipDelimiters(buf, s, delim);
    if buf[i] == NUL then (TokState(buf, NONE), NONE)
    else
      var e := TokenEnd(buf, i, delim);
      if buf[e] == NUL then (TokState(buf, NONE), i) else (TokState(buf[e := NUL], e + 1), i)
  }

  /** strtok(nullptr, delim). */
  function Next(st: TokState, delim: seq<char>): (r: (TokState, int))
    requires Ready(st) && NUL !in delim
    ensures Ready(r.0)
  {
    if st.last == NONE then (st, NONE) else Token(st.buf, st.last, delim)
  }

  /** The static pointer `last` of strtok and the function around it. */
  class Tokenizer {
    var lastBuf: array?<char>
    var lastPos: nat

    constructor ()
      ensures lastBuf == null
    {
      lastBuf := null;
      lastPos := 0;
    }

    ghost predicate Valid()
      reads this, lastBuf
    {
      lastBuf != null ==> Terminated(lastBuf[..]) && lastPos < lastBuf.Length
    }

    /** The abstract state while `buf` is being tokenized. */
    ghost function View(buf: array<char>): TokState
      reads this, buf
    {
      TokState(buf[..], if lastBuf == buf then lastPos else NONE)
    }

    /** `s` is null to go on with the last buffer; the token is an index into the buffer, or NONE. */
    method StrTok(s: array?<char>, delim: seq<char>) returns (tok: int)
      requires Valid() && NUL !in delim
      requires s != null ==> Terminated(s[..])
      modifies this, s, lastBuf
      ensures Valid()
      ensures s != null ==> (View(s), tok) == Token(old(s[..]), 0, delim)
      ensures s == null && old(lastBuf) != null ==> (View(old(lastBuf)), tok) == Next(old(View(lastBuf)), delim)
      ensures s == null && old(lastBuf) == null ==> tok == NONE && lastBuf == null
      ensures lastBuf == null || lastBuf == if s != null then s else old(lastBuf)
    {
      var p: nat := 0;
      var buf := s;
      if buf == null {
        if lastBuf == null {
          return NONE;
        }
        buf, p := lastBuf, lastPos;
      }
      var start := Span(buf, p, delim);
      if buf[start] == NUL {
        lastBuf := null;
        return NONE;
      }
      var end := Scan(buf, start, delim);
      if buf[end] == NUL {
        lastBuf := null;
      } else {
        buf[end] := NUL;
        lastBuf, lastPos := buf, end + 1;
      }
      tok := start;
    }

    /** The inner loops: is c one of the characters of the delimiter string? */
    method IsDelimiter(c: char, delim: seq<char>) returns (found: bool)
      ensures found == (c in delim)
    {
      var k := 0;
      while k < |delim|
        invariant 0 <= k <= |delim|
        invariant c !in delim[..k]
      {
        if delim[k] == c {
          return true;
        }
        k := k + 1;
      }
      found := false;
    }

    /** The loop at label cont. */
    method Span(buf: array<char>, from: nat, delim: seq<char>) returns (p: nat)
      requires Terminated(buf[..]) && from < buf.Length && NUL !in delim
      ensures p == SkipDelimiters(buf[..], from, delim)
    {
      p := from;
      var skip := IsDelimiter(buf[p], delim);
      while skip
        invariant from <= p < buf.Length && skip == (buf[p] in delim)
        invariant SkipDelimiters(buf[..], from, delim) == SkipDelimiters(buf[..], p, delim)
        decreases buf.Length - p, skip
      {
        p := p + 1;
        skip := IsDelimiter(buf[p], delim);
      }
    }

    /** The loop that scans to the delimiter, or the NUL, behind a token. */
    method Scan(buf: array<char>, from: nat, delim: seq<char>) returns (p: nat)
      requires Terminated(buf[..]) && from < buf.Length
      ensures p == TokenEnd(buf[..], from, delim)
    {
      p := from;
      var stop := IsDelimiter(buf[p], delim);
      while buf[p] != NUL && !stop
        invariant from <= p < buf.Length && stop == (buf[p] in delim)
        invariant TokenEnd(buf[..], from, delim) == TokenEnd(buf[..], p, delim)
        decreases buf.Length - p
      {
        p := p + 1;
        stop := IsDelimiter(buf[p], delim);
      }
    }
  }

  // ---------- whole runs ----------

  /** A maximal delimiter-free run of the text: [0] to [1], end exclusive. */
  ghost predicate MaximalRun(text: seq<char>, delim: seq<char>, run: (nat, nat)) {
    && run.0 < run.1 <= |text|
    && (forall k | run.0 <= k < run.1 :: text[k] !in delim)
    && (run.0 == 0 || text[run.0 - 1] in delim)
    && (run.1 == |text| || text[run.1] in delim)
  }

  /** The tokens the calls find from position s on. */
  function Runs(text: seq<char>, s: nat, delim: seq<char>): seq<(nat, nat)>
    requires s <= |text| && NUL !in delim && NUL !in text
    decreases |text| - s, 1
  {
    var buf := text + [NUL];
    var i := SkipDelimiters(buf, s, delim);
    if i == |text| then []
    else
      var e := TokenEnd(buf, i, delim);
      [(i, e)] + RunsAfter(text, e, delim)
  }

  function RunsAfter(text: seq<char>, e: nat, delim: seq<char>): seq<(nat, nat)>
    requires e <= |text| && NUL !in delim && NUL !in text
    decreases |text| - e, 0
  {
    if e == |text| then [] else Runs(text, e + 1, delim)
  }

  /** The first token after s is a maximal run, and there is no run before it. */
  lemma FirstToken(text: seq<char>, s: nat, delim: seq<char>) returns (i: nat, e: nat)
    requires s <= |text| && NUL !in delim && NUL !in text
    requires s == 0 || text[s - 1] in delim
    ensures s <= i <= e <= |text|
    ensures forall k | s <= k < i :: text[k] in delim
    ensures i == |text| ==> Runs(text, s, delim) == []
    ensures i < |text| ==> MaximalRun(text, delim, (i, e))
    ensures i < |text| ==> Runs(text, s, delim) == [(i, e)] + RunsAfter(text, e, delim)
    ensures i < |text| && e < |text| ==> text[e] in delim
  {
    var buf := text + [NUL];
    i := SkipDelimiters(buf, s, delim);
    assert forall k | s <= k < i :: text[k] == buf[k];
    e := i;
    if i < |text| {
      e := TokenEnd(buf, i, delim);
      assert forall k | i <= k < e :: text[k] == buf[k];
    }
  }

  /** Every listed run is maximal and starts at s or later. */
  lemma {:induction false} RunsSound(text: seq<char>, s: nat, delim: seq<char>, k: nat)
    requires s <= |text| && NUL !in delim && NUL !in text
    requires s == 0 || text[s - 1] in delim
    requires k < |Runs(text, s, delim)|
    ensures s <= Runs(text, s, delim)[k].0 && MaximalRun(text, delim, Runs(text, s, delim)[k])
    decreases k
  {
    var i, e := FirstToken(text, s, delim);
    if k > 0 {
      RunsSound(text, e + 1, delim, k - 1);
    }
  }

  /** Every maximal run from s on is listed. */
  lemma {:induction false} RunsComplete(text: seq<char>, s: nat, delim: seq<char>, run: (nat, nat)) returns (k: nat)
    requires s <= |text| && NUL !in delim && NUL !in text
    requires s == 0 || text[s - 1] in delim
    requires s <= run.0 && MaximalRun(text, delim, run)
    ensures k < |Runs(text, s, delim)| && Runs(text, s, delim)[k] == run
    decreases |text| - s
  {
    var i, e := FirstToken(text, s, delim);
    assert text[run.0] !in delim;
    FirstRun(text, s, delim, i, e, run);
    if run == (i, e) {
      k := 0;
    } else {
      k := RunsComplete(text, e + 1, delim, run);
      k := k + 1;
    }
  }

  /** Independent of the algorithm: Runs lists exactly the maximal runs of the text. */
  lemma RunsExact(text: seq<char>, delim: seq<char>, run: (nat, nat))
    requires NUL !in delim && NUL !in text
    ensures (exists k :: 0 <= k < |Runs(text, 0, delim)| && Runs(text, 0, delim)[k] == run) <==>
            MaximalRun(text, delim, run)
  {
    if MaximalRun(text, delim, run) {
      var k := RunsComplete(text, 0, delim, run);
    }
    forall k | 0 <= k < |Runs(text, 0, delim)| ensures MaximalRun(text, delim, Runs(text, 0, delim)[k]) {
      RunsSound(text, 0, delim, k);
    }
  }

  /** The runs come in order and never touch. */
  lemma {:induction false} RunsOrdered(text: seq<char>, s: nat, delim: seq<char>, a: nat, b: nat)
    requires s <= |text| && NUL !in delim && NUL !in text
    requires s == 0 || text[s - 1] in delim
    requires a < b < |Runs(text, s, delim)|
    ensures Runs(text, s, delim)[a].1 < Runs(text, s, delim)[b].0
    decreases a
  {
    var i, e := FirstToken(text, s, delim);
    if a > 0 {
      RunsOrdered(text, e + 1, delim, a - 1, b - 1);
    } else {
      RunsSound(text, e + 1, delim, b - 1);
    }
  }

  lemma FirstRun(text: seq<char>, s: nat, delim: seq<char>, i: nat, e: nat, run: (nat, nat))
    requires s <= i < e <= |text|
    requires forall k | s <= k < i :: text[k] in delim
    requires MaximalRun(text, delim, (i, e))
    requires s <= run.0 && MaximalRun(text, delim, run)
    ensures run == (i, e) || (e < |text| && e < run.0)
  {
    assert text[run.0] !in delim;
  }

  // ---------- any number of calls ----------

  /** What n calls return, and the state after them. */
  function Calls(st: TokState, delim: seq<char>, n: nat): (r: (TokState, seq<int>))
    requires Ready(st) && NUL !in delim
    ensures Ready(r.0) && |r.1| == n
    decreases n
  {
    if n == 0 then (st, [])
    else
      var (st', tok) := Next(st, delim);
      var (st'', toks) := Calls(st', delim, n - 1);
      (st'', [tok] + toks)
  }

  /** Position j is where one of the first n tokens ends. */
  ghost predicate EndsToken(runs: seq<(nat, nat)>, n: nat, j: nat) {
    exists k :: 0 <= k < n && k < |runs| && runs[k].1 == j
  }

  lemma {:induction false} NullForEver(st: TokState, delim: seq<char>, n: nat)
    requires Ready(st) && st.last == NONE && NUL !in delim
    ensures Calls(st, delim, n).0 == st
    ensures forall k | 0 <= k < n :: Calls(st, delim, n).1[k] == NONE
    decreases n
  {
    if n > 0 {
      NullForEver(st, delim, n - 1);
    }
  }

  /** A call that forgets its position is the last one to return a token. */
  lemma CallsEnd(st: TokState, delim: seq<char>, n: nat)
    requires Ready(st) && NUL !in delim && n > 0
    requires Next(st, delim).0.last == NONE
    ensures Calls(st, delim, n).0 == Next(st, delim).0
    ensures Calls(st, delim, n).1[0] == Next(st, delim).1
    ensures forall k | 1 <= k < n :: Calls(st, delim, n).1[k] == NONE
  {
    NullForEver(Next(st, delim).0, delim, n - 1);
  }

  /** Only the text from s on matters to the next call. */
  lemma SameToken(text: seq<char>, buf: seq<char>, s: nat, delim: seq<char>) returns (i: nat, e: nat)
    requires NUL !in delim && NUL !in text && s <= |text|
    requires |buf| == |text| + 1 && buf[s..] == (text + [NUL])[s..]
    ensures s <= i <= e <= |text|
    ensures Runs(text, s, delim) == if i == |text| then [] else [(i, e)] + RunsAfter(text, e, delim)
    ensures Terminated(buf)
    ensures Token(buf, s, delim) ==
            if i == |text| then (TokState(buf, NONE), NONE)
            else if e == |text| then (TokState(buf, NONE), i)
            else (TokState(buf[e := NUL], e + 1), i)
  {
    var t := text + [NUL];
    assert forall k | s <= k < |buf| :: buf[k] == buf[s..][k - s] == t[s..][k - s] == t[k];
    i := SkipDelimiters(t, s, delim);
    assert SkipDelimiters(buf, s, delim) == i;
    e := i;
    if i < |text| {
      assert t[i] == text[i];
      e := TokenEnd(t, i, delim);
      assert TokenEnd(buf, i, delim) == e;
    }
  }

  /** The first n calls returned the first n runs, then NONE, and cut only behind them. */
  ghost predicate Follows(text: seq<char>, buf: seq<char>, buf': seq<char>,
                          runs: seq<(nat, nat)>, n: nat, toks: seq<int>)
    requires |buf| == |text| + 1
  {
    && |toks| == n
    && (forall k | 0 <= k < n :: toks[k] == if k < |runs| then runs[k].0 else NONE)
    && |buf'| == |buf|
    && (forall j | 0 <= j < |buf| :: buf'[j] == if j < |text| && EndsToken(runs, n, j) then NUL else buf[j])
  }

  /**
   From position s, n calls return the starts of the first n runs and then NONE, and overwrite
   nothing but the delimiter behind each token returned.
   */
  lemma {:induction false} CallsFollowRuns(text: seq<char>, buf: seq<char>, s: nat, delim: seq<char>, n: nat)
    requires NUL !in delim && NUL !in text && s <= |text|
    requires |buf| == |text| + 1 && Terminated(buf) && buf[s..] == (text + [NUL])[s..]
    ensures var (st, toks) := Calls(TokState(buf, s), delim, n);
            Follows(text, buf, st.buf, Runs(text, s, delim), n, toks)
    decreases n, 1
  {
    if n > 0 {
      var i, e := SameToken(text, buf, s, delim);
      if e == |text| {
        CallsEnd(TokState(buf, s), delim, n);
        LastCall(text, buf, Runs(text, s, delim), n, Calls(TokState(buf, s), delim, n).1);
      } else {
        NextCall(text, buf, s, delim, n, i, e);
      }
    }
  }

  lemma {:induction false} NextCall(text: seq<char>, buf: seq<char>, s: nat, delim: seq<char>, n: nat, i: nat, e: nat)
    requires NUL !in delim && NUL !in text && n > 0
    requires |buf| == |text| + 1 && Terminated(buf) && s <= i <= e < |text|
    requires buf[s..] == (text + [NUL])[s..]
    requires Token(buf, s, delim) == (TokState(buf[e := NUL], e + 1), i)
    ensures var (st, toks) := Calls(TokState(buf, s), delim, n);
            Follows(text, buf, st.buf, [(i, e)] + Runs(text, e + 1, delim), n, toks)
    decreases n, 0
  {
    SameTail(buf, text + [NUL], s, e);
    CallsFollowRuns(text, buf[e := NUL], e + 1, delim, n - 1);
    var (st, toks) := Calls(TokState(buf[e := NUL], e + 1), delim, n - 1);
    assert Calls(TokState(buf, s), delim, n) == (st, [i as int] + toks);
    FollowsStep(text, buf, st.buf, (i, e), Runs(text, e + 1, delim), n, toks);
  }

  lemma SameTail(b1: seq<char>, b2: seq<char>, s: nat, e: nat)
    requires |b1| == |b2| && s <= e < |b1| && b1[s..] == b2[s..]
    ensures b1[e := NUL][e + 1..] == b2[e + 1..]
  {
    assert forall k | s <= k < |b1| :: b1[k] == b1[s..][k - s] == b2[s..][k - s] == b2[k];
  }

  /** The last token ends at the terminator: nothing is cut. */
  lemma LastCall(text: seq<char>, buf: seq<char>, runs: seq<(nat, nat)>, n: nat, toks: seq<int>)
    requires |buf| == |text| + 1 && |toks| == n > 0
    requires |runs| <= 1 && (runs != [] ==> runs[0].1 == |text|)
    requires toks[0] == if runs == [] then NONE else runs[0].0
    requires forall k | 1 <= k < n :: toks[k] == NONE
    ensures Follows(text, buf, buf, runs, n, toks)
  {
  }

  lemma FollowsStep(text: seq<char>, buf: seq<char>, buf': seq<char>,
                    run: (nat, nat), rest: seq<(nat, nat)>, n: nat, toks: seq<int>)
    requires |buf| == |text| + 1 && n > 0 && run.1 < |text|
    requires Follows(text, buf[run.1 := NUL], buf', rest, n - 1, toks)
    ensures Follows(text, buf, buf', [run] + rest, n, [run.0] + toks)
  {
    forall j | 0 <= j < |buf|
      ensures buf'[j] == if j < |text| && EndsToken([run] + rest, n, j) then NUL else buf[j]
    {
      CutShift(run, rest, n, j);
    }
  }

  lemma CutShift(run: (nat, nat), rest: seq<(nat, nat)>, n: nat, j: nat)
    requires n > 0
    ensures EndsToken([run] + rest, n, j) <==> j == run.1 || EndsToken(rest, n - 1, j)
  {
    var runs := [run] + rest;
    if EndsToken(runs, n, j) && j != run.1 {
      var k :| 0 <= k < n && k < |runs| && runs[k].1 == j;
      assert rest[k - 1].1 == j;
    }
    if EndsToken(rest, n - 1, j) {
      var k :| 0 <= k < n - 1 && k < |rest| && rest[k].1 == j;
      assert runs[k + 1].1 == j;
    }
    if j == run.1 {
      assert runs[0].1 == j;
    }
  }

  /** No token of the text ends inside another one. */
  lemma RunUncut(text: seq<char>, delim: seq<char>, n: nat, k: nat, j: nat)
    requires NUL !in delim && NUL !in text
    requires k < |Runs(text, 0, delim)| && Runs(text, 0, delim)[k].0 <= j < Runs(text, 0, delim)[k].1
    ensures !EndsToken(Runs(text, 0, delim), n, j)
  {
    var runs := Runs(text, 0, delim);
    if EndsToken(runs, n, j) {
      var m :| 0 <= m < n && m < |runs| && runs[m].1 == j;
      RunsSound(text, 0, delim, m);
      if m < k {
        RunsOrdered(text, 0, delim, m, k);
      } else if k < m {
        RunsOrdered(text, 0, delim, k, m);
      }
    }
  }

  /**
   The law of strtok. Calls on a text return, in order, exactly the maximal delimiter-free runs, then
   null for ever; each token reads as the text of its run, and only the one delimiter behind each
   token is overwritten.
   */
  lemma Tokenizes(text: seq<char>, delim: seq<char>, n: nat)
    requires NUL !in delim && NUL !in text
    ensures var (st, toks) := Calls(TokState(text + [NUL], 0), delim, n);
            Follows(text, text + [NUL], st.buf, Runs(text, 0, delim), n, toks)
    ensures var (st, toks) := Calls(TokState(text + [NUL], 0), delim, n);
            var runs := Runs(text, 0, delim);
            forall k | 0 <= k < n && k < |runs| ::
              ReadsAs(st.buf, toks[k], text, runs[k]) && MaximalRun(text, delim, runs[k])
  {
    var (st, toks) := Calls(TokState(text + [NUL], 0), delim, n);
    var runs := Runs(text, 0, delim);
    CallsFollowRuns(text, text + [NUL], 0, delim, n);
    forall k | 0 <= k < n && k < |runs|
      ensures ReadsAs(st.buf, toks[k], text, runs[k]) && MaximalRun(text, delim, runs[k])
    {
      RunsSound(text, 0, delim, k);
      TokenReads(text, delim, n, k, st.buf, toks);
    }
  }

  /** The C string at `start` is the text of the run. */
  ghost predicate ReadsAs(buf: seq<char>, start: int, text: seq<char>, run: (nat, nat)) {
    && start == run.0 <= run.1 <= |text| < |buf|
    && buf[run.0..run.1] == text[run.0..run.1] && buf[run.1] == NUL
  }

  lemma TokenReads(text: seq<char>, delim: seq<char>, n: nat, k: nat, buf: seq<char>, toks: seq<int>)
    requires NUL !in delim && NUL !in text
    requires k < n && k < |Runs(text, 0, delim)|
    requires Follows(text, text + [NUL], buf, Runs(text, 0, delim), n, toks)
    ensures ReadsAs(buf, toks[k], text, Runs(text, 0, delim)[k])
  {
    var runs := Runs(text, 0, delim);
    RunsSound(text, 0, delim, k);
    forall j | runs[k].0 <= j < runs[k].1 ensures buf[j] == text[j] {
      RunUncut(text, delim, n, k, j);
    }
    assert EndsToken(runs, n, runs[k].1);
  }
}
