/** huawei_secure_c/src/strtok_s.c, one call and a whole run of calls. */
module Strtok {
  import opened SecureMemory

  // ---------------------------------------------------------------- strings in memory

  /** There is a NUL at or after `p`. */
  predicate Terminated(m: seq<byte>, p: nat)
    decreases |m| - p
  {
    p < |m| && (m[p] == 0 || Terminated(m, p + 1))
  }

  /** The address of that NUL. */
  function End(m: seq<byte>, p: nat): (r: nat)
    requires Terminated(m, p)
    ensures p <= r < |m| && m[r] == 0 && forall k :: p <= k < r ==> m[k] != 0
    decreases |m| - p
  {
    if m[p] == 0 then p else End(m, p + 1)
  }

  /** The characters of the delimiter string. */
  function Chars(m: seq<byte>, p: nat): (r: set<byte>)
    requires Terminated(m, p)
    ensures forall c :: c in r <==> exists k :: p <= k < End(m, p) && m[k] == c
    decreases |m| - p
  {
    if m[p] == 0 then {} else
      var rest := Chars(m, p + 1);
      assert forall c :: c in rest + {m[p]} ==> exists k :: p <= k < End(m, p) && m[k] == c by {
        assert p < End(m, p);
      }
      rest + {m[p]}
  }

  /** Past the delimiters. */
  function SkipDelimiters(m: seq<byte>, p: nat, d: set<byte>): (r: nat)
    requires Terminated(m, p)
    ensures p <= r <= End(m, p) && Terminated(m, r) && End(m, r) == End(m, p)
    ensures forall k :: p <= k < r ==> m[k] in d
    ensures r < End(m, p) ==> m[r] !in d
    decreases |m| - p
  {
    if m[p] != 0 && m[p] in d then SkipDelimiters(m, p + 1, d) else p
  }

  /** Past everything else. */
  function SkipToken(m: seq<byte>, p: nat, d: set<byte>): (r: nat)
    requires Terminated(m, p)
    ensures p <= r <= End(m, p) && Terminated(m, r) && End(m, r) == End(m, p)
    ensures forall k :: p <= k < r ==> m[k] !in d
    ensures r < End(m, p) ==> m[r] in d
    decreases |m| - p
  {
    if m[p] != 0 && m[p] !in d then SkipToken(m, p + 1, d) else p
  }

  // ---------------------------------------------------------------- one call

  /** The inner loops: the first delimiter equal to the character, or the end of the delimiters. */
  method FindDelimiter(mem: array<byte>, token: nat, strDelimit: nat) returns (ctl: nat)
    requires Terminated(mem[..], strDelimit) && token < mem.Length && mem[token] != 0
    ensures ctl < mem.Length && (mem[ctl] != 0 <==> mem[token] in Chars(mem[..], strDelimit))
  {
    ctl := strDelimit;
    while mem[ctl] != 0 && mem[ctl] != mem[token]
      invariant ctl < mem.Length && Terminated(mem[..], ctl)
      invariant mem[token] in Chars(mem[..], strDelimit) <==> mem[token] in Chars(mem[..], ctl)
      decreases mem.Length - ctl
    {
      ctl := ctl + 1;
    }
  }

  method SecFindBegin(mem: array<byte>, strToken: nat, strDelimit: nat) returns (token: nat)
    requires Terminated(mem[..], strToken) && Terminated(mem[..], strDelimit)
    ensures token == SkipDelimiters(mem[..], strToken, Chars(mem[..], strDelimit))
  {
    token := strToken;
    while mem[token] != 0
      invariant Terminated(mem[..], token)
      invariant SkipDelimiters(mem[..], token, Chars(mem[..], strDelimit)) ==
        SkipDelimiters(mem[..], strToken, Chars(mem[..], strDelimit))
      decreases mem.Length - token
    {
      var ctl := FindDelimiter(mem, token, strDelimit);
      if mem[ctl] == 0 {
        break;
      }
      token := token + 1;
    }
  }

  /** The one byte written is the delimiter behind the token. */
  method SecFindRest(mem: array<byte>, strToken: nat, strDelimit: nat) returns (token: nat)
    requires Terminated(mem[..], strToken) && Terminated(mem[..], strDelimit)
    modifies mem
    ensures var e := old(SkipToken(mem[..], strToken, Chars(mem[..], strDelimit)));
      if old(mem[e]) == 0 then token == e && mem[..] == old(mem[..])
      else token == e + 1 && mem[..] == old(mem[..])[e := 0]
  {
    token := strToken;
    while mem[token] != 0
      invariant mem[..] == old(mem[..]) && Terminated(mem[..], token)
      invariant SkipToken(mem[..], token, Chars(mem[..], strDelimit)) ==
        SkipToken(mem[..], strToken, Chars(mem[..], strDelimit))
      decreases mem.Length - token
    {
      var ctl := FindDelimiter(mem, token, strDelimit);
      if mem[ctl] != 0 {
        mem[token] := 0;
        token := token + 1;
        return;
      }
      token := token + 1;
    }
  }

  /** What a call does to the memory and the position, and what it returns. */
  datatype Outcome = Outcome(m: seq<byte>, context: nat, result: Pointer)

  function Next(m: seq<byte>, p: nat, d: set<byte>): Outcome
    requires Terminated(m, p)
  {
    var b := SkipDelimiters(m, p, d);
    var e := SkipToken(m, b, d);
    if m[e] == 0 then Outcome(m, e, if e == b then NULL else Ptr(b))
    else Outcome(m[e := 0], e + 1, Ptr(b))
  }

  method SecUpdateToken(mem: array<byte>, strToken: nat, strDelimit: nat) returns (r: Pointer, context: Pointer)
    requires Terminated(mem[..], strToken) && Terminated(mem[..], strDelimit)
    modifies mem
    ensures var e := old(SkipToken(mem[..], strToken, Chars(mem[..], strDelimit)));
      if old(mem[e]) == 0
      then context == Ptr(e) && mem[..] == old(mem[..]) && r == (if e == strToken then NULL else Ptr(strToken))
      else context == Ptr(e + 1) && mem[..] == old(mem[..])[e := 0] && r == Ptr(strToken)
  {
    var token := SecFindRest(mem, strToken, strDelimit);
    context := Ptr(token);
    if token == strToken {
      return NULL, context;
    }
    return Ptr(strToken), context;
  }

  /** `context` None: the caller passed no place for it; otherwise what is stored there. */
  datatype Context = NoContext | Stored(p: Pointer)

  /** One step of the splitting from `p` on, with the delimiters at `q`. */
  ghost predicate Stepped(m: seq<byte>, m': seq<byte>, p: nat, q: nat, r: Pointer, context': Context)
    requires Terminated(m, p) && Terminated(m, q)
  {
    var o := Next(m, p, Chars(m, q));
    r == o.result && context' == Stored(Ptr(o.context)) && m' == o.m
  }

  /** A given string is split from its beginning, whatever was stored before; without one the
      splitting goes on from what was stored. */
  method strtok_s(mem: array<byte>, strToken: Pointer, strDelimit: Pointer, context: Context)
    returns (r: Pointer, context': Context)
    requires strDelimit.Ptr? && context.Stored? && strToken.Ptr? ==>
      Terminated(mem[..], strToken.addr) && Terminated(mem[..], strDelimit.addr)
    requires strDelimit.Ptr? && context.Stored? && strToken == NULL && context.p.Ptr? ==>
      Terminated(mem[..], context.p.addr) && Terminated(mem[..], strDelimit.addr)
    modifies mem
    ensures strDelimit == NULL || context.NoContext? || (strToken == NULL && context.p == NULL) ==>
      r == NULL && context' == context && mem[..] == old(mem[..])
    ensures strDelimit.Ptr? && context.Stored? && strToken.Ptr? ==>
      Stepped(old(mem[..]), mem[..], strToken.addr, strDelimit.addr, r, context')
    ensures strDelimit.Ptr? && context.Stored? && strToken == NULL && context.p.Ptr? ==>
      Stepped(old(mem[..]), mem[..], context.p.addr, strDelimit.addr, r, context')
  {
    hide Terminated, End, Chars, SkipDelimiters, SkipToken;
    var orgToken := strToken;
    if context.NoContext? || strDelimit == NULL {
      return NULL, context;
    }
    if orgToken == NULL && context.p == NULL {
      return NULL, context;
    }
    if orgToken == NULL {
      orgToken := context.p;
    }
    var begin := SecFindBegin(mem, orgToken.addr, strDelimit.addr);
    var stored;
    r, stored := SecUpdateToken(mem, begin, strDelimit.addr);
    context' := Stored(stored);
  }

  // ---------------------------------------------------------------- runs of characters

  datatype Span = Span(start: nat, end: nat)

  /** A longest stretch of the string without a delimiter. */
  predicate IsRun(m: seq<byte>, p: nat, d: set<byte>, t: Span)
    requires Terminated(m, p)
  {
    && p <= t.start < t.end <= End(m, p)
    && (forall k :: t.start <= k < t.end ==> m[k] !in d)
    && (t.start == p || m[t.start - 1] in d)
    && (t.end == End(m, p) || m[t.end] in d)
  }

  /** The runs in their order. */
  function Tokens(m: seq<byte>, p: nat, d: set<byte>): (r: seq<Span>)
    requires Terminated(m, p)
    decreases |m| - p
  {
    var b := SkipDelimiters(m, p, d);
    var e := SkipToken(m, b, d);
    if b == e then [] else [Span(b, e)] + if m[e] == 0 then [] else Tokens(m, e + 1, d)
  }

  /** The runs before `p` end before it. */
  lemma RunsFrom(m: seq<byte>, p: nat, d: set<byte>, t: Span)
    requires Terminated(m, p)
    ensures var b := SkipDelimiters(m, p, d); var e := SkipToken(m, b, d);
      IsRun(m, p, d, t) <==> b < e && (t == Span(b, e) || (m[e] != 0 && Terminated(m, e + 1) && IsRun(m, e + 1, d, t)))
  {
    hide SkipDelimiters, SkipToken;
    var b := SkipDelimiters(m, p, d);
    var e := SkipToken(m, b, d);
    if e < End(m, p) {
      EndAfter(m, p, e);
    }
    if IsRun(m, p, d, t) {
      RunStarts(m, p, d, t);
    }
  }

  lemma {:induction false} EndAfter(m: seq<byte>, p: nat, k: nat)
    requires Terminated(m, p) && p <= k < End(m, p)
    ensures Terminated(m, k + 1) && End(m, k + 1) == End(m, p)
    decreases k - p
  {
    if p < k {
      EndAfter(m, p + 1, k);
    }
  }

  /** A run starts at the first character that is no delimiter, or behind the delimiter that ends
      the first token. */
  lemma RunStarts(m: seq<byte>, p: nat, d: set<byte>, t: Span)
    requires Terminated(m, p) && IsRun(m, p, d, t)
    ensures var b := SkipDelimiters(m, p, d); var e := SkipToken(m, b, d);
      b < e && (t == Span(b, e) || (m[e] != 0 && t.start > e))
  {
    hide SkipDelimiters, SkipToken;
    var b := SkipDelimiters(m, p, d);
    var e := SkipToken(m, b, d);
    assert m[t.start] !in d;
  }

  /** Tokens lists exactly the longest stretches without a delimiter, from left to right. */
  lemma {:induction false} TokensAreRuns(m: seq<byte>, p: nat, d: set<byte>, t: Span)
    requires Terminated(m, p)
    ensures t in Tokens(m, p, d) <==> IsRun(m, p, d, t)
    decreases |m| - p
  {
    hide SkipDelimiters, SkipToken, IsRun, End, Terminated, Tokens;
    var b := SkipDelimiters(m, p, d);
    var e := SkipToken(m, b, d);
    RunsFrom(m, p, d, t);
    TokensSplit(m, p, d, b, e);
    if b < e && m[e] != 0 {
      EndAfter(m, p, e);
      TokensAreRuns(m, e + 1, d, t);
    }
  }

  /** Where the first token lies and what is left behind it. */
  lemma FirstToken(m: seq<byte>, p: nat, d: set<byte>) returns (b: nat, e: nat)
    requires Terminated(m, p)
    ensures b == SkipDelimiters(m, p, d) && e == SkipToken(m, b, d)
    ensures p <= b <= e <= End(m, p) && (m[e] == 0 <==> e == End(m, p))
    ensures b == e ==> m[e] == 0 && Tokens(m, p, d) == []
    ensures b < e && m[e] == 0 ==> Tokens(m, p, d) == [Span(b, e)]
    ensures e < End(m, p) ==> b < e && Terminated(m, e + 1) && End(m, e + 1) == End(m, p)
    ensures e < End(m, p) ==> Tokens(m, p, d) == [Span(b, e)] + Tokens(m, e + 1, d)
  {
    hide SkipDelimiters, SkipToken, End, Terminated, Tokens;
    b := SkipDelimiters(m, p, d);
    e := SkipToken(m, b, d);
    if e < End(m, p) {
      EndAfter(m, p, e);
    }
    TokensSplit(m, p, d, b, e);
  }

  lemma TokensSplit(m: seq<byte>, p: nat, d: set<byte>, b: nat, e: nat)
    requires Terminated(m, p) && b == SkipDelimiters(m, p, d) && e == SkipToken(m, b, d)
    ensures b == e ==> Tokens(m, p, d) == []
    ensures b < e && m[e] == 0 ==> Tokens(m, p, d) == [Span(b, e)]
    ensures b < e && m[e] != 0 ==> Terminated(m, e + 1) && Tokens(m, p, d) == [Span(b, e)] + Tokens(m, e + 1, d)
  {
    hide SkipDelimiters, SkipToken, End, Terminated;
    if m[e] != 0 {
      EndAfter(m, p, e);
    }
  }

  ghost predicate Ordered(ts: seq<Span>, p: nat, end: nat) {
    && (forall i :: 0 <= i < |ts| ==> p <= ts[i].start < ts[i].end <= end)
    && (forall i, j :: 0 <= i < j < |ts| ==> ts[i].end < ts[j].start)
  }

  lemma {:induction false} TokensOrdered(m: seq<byte>, p: nat, d: set<byte>)
    requires Terminated(m, p)
    ensures Ordered(Tokens(m, p, d), p, End(m, p))
    decreases |m| - p
  {
    hide SkipDelimiters, SkipToken, End, Terminated, Tokens;
    var b, e := FirstToken(m, p, d);
    if e < End(m, p) {
      TokensOrdered(m, e + 1, d);
      OneMoreOrdered(Span(b, e), Tokens(m, e + 1, d), p, End(m, p));
    }
  }

  lemma OneMoreOrdered(t: Span, ts: seq<Span>, p: nat, end: nat)
    requires Ordered(ts, t.end + 1, end) && p <= t.start < t.end <= end
    ensures Ordered([t] + ts, p, end)
  {
  }

  // ---------------------------------------------------------------- a whole run

  /** A string to be split and delimiters that are not part of it. */
  predicate Ready(m: seq<byte>, p: nat, q: nat) {
    Terminated(m, p) && Terminated(m, q) && (End(m, q) < p || End(m, p) < q)
  }

  /** The string at `p` is the same in both memories. */
  ghost predicate SameString(m: seq<byte>, m': seq<byte>, p: nat)
    requires Terminated(m, p)
  {
    |m'| == |m| && forall k :: p <= k <= End(m, p) ==> m'[k] == m[k]
  }

  lemma {:induction false} StringKept(m: seq<byte>, m': seq<byte>, p: nat)
    requires Terminated(m, p) && SameString(m, m', p)
    ensures Terminated(m', p) && End(m', p) == End(m, p) && Chars(m', p) == Chars(m, p)
    decreases |m| - p
  {
    if m[p] != 0 {
      StringKept(m, m', p + 1);
    }
  }

  lemma {:induction false} SkipsKept(m: seq<byte>, m': seq<byte>, p: nat, d: set<byte>)
    requires Terminated(m, p) && SameString(m, m', p)
    ensures Terminated(m', p) && SkipDelimiters(m', p, d) == SkipDelimiters(m, p, d)
    ensures SkipToken(m', p, d) == SkipToken(m, p, d)
    decreases |m| - p
  {
    if m[p] != 0 {
      SkipsKept(m, m', p + 1, d);
    }
  }

  lemma {:induction false} TokensKept(m: seq<byte>, m': seq<byte>, p: nat, d: set<byte>)
    requires Terminated(m, p) && SameString(m, m', p)
    ensures Terminated(m', p) && Tokens(m', p, d) == Tokens(m, p, d)
    decreases |m| - p
  {
    hide SkipDelimiters, SkipToken, Chars, Terminated, End, Tokens;
    StringKept(m, m', p);
    SkipsKept(m, m', p, d);
    var b, e := FirstToken(m, p, d);
    SkipsKept(m, m', b, d);
    var b', e' := FirstToken(m', p, d);
    if e < End(m, p) {
      TokensKept(m, m', e + 1, d);
    }
  }

  /** What a call leaves behind: a string to be split, the same delimiters, and the tokens but the
      first. */
  ghost predicate Left(m: seq<byte>, p: nat, q: nat, o: Outcome)
    requires Ready(m, p, q)
  {
    var d := Chars(m, q);
    var ts := Tokens(m, p, d);
    && |o.m| == |m| && Ready(o.m, o.context, q) && Chars(o.m, q) == d
    && o.result == (if ts == [] then NULL else Ptr(ts[0].start))
    && (ts == [] ==> o.m == m && Tokens(o.m, o.context, d) == [])
    && (ts != [] ==> ts[0].end < |m| && o.m == m[ts[0].end := 0] && Tokens(o.m, o.context, d) == ts[1..])
  }

  lemma NextKeeps(m: seq<byte>, p: nat, q: nat)
    requires Ready(m, p, q)
    ensures Left(m, p, q, Next(m, p, Chars(m, q)))
  {
    hide Left, Chars, Tokens, SkipDelimiters, SkipToken, End, Terminated;
    var d := Chars(m, q);
    var b, e := FirstToken(m, p, d);
    if m[e] == 0 {
      NextAtEnd(m, p, q, b, e);
    } else {
      NextInside(m, p, q, b, e);
    }
  }

  lemma NextAtEnd(m: seq<byte>, p: nat, q: nat, b: nat, e: nat)
    requires Ready(m, p, q) && p <= b <= e == End(m, p)
    requires Tokens(m, p, Chars(m, q)) == if b == e then [] else [Span(b, e)]
    ensures Left(m, p, q, Outcome(m, e, if e == b then NULL else Ptr(b)))
  {
    hide Chars, Tokens, Terminated, End;
    AtEnd(m, p, Chars(m, q));
    assert m[e := 0] == m;
  }

  lemma NextInside(m: seq<byte>, p: nat, q: nat, b: nat, e: nat)
    requires Ready(m, p, q) && p <= b < e < End(m, p)
    requires Terminated(m, e + 1) && End(m, e + 1) == End(m, p)
    requires Tokens(m, p, Chars(m, q)) == [Span(b, e)] + Tokens(m, e + 1, Chars(m, q))
    ensures Left(m, p, q, Outcome(m[e := 0], e + 1, Ptr(b)))
  {
    hide Chars, Tokens, Terminated, End;
    var m', d := m[e := 0], Chars(m, q);
    StringKept(m, m', q);
    StringKept(m, m', e + 1);
    TokensKept(m, m', e + 1, d);
    assert ([Span(b, e)] + Tokens(m, e + 1, d))[1..] == Tokens(m, e + 1, d);
  }

  lemma AtEnd(m: seq<byte>, p: nat, d: set<byte>)
    requires Terminated(m, p)
    ensures Terminated(m, End(m, p)) && End(m, End(m, p)) == End(m, p) && Tokens(m, End(m, p), d) == []
  {
    NoTokens(m, End(m, p), d);
  }

  lemma NoTokens(m: seq<byte>, p: nat, d: set<byte>)
    requires p < |m| && m[p] == 0
    ensures Terminated(m, p) && Tokens(m, p, d) == [] && End(m, p) == p
  {
  }

  datatype Position = Position(m: seq<byte>, p: nat)

  /** The memory and the stored position after `n` calls. */
  function After(m: seq<byte>, p: nat, q: nat, n: nat): (r: Position)
    requires Ready(m, p, q)
    ensures Ready(r.m, r.p, q)
    decreases n
  {
    if n == 0 then Position(m, p)
    else
      NextKeeps(m, p, q);
      var o := Next(m, p, Chars(m, q));
      After(o.m, o.context, q, n - 1)
  }

  /** What call number `n` returns; the first call is number 0. */
  function Returned(m: seq<byte>, p: nat, q: nat, n: nat): Pointer
    requires Ready(m, p, q)
  {
    var s := After(m, p, q, n);
    Next(s.m, s.p, Chars(s.m, q)).result
  }

  /** Each call starts from where the call before it stopped. */
  lemma {:induction false} AfterNext(m: seq<byte>, p: nat, q: nat, n: nat)
    requires Ready(m, p, q)
    ensures var s := After(m, p, q, n);
      var o := Next(s.m, s.p, Chars(s.m, q));
      After(m, p, q, n + 1) == Position(o.m, o.context)
    decreases n
  {
    hide Chars, Next, Terminated, End;
    NextKeeps(m, p, q);
    var o := Next(m, p, Chars(m, q));
    if n > 0 {
      AfterNext(o.m, o.context, q, n - 1);
    }
  }

  predicate EndsToken(ts: seq<Span>, n: nat, k: nat) {
    exists i :: 0 <= i < n && i < |ts| && ts[i].end == k
  }

  /** Call `n` returns token `n`, and NULL once there are no more; the only bytes that `n` calls
      have changed are the ends of the first `n` tokens. */
  lemma {:induction false} WholeRun(m: seq<byte>, p: nat, q: nat, n: nat)
    requires Ready(m, p, q)
    ensures var ts := Tokens(m, p, Chars(m, q));
      && Returned(m, p, q, n) == (if n < |ts| then Ptr(ts[n].start) else NULL)
      && |After(m, p, q, n).m| == |m|
      && forall k: nat :: k < |m| ==> After(m, p, q, n).m[k] == if EndsToken(ts, n, k) then 0 else m[k]
    decreases n
  {
    hide Next, Terminated, End, Chars, Tokens, EndsToken;
    NextKeeps(m, p, q);
    var d := Chars(m, q);
    var ts, o := Tokens(m, p, d), Next(m, p, d);
    if n == 0 {
      NoneEnded(ts, n);
    } else {
      WholeRun(o.m, o.context, q, n - 1);
      OneMoreEnded(ts, n);
      NoneEnded([], n - 1);
    }
  }

  lemma NoneEnded(ts: seq<Span>, n: nat)
    requires n == 0 || ts == []
    ensures forall k: nat :: !EndsToken(ts, n, k)
  {
  }

  lemma OneMoreEnded(ts: seq<Span>, n: nat)
    requires n > 0
    ensures forall k: nat :: EndsToken(ts, n, k) <==> ts != [] && (ts[0].end == k || EndsToken(ts[1..], n - 1, k))
  {
    forall k: nat ensures EndsToken(ts, n, k) <==> ts != [] && (ts[0].end == k || EndsToken(ts[1..], n - 1, k)) {
      if ts != [] && EndsToken(ts[1..], n - 1, k) {
        var i :| 0 <= i < n - 1 && i < |ts[1..]| && ts[1..][i].end == k;
        assert ts[i + 1].end == k;
      }
      if EndsToken(ts, n, k) && ts[0].end != k {
        var i :| 0 <= i < n && i < |ts| && ts[i].end == k;
        assert ts[1..][i - 1].end == k;
      }
    }
  }

  /** The use that strtok_s is for: one call with the string, whatever the context held, and `n` calls
      with NULL.  They return the tokens in their order, and NULL from the last on. */
  method Split(mem: array<byte>, strToken: nat, strDelimit: nat, before: Pointer, n: nat)
    returns (tokens: seq<Pointer>, context: Context)
    requires Ready(mem[..], strToken, strDelimit)
    modifies mem
    ensures |tokens| == n + 1
    ensures var ts := old(Tokens(mem[..], strToken, Chars(mem[..], strDelimit)));
      && (forall i :: 0 <= i <= n ==> tokens[i] == if i < |ts| then Ptr(ts[i].start) else NULL)
      && (forall k: nat :: k < mem.Length ==> mem[k] == if EndsToken(ts, n + 1, k) then 0 else old(mem[k]))
  {
    hide Terminated, End, Chars, Next, Tokens, EndsToken, After;
    ghost var m, p, q := mem[..], strToken, strDelimit;
    var r;
    r, context := strtok_s(mem, Ptr(strToken), Ptr(strDelimit), Stored(before));
    AfterFirst(m, p, q);
    tokens := [r];
    var i := 0;
    while i < n
      invariant 0 <= i <= n && |tokens| == i + 1
      invariant mem[..] == After(m, p, q, i + 1).m && context == Stored(Ptr(After(m, p, q, i + 1).p))
      invariant forall k :: 0 <= k <= i ==> tokens[k] == Returned(m, p, q, k)
    {
      AfterNext(m, p, q, i + 1);
      r, context := strtok_s(mem, NULL, Ptr(strDelimit), context);
      tokens := tokens + [r];
      i := i + 1;
    }
    ghost var ts := Tokens(m, p, Chars(m, q));
    forall k: nat | k <= n ensures Returned(m, p, q, k) == if k < |ts| then Ptr(ts[k].start) else NULL {
      WholeRun(m, p, q, k);
    }
    WholeRun(m, p, q, n + 1);
  }

  lemma AfterFirst(m: seq<byte>, p: nat, q: nat)
    requires Ready(m, p, q)
    ensures After(m, p, q, 0) == Position(m, p)
    ensures var o := Next(m, p, Chars(m, q));
      After(m, p, q, 1) == Position(o.m, o.context) && Returned(m, p, q, 0) == o.result
  {
    AfterNext(m, p, q, 0);
  }

  /** A token once returned stays a terminated string with its own text, however many calls follow. */
  lemma TokenStays(m: seq<byte>, p: nat, q: nat, i: nat, n: nat)
    requires Ready(m, p, q) && i < |Tokens(m, p, Chars(m, q))| && i < n
    ensures var t := Tokens(m, p, Chars(m, q))[i];
      && p <= t.start < t.end < |m| == |After(m, p, q, n).m|
      && After(m, p, q, n).m[t.start..t.end] == m[t.start..t.end]
      && Terminated(After(m, p, q, n).m, t.start) && End(After(m, p, q, n).m, t.start) == t.end
  {
    hide Chars, Tokens, After, Returned;
    var ts := Tokens(m, p, Chars(m, q));
    var t, r := ts[i], After(m, p, q, n).m;
    WholeRun(m, p, q, n);
    TokensOrdered(m, p, Chars(m, q));
    assert EndsToken(ts, n, t.end);
    forall k | t.start <= k < t.end ensures r[k] == m[k] && r[k] != 0 {
      assert !EndsToken(ts, n, k);
    }
    EndIs(r, t.start, t.end);
  }

  lemma {:induction false} EndIs(m: seq<byte>, p: nat, e: nat)
    requires p <= e < |m| && m[e] == 0 && forall k :: p <= k < e ==> m[k] != 0
    ensures Terminated(m, p) && End(m, p) == e
    decreases e - p
  {
    if p < e {
      EndIs(m, p + 1, e);
    }
  }
}
