/** The functions of scan.go that look at all tokens of a text: counting statements, and the last token. */
module Statements {
  import opened Bytes
  import opened Names
  import opened Octets
  import opened Scanner
  import opened Scanning
  import opened Slices
  import opened Tokens

  const SEMICOLON := ';' as int

  /** All tokens from position i to the end of the input. */
  ghost function Stream(lib: Library, s: Text, i: nat): seq<Token>
    requires i <= |s|
    decreases |s| - i
  {
    match SkipAll(s, i)
    case Bad(_) => [Failed(ERR_COMMENT, |s|)]
    case At(j) =>
      if j == |s| then []
      else
        Progress(lib, s, j);
        [TokenAt(lib, s, j)] + Stream(lib, s, TokenAt(lib, s, j).end)
  }

  /** The id 0 is taken for the end of the input. */
  function UpToZero(ts: seq<Token>): (us: seq<Token>)
    ensures forall k :: 0 <= k < |us| ==> us[k].id != 0
  {
    if ts == [] || ts[0].id == 0 then [] else [ts[0]] + UpToZero(ts[1..])
  }

  ghost function Seen(lib: Library, s: Text, i: nat): (ts: seq<Token>)
    requires i <= |s|
  {
    UpToZero(Stream(lib, s, i))
  }

  // Statements.

  /** The number of tokens before the first semicolon. */
  function RunEnd(ts: seq<Token>): (n: nat)
    ensures n <= |ts|
  {
    if ts == [] || ts[0].id == SEMICOLON then 0 else 1 + RunEnd(ts[1..])
  }

  /** The statements are the tokens between semicolons, as long as there are any. */
  function StatementsOf(ts: seq<Token>): seq<seq<Token>>
    decreases |ts|
  {
    if ts == [] then []
    else if ts[0].id == SEMICOLON then StatementsOf(ts[1..])
    else [ts[..RunEnd(ts)]] + StatementsOf(ts[RunEnd(ts)..])
  }

  predicate HasError(ts: seq<Token>) {
    exists k :: 0 <= k < |ts| && ts[k].id == ERROR
  }

  /** The text of the first error. */
  function FirstError(ts: seq<Token>): Text
    requires HasError(ts)
  {
    if ts[0].id == ERROR then ts[0].str else FirstError(ts[1..])
  }

  predicate NoSemicolon(ts: seq<Token>) {
    forall k :: 0 <= k < |ts| ==> ts[k].id != SEMICOLON
  }

  lemma {:induction false} RunBefore(run: seq<Token>, ts: seq<Token>)
    requires NoSemicolon(run)
    ensures RunEnd(run + ts) == |run| + RunEnd(ts)
    decreases |run|
  {
    if run == [] {
      NothingAround(ts);
    } else {
      assert (run + ts)[1..] == run[1..] + ts;
      RunBefore(run[1..], ts);
    }
  }

  /** A run of tokens up to a semicolon or the end is the first statement. */
  lemma FirstStatement(run: seq<Token>, ts: seq<Token>)
    requires run != [] && NoSemicolon(run) && (ts == [] || ts[0].id == SEMICOLON)
    ensures StatementsOf(run + ts) == [run] + StatementsOf(ts)
  {
    RunBefore(run, ts);
    assert (run + ts)[..|run|] == run && (run + ts)[|run|..] == ts;
  }

  lemma {:induction false} ErrorBehind(run: seq<Token>, t: Token, ts: seq<Token>)
    requires !HasError(run) && t.id == ERROR
    ensures HasError(run + [t] + ts) && FirstError(run + [t] + ts) == t.str
    decreases |run|
  {
    var whole := run + [t] + ts;
    assert whole[|run|] == t;
    if run != [] {
      assert whole[1..] == run[1..] + [t] + ts;
      ErrorBehind(run[1..], t, ts);
    }
  }

  lemma OneToken(t: Token)
    requires t.id != 0
    ensures UpToZero([t]) == [t]
  {
    assert [t][1..] == [] && UpToZero([]) == [];
  }

  lemma NextSeen(lib: Library, s: Text, i: nat)
    requires i <= |s|
    ensures match SkipAll(s, i)
            case Bad(_) => Seen(lib, s, i) == [Failed(ERR_COMMENT, |s|)] && Seen(lib, s, |s|) == []
            case At(j) =>
              var t := TokenAt(lib, s, j);
              if t.id == 0 then Seen(lib, s, i) == []
              else j < t.end <= |s| && Seen(lib, s, i) == [t] + Seen(lib, s, t.end)
  {
    match SkipAll(s, i)
    case Bad(_) =>
      assert SkipAll(s, |s|) == At(|s|);
      OneToken(Failed(ERR_COMMENT, |s|));
    case At(j) =>
      if j < |s| {
        Progress(lib, s, j);
        assert Stream(lib, s, i)[1..] == Stream(lib, s, TokenAt(lib, s, j).end);
      }
  }

  ghost predicate Shown(lval: Sym, t: Token)
    reads lval
  {
    lval.id == t.id && lval.str == t.str
  }

  /** What the scanner does in front of the tokens that it has seen. */
  method NextToken(s: Scanner, lval: Sym)
    requires s.Valid()
    modifies s`pos, lval
    ensures s.Valid()
    ensures var ts := Seen(s.lib, s.input, old(s.pos));
            if ts == [] then lval.id == 0
            else lval.id != 0 && Shown(lval, ts[0]) && Seen(s.lib, s.input, s.pos) == ts[1..]
    ensures old(s.pos) <= s.pos && (lval.id != 0 ==> old(s.pos) < s.pos)
  {
    NextSeen(s.lib, s.input, s.pos);
    s.Scan(lval);
  }

  /** The next statement: whether the input is done, whether there were tokens, and the first error. */
  method ScanOne(s: Scanner, lval: Sym) returns (done: bool, hasToks: bool, err: Option<Text>)
    requires s.Valid()
    modifies s`pos, lval
    ensures s.Valid()
    ensures var st := StatementsOf(Seen(s.lib, s.input, old(s.pos)));
            if st == [] then done && !hasToks && err == None
            else hasToks && if HasError(st[0]) then err == Some(FirstError(st[0]))
            else err == None && if done then |st| == 1 else StatementsOf(Seen(s.lib, s.input, s.pos)) == st[1..]
    ensures !done ==> old(s.pos) < s.pos
  {
    ghost var all := StatementsOf(Seen(s.lib, s.input, s.pos));
    while true
      invariant s.Valid() && old(s.pos) <= s.pos && StatementsOf(Seen(s.lib, s.input, s.pos)) == all
      decreases |s.input| - s.pos
    {
      ghost var ts := Seen(s.lib, s.input, s.pos);
      NextToken(s, lval);
      if lval.id == 0 { return true, false, None; }
      if lval.id != SEMICOLON {
        done, err := ScanRest(s, lval, ts);
        return done, true, err;
      }
    }
  }

  /** The rest of a statement whose first token has been read. */
  method ScanRest(s: Scanner, lval: Sym, ghost ts: seq<Token>) returns (done: bool, err: Option<Text>)
    requires s.Valid() && ts != [] && Shown(lval, ts[0]) && ts[0].id != SEMICOLON
    requires Seen(s.lib, s.input, s.pos) == ts[1..]
    modifies s`pos, lval
    ensures s.Valid() && old(s.pos) <= s.pos
    ensures var st := StatementsOf(ts);
            st != [] && if HasError(st[0]) then err == Some(FirstError(st[0]))
            else err == None && if done then |st| == 1 else StatementsOf(Seen(s.lib, s.input, s.pos)) == st[1..]
  {
    ghost var run, last := [], ts[0];
    while true
      invariant s.Valid() && old(s.pos) <= s.pos && Shown(lval, last)
      invariant InStatement(ts, run, last, Seen(s.lib, s.input, s.pos))
      decreases |s.input| - s.pos
    {
      ghost var rest := Seen(s.lib, s.input, s.pos);
      if lval.id == ERROR {
        StopsAtError(ts, run, last, rest);
        return true, Some(lval.str);
      }
      NextToken(s, lval);
      if lval.id == 0 || lval.id == SEMICOLON {
        StatementEnds(ts, run, last, rest);
        return lval.id == 0, None;
      }
      StatementGoesOn(ts, run, last, rest);
      run, last := run + [last], rest[0];
    }
  }

  /** The tokens read of a statement, and what is left. */
  ghost predicate InStatement(ts: seq<Token>, run: seq<Token>, last: Token, rest: seq<Token>) {
    ts == run + [last] + rest && NoSemicolon(run + [last]) && !HasError(run)
  }

  lemma StatementGoesOn(ts: seq<Token>, run: seq<Token>, last: Token, rest: seq<Token>)
    requires InStatement(ts, run, last, rest) && last.id != ERROR && rest != [] && rest[0].id != SEMICOLON
    ensures InStatement(ts, run + [last], rest[0], rest[1..])
  {
    NoErrorYet(run, last);
    assert rest == [rest[0]] + rest[1..];
    Associate(run + [last], [rest[0]], rest[1..]);
  }

  lemma StatementEnds(ts: seq<Token>, run: seq<Token>, last: Token, rest: seq<Token>)
    requires InStatement(ts, run, last, rest) && last.id != ERROR && (rest == [] || rest[0].id == SEMICOLON)
    ensures var st := StatementsOf(ts);
            st != [] && !HasError(st[0]) && st[1..] == if rest == [] then [] else StatementsOf(rest[1..])
  {
    NoErrorYet(run, last);
    FirstStatement(run + [last], rest);
  }

  lemma StopsAtError(ts: seq<Token>, run: seq<Token>, last: Token, rest: seq<Token>)
    requires InStatement(ts, run, last, rest) && last.id == ERROR
    ensures var st := StatementsOf(ts); st != [] && HasError(st[0]) && FirstError(st[0]) == last.str
  {
    RunBefore(run + [last], rest);
    assert ts[..RunEnd(ts)] == run + [last] + rest[..RunEnd(rest)];
    ErrorBehind(run, last, rest[..RunEnd(rest)]);
    assert ts[0] == (run + [last])[0];
  }

  lemma NoErrorYet(run: seq<Token>, last: Token)
    requires !HasError(run) && last.id != ERROR
    ensures !HasError(run + [last])
  {
    forall k | 0 <= k < |run + [last]| ensures (run + [last])[k].id != ERROR {
      assert k < |run| ==> run[k].id != ERROR;
    }
  }

  /** Whether there is more than one statement, or the first error in the first two. */
  function Verdict(st: seq<seq<Token>>): Result<bool, Text> {
    if st != [] && HasError(st[0]) then Err(FirstError(st[0]))
    else if |st| > 1 && HasError(st[1]) then Err(FirstError(st[1]))
    else Ok(|st| > 1)
  }

  /** There are tokens on both sides of a semicolon. */
  ghost predicate Several(ts: seq<Token>) {
    exists i, j, k :: 0 <= i < j < k < |ts| && Separated(ts, i, j, k)
  }

  predicate Separated(ts: seq<Token>, i: nat, j: nat, k: nat)
    requires i < |ts| && j < |ts| && k < |ts|
  {
    ts[i].id != SEMICOLON && ts[j].id == SEMICOLON && ts[k].id != SEMICOLON
  }

  lemma {:induction false} AnyStatement(ts: seq<Token>)
    ensures StatementsOf(ts) != [] <==> exists k :: 0 <= k < |ts| && ts[k].id != SEMICOLON
    decreases |ts|
  {
    if ts != [] && ts[0].id == SEMICOLON {
      AnyStatement(ts[1..]);
      forall k | 0 <= k < |ts| && ts[k].id != SEMICOLON ensures StatementsOf(ts) != [] {
        assert ts[1..][k - 1] == ts[k];
      }
    }
  }

  lemma BeforeRunEnd(ts: seq<Token>, j: nat)
    requires j < |ts| && ts[j].id == SEMICOLON
    ensures RunEnd(ts) <= j
  {
    if j > 0 && ts[0].id != SEMICOLON { BeforeRunEnd(ts[1..], j - 1); }
  }

  lemma {:induction false} InRun(ts: seq<Token>, k: nat)
    requires k < RunEnd(ts)
    ensures ts[k].id != SEMICOLON
  {
    if k > 0 { InRun(ts[1..], k - 1); }
  }

  lemma {:induction false} BehindRun(ts: seq<Token>)
    requires RunEnd(ts) < |ts|
    ensures ts[RunEnd(ts)].id == SEMICOLON
  {
    if ts[0].id != SEMICOLON { BehindRun(ts[1..]); }
  }

  lemma AtRunEnd(ts: seq<Token>)
    ensures RunEnd(ts) < |ts| ==> ts[RunEnd(ts)].id == SEMICOLON
    ensures NoSemicolon(ts[..RunEnd(ts)])
  {
    var run := ts[..RunEnd(ts)];
    forall k | 0 <= k < |run| ensures run[k].id != SEMICOLON { InRun(ts, k); }
    if RunEnd(ts) < |ts| { BehindRun(ts); }
  }

  lemma SeveralShifted(ts: seq<Token>)
    requires ts != [] && ts[0].id == SEMICOLON
    ensures Several(ts) <==> Several(ts[1..])
  {
    if Several(ts[1..]) {
      var i, j, k :| 0 <= i < j < k < |ts[1..]| && Separated(ts[1..], i, j, k);
      assert Separated(ts, i + 1, j + 1, k + 1);
    }
    if Several(ts) {
      var i, j, k :| 0 <= i < j < k < |ts| && Separated(ts, i, j, k);
      assert Separated(ts[1..], i - 1, j - 1, k - 1);
    }
  }

  lemma SeveralBehindRun(ts: seq<Token>, n: nat)
    requires ts != [] && ts[0].id != SEMICOLON && n == RunEnd(ts)
    ensures Several(ts) <==> exists k :: 0 <= k < |ts[n..]| && ts[n..][k].id != SEMICOLON
  {
    AtRunEnd(ts);
    var rest := ts[n..];
    if k :| 0 <= k < |rest| && rest[k].id != SEMICOLON {
      assert Separated(ts, 0, n, n + k);
    }
    if Several(ts) {
      var i, j, k :| 0 <= i < j < k < |ts| && Separated(ts, i, j, k);
      BeforeRunEnd(ts, j);
      assert rest[k - n] == ts[k];
    }
  }

  /** More than one statement is what has a semicolon between two tokens. */
  lemma {:induction false} SeveralIff(ts: seq<Token>)
    ensures |StatementsOf(ts)| > 1 <==> Several(ts)
    decreases |ts|
  {
    if ts != [] && ts[0].id == SEMICOLON {
      SeveralShifted(ts);
      SeveralIff(ts[1..]);
    } else if ts != [] {
      SeveralBehindRun(ts, RunEnd(ts));
      AnyStatement(ts[RunEnd(ts)..]);
    }
  }

  lemma {:induction false} NoErrorInside(ts: seq<Token>)
    requires !HasError(ts)
    ensures forall st :: st in StatementsOf(ts) ==> !HasError(st)
    decreases |ts|
  {
    if ts != [] {
      var n := if ts[0].id == SEMICOLON then 1 else RunEnd(ts);
      assert forall k :: 0 <= k < |ts[n..]| ==> ts[n..][k] == ts[n + k];
      NoErrorInside(ts[n..]);
    }
  }

  /** The first statement with an error is the last one of the first m. */
  ghost predicate IsFirstBad(st: seq<seq<Token>>, m: nat, message: Text) {
    && 0 < m <= |st| && HasError(st[m - 1]) && FirstError(st[m - 1]) == message
    && forall q :: 0 <= q < m - 1 ==> !HasError(st[q])
  }

  lemma OneMoreStatement(run: seq<Token>, st: seq<seq<Token>>, m: nat, message: Text)
    requires !HasError(run) && IsFirstBad(st, m, message)
    ensures IsFirstBad([run] + st, m + 1, message)
  {}

  /** The statement with the first error is the last one up to it. */
  lemma {:induction false} FirstBad(ts: seq<Token>, e: nat)
    requires e < |ts| && ts[e].id == ERROR && !HasError(ts[..e])
    ensures IsFirstBad(StatementsOf(ts), |StatementsOf(ts[..e + 1])|, ts[e].str)
    decreases |ts|
  {
    var n := if ts[0].id == SEMICOLON then 1 else RunEnd(ts);
    AtRunEnd(ts);
    if ts[0].id != SEMICOLON && e < n {
      BadRun(ts, e, n);
    } else {
      assert ts[..e + 1][n..] == ts[n..][..e - n + 1];
      NoErrorBehind(ts, e, n);
      FirstBad(ts[n..], e - n);
      if ts[0].id != SEMICOLON {
        assert ts[..e + 1][..n] == ts[..n];
        GoodRun(ts[..e + 1], n);
        NoErrorBefore(ts, e, n);
        OneMoreStatement(ts[..n], StatementsOf(ts[n..]), |StatementsOf(ts[n..][..e - n + 1])|, ts[e].str);
      }
    }
  }

  lemma NoErrorBehind(ts: seq<Token>, e: nat, n: nat)
    requires n <= e < |ts| && !HasError(ts[..e])
    ensures !HasError(ts[n..][..e - n])
  {
    var rest := ts[n..][..e - n];
    forall k | 0 <= k < |rest| ensures rest[k].id != ERROR { assert ts[..e][n + k] == rest[k]; }
  }

  lemma BadRun(ts: seq<Token>, e: nat, n: nat)
    requires e < n == RunEnd(ts) && NoSemicolon(ts[..n]) && ts[e].id == ERROR && !HasError(ts[..e])
    ensures StatementsOf(ts[..e + 1]) == [ts[..e + 1]]
    ensures HasError(ts[..n]) && FirstError(ts[..n]) == ts[e].str
  {
    var head := ts[..e + 1];
    forall k | 0 <= k < |head| ensures head[k].id != SEMICOLON { assert ts[..n][k] == head[k]; }
    NothingAround(head);
    FirstStatement(head, []);
    ErrorBehind(ts[..e], ts[e], ts[e + 1..n]);
    assert ts[..e] + [ts[e]] + ts[e + 1..n] == ts[..n];
  }

  lemma GoodRun(whole: seq<Token>, n: nat)
    requires 0 < n < |whole| && NoSemicolon(whole[..n]) && whole[n].id == SEMICOLON
    ensures StatementsOf(whole) == [whole[..n]] + StatementsOf(whole[n..])
  {
    var run, rest := whole[..n], whole[n..];
    assert run + rest == whole;
    FirstStatement(run, rest);
  }

  lemma NoErrorBefore(ts: seq<Token>, e: nat, n: nat)
    requires n <= e < |ts| && !HasError(ts[..e])
    ensures !HasError(ts[..n])
  {
    var run := ts[..n];
    forall k | 0 <= k < |run| ensures run[k].id != ERROR { assert ts[..e][k] == run[k]; }
  }

  /** Without an error the tokens around a semicolon decide. */
  lemma VerdictWithoutError(ts: seq<Token>)
    requires !HasError(ts)
    ensures Verdict(StatementsOf(ts)) == Ok(Several(ts))
  {
    SeveralIff(ts);
    NoErrorInside(ts);
  }

  /** An error is reported if and only if at most two statements have begun with it. */
  lemma VerdictAtError(ts: seq<Token>, e: nat)
    requires e < |ts| && ts[e].id == ERROR && !HasError(ts[..e])
    ensures Verdict(StatementsOf(ts)) == if |StatementsOf(ts[..e + 1])| <= 2 then Err(ts[e].str) else Ok(true)
  {
    FirstBad(ts, e);
  }

  method HasMultipleStatements(lib: Library, sql: Text) returns (r: Result<bool, Text>)
    ensures r == Verdict(StatementsOf(Seen(lib, sql, 0)))
  {
    var s := new Scanner.Init(sql, lib);
    var lval := new Sym();
    ghost var st := StatementsOf(Seen(lib, sql, 0));
    var count := 0;
    while true
      invariant s.Valid() && s.lib == lib && s.input == sql && 0 <= count <= 1 && count <= |st|
      invariant StatementsOf(Seen(lib, sql, s.pos)) == st[count..]
      invariant count == 1 ==> !HasError(st[0])
      decreases |sql| - s.pos
    {
      var done, hasToks, err := ScanOne(s, lval);
      if err.Some? { return Err(err.value); }
      if hasToks { count := count + 1; }
      if done || count > 1 { break; }
    }
    r := Ok(count > 1);
  }

  /** The id of the last token, if there is one. */
  method LastLexicalToken(lib: Library, sql: Text) returns (lastTok: int, ok: bool)
    ensures var ts := Seen(lib, sql, 0);
            if ts == [] then lastTok == 0 && !ok else lastTok == ts[|ts| - 1].id && ok
  {
    var s := new Scanner.Init(sql, lib);
    var lval := new Sym();
    ghost var ts := Seen(lib, sql, 0);
    ghost var n := 0;
    while true
      invariant s.Valid() && s.lib == lib && s.input == sql && 0 <= n <= |ts|
      invariant Seen(lib, sql, s.pos) == ts[n..] && lval.id == if n == 0 then 0 else ts[n - 1].id
      decreases |ts| - n
    {
      var last := lval.id;
      NextToken(s, lval);
      if lval.id == 0 { return last, last != 0; }
      n := n + 1;
    }
  }

  // What a NUL byte does.

  /** Without NUL bytes all tokens are seen. */
  lemma {:induction false} AllSeen(lib: Library, s: Text, i: nat)
    requires i <= |s| && lib.Valid() && NUL !in s
    ensures Seen(lib, s, i) == Stream(lib, s, i)
    decreases |s| - i
  {
    match SkipAll(s, i)
    case Bad(_) => OneToken(Failed(ERR_COMMENT, |s|));
    case At(j) =>
      ZeroId(lib, s, j);
      if j < |s| {
        Progress(lib, s, j);
        AllSeen(lib, s, TokenAt(lib, s, j).end);
        assert Stream(lib, s, i)[1..] == Stream(lib, s, TokenAt(lib, s, j).end);
      }
  }

  lemma CharStream(lib: Library, s: Text, i: nat)
    requires i < |s| && (s[i] == '(' || s[i] == ';' || s[i] == NUL)
    ensures Stream(lib, s, i) == [Token(s[i] as int, [s[i]], NoValue, i + 1)] + Stream(lib, s, i + 1)
  {
    CharToken(lib, s, i);
  }

  lemma CharToken(lib: Library, s: Text, i: nat)
    requires i < |s| && (s[i] == '(' || s[i] == ';' || s[i] == NUL)
    ensures SkipAll(s, i) == At(i) && TokenAt(lib, s, i) == Token(s[i] as int, [s[i]], NoValue, i + 1)
  {
    assert LongestOperator(s, i) == (s[i] as int, 1);
  }

  /** A NUL byte between tokens hides the statement behind it. */
  lemma NulHidesStatement(lib: Library, s: Text)
    requires s == ['(', ';', NUL, '(']
    ensures |StatementsOf(Stream(lib, s, 0))| == 2 && Verdict(StatementsOf(Seen(lib, s, 0))) == Ok(false)
  {
    var p, semicolon := Token('(' as int, "(", NoValue, 1), Token(SEMICOLON, ";", NoValue, 2);
    var nul, q := Token(0, [NUL], NoValue, 3), Token('(' as int, "(", NoValue, 4);
    FourTokens(lib, s, p, semicolon, nul, q);
    TwoStatements(p, semicolon, nul, q);
    OneSeen(p, semicolon, nul, q);
  }

  lemma FourTokens(lib: Library, s: Text, p: Token, semicolon: Token, nul: Token, q: Token)
    requires s == ['(', ';', NUL, '('] && p == Token('(' as int, "(", NoValue, 1)
    requires semicolon == Token(SEMICOLON, ";", NoValue, 2) && nul == Token(0, [NUL], NoValue, 3)
    requires q == Token('(' as int, "(", NoValue, 4)
    ensures Stream(lib, s, 0) == [p] + ([semicolon] + ([nul] + [q]))
  {
    CharStream(lib, s, 0);
    CharStream(lib, s, 1);
    TwoTokens(lib, s, nul, q);
  }

  lemma TwoTokens(lib: Library, s: Text, nul: Token, q: Token)
    requires s == ['(', ';', NUL, '('] && nul == Token(0, [NUL], NoValue, 3) && q == Token('(' as int, "(", NoValue, 4)
    ensures Stream(lib, s, 2) == [nul] + [q]
  {
    CharStream(lib, s, 2);
    CharStream(lib, s, 3);
    assert Stream(lib, s, 4) == [];
  }

  lemma TwoStatements(p: Token, semicolon: Token, nul: Token, q: Token)
    requires p.id != SEMICOLON && semicolon.id == SEMICOLON && nul.id != SEMICOLON && q.id != SEMICOLON
    ensures StatementsOf([p] + ([semicolon] + ([nul] + [q]))) == [[p], [nul, q]]
  {
    FirstStatement([p], [semicolon] + ([nul] + [q]));
    assert ([semicolon] + ([nul] + [q]))[1..] == [nul, q] + [];
    FirstStatement([nul, q], []);
  }

  lemma OneSeen(p: Token, semicolon: Token, nul: Token, q: Token)
    requires p.id != SEMICOLON && p.id != 0 && p.id != ERROR && semicolon.id == SEMICOLON && nul.id == 0
    ensures Verdict(StatementsOf(UpToZero([p] + ([semicolon] + ([nul] + [q]))))) == Ok(false)
  {
    var rest := [semicolon] + ([nul] + [q]);
    assert rest[1..] == [nul] + [q];
    assert ([p] + rest)[1..] == rest;
    assert UpToZero(rest) == [semicolon] + [];
    FirstStatement([p], UpToZero(rest));
    assert StatementsOf(UpToZero(rest)) == StatementsOf([]) == [];
  }
}
