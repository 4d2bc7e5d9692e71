/**
 The command parser of sh.c: a recursive descent over a character cursor, proved against a parser
 of token lists, that one against the grammar, and the in-place termination of the words it found.
 */
module Shell {
  import opened Syntax

  // ---- Tokens ---------------------------------------------------------------

  function SkipSpaces(s: string, i: nat): (j: nat)
    requires i <= |s|
    ensures i <= j <= |s| && (j < |s| ==> !IsSpace(s[j]))
    decreases |s| - i
  {
    if i < |s| && IsSpace(s[i]) then SkipSpaces(s, i + 1) else i
  }

  function WordEnd(s: string, i: nat): (j: nat)
    requires i <= |s|
    ensures i <= j <= |s| && (j < |s| ==> !IsWordChar(s[j])) && forall k :: i <= k < j ==> IsWordChar(s[k])
    decreases |s| - i
  {
    if i < |s| && IsWordChar(s[i]) then WordEnd(s, i + 1) else i
  }

  /** The token that starts at q. */
  function TokenAt(s: string, q: nat): (t: Tok)
    requires q < |s| && IsText(s) && !IsSpace(s[q])
    ensures t.span.lo == q < t.span.hi <= |s| && (t.kind == 'a' <==> IsWordChar(s[q]))
  {
    if s[q] == '>' then
      if q + 1 < |s| && s[q + 1] == '>' then Tok('+', Span(q, q + 2)) else Tok('>', Span(q, q + 1))
    else if IsSymbol(s[q]) then Tok(s[q], Span(q, q + 1))
    else Tok('a', Span(q, WordEnd(s, q)))
  }

  /** The tokens from position i on. */
  function Toks(s: string, i: nat): seq<Tok>
    requires i <= |s| && IsText(s)
    decreases |s| - i
  {
    var q := SkipSpaces(s, i);
    if q == |s| then [] else var t := TokenAt(s, q); [t] + Toks(s, t.span.hi)
  }

  lemma SkippedToks(s: string, i: nat)
    requires i <= |s| && IsText(s)
    ensures Toks(s, SkipSpaces(s, i)) == Toks(s, i)
  {
    var q := SkipSpaces(s, i);
    assert SkipSpaces(s, q) == q;
  }

  /** The character that starts a token: peek looks at that. */
  function First(t: Tok): char {
    if t.kind == '+' then '>' else t.kind
  }

  /** The first character of the next token, if that is a symbol; peek compares with symbols only. */
  function Next(ts: seq<Tok>): char {
    if ts == [] then NUL else First(ts[0])
  }

  // ---- The parser, on token lists ----------------------------------------------------

  datatype Parsed = Ok(cmd: Cmd, rest: seq<Tok>) | Err(message: string)
  datatype ParsedRedirs = Redirs(list: seq<Redirection>, rest: seq<Tok>) | NoFile

  /** parseredirs (sh.c:380-403): "<" word, ">" word, ">>" word, any number of times. */
  function ParseRedirs(ts: seq<Tok>): (r: ParsedRedirs)
    ensures r.Redirs? ==> |r.rest| <= |ts|
  {
    if Next(ts) != '<' && Next(ts) != '>' then Redirs([], ts)
    else if |ts| < 2 || ts[1].kind != 'a' then NoFile
    else
      match ParseRedirs(ts[2..])
      case NoFile => NoFile
      case Redirs(list, rest) => Redirs([Redirection(ts[1].span, ts[0].kind == '<')] + list, rest)
  }

  /** The words of a command, with redirections among them (sh.c:435-448). */
  function ParseArgs(args: seq<Span>, rs: seq<Redirection>, ts: seq<Tok>): (r: Parsed)
    ensures r.Ok? ==> |r.rest| <= |ts|
    decreases |ts|
  {
    if ts == [] || ts[0].kind == '|' || ts[0].kind == ')' || ts[0].kind == '&' || ts[0].kind == ';'
        then Ok(Wrap(Exec(args), rs), ts)
    else if ts[0].kind != 'a' then Err("syntax")
    else if |args| + 1 >= MAXARGS then Err("too many args")
    else
      match ParseRedirs(ts[1..])
      case NoFile => Err("missing file for redirection")
      case Redirs(list, rest) => ParseArgs(args + [ts[0].span], rs + list, rest)
  }

  function ParseExec(ts: seq<Tok>): (r: Parsed)
    ensures r.Ok? ==> |r.rest| <= |ts|
    decreases |ts|, 1
  {
    if Next(ts) == '(' then ParseBlock(ts)
    else
      match ParseRedirs(ts)
      case NoFile => Err("missing file for redirection")
      case Redirs(list, rest) => ParseArgs([], list, rest)
  }

  function ParseBlock(ts: seq<Tok>): (r: Parsed)
    requires Next(ts) == '('
    ensures r.Ok? ==> |r.rest| <= |ts|
    decreases |ts|, 0
  {
    match ParseLine(ts[1..])
    case Err(m) => Err(m)
    case Ok(c, rest) =>
      if Next(rest) != ')' then Err("syntax - missing )") else Wrapped(c, ParseRedirs(rest[1..]))
  }

  function Wrapped(c: Cmd, r: ParsedRedirs): Parsed {
    match r
    case NoFile => Err("missing file for redirection")
    case Redirs(list, rest) => Ok(Wrap(c, list), rest)
  }

  function ParsePipe(ts: seq<Tok>): (r: Parsed)
    ensures r.Ok? ==> |r.rest| <= |ts|
    decreases |ts|, 2
  {
    match ParseExec(ts)
    case Err(m) => Err(m)
    case Ok(c, rest) =>
      if Next(rest) != '|' then Ok(c, rest)
      else
        match ParsePipe(rest[1..])
        case Err(m) => Err(m)
        case Ok(d, rest') => Ok(Pipe(c, d), rest')
  }

  /** Every "&" puts the command so far into the background (sh.c:356-359). */
  function ParseBacks(c: Cmd, ts: seq<Tok>): (r: Parsed)
    ensures r.Ok? && |r.rest| <= |ts|
    decreases |ts|
  {
    if Next(ts) == '&' then ParseBacks(Back(c), ts[1..]) else Ok(c, ts)
  }

  function ParseLine(ts: seq<Tok>): (r: Parsed)
    ensures r.Ok? ==> |r.rest| <= |ts|
    decreases |ts|, 3
  {
    match ParsePipe(ts)
    case Err(m) => Err(m)
    case Ok(c, rest) =>
      var b := ParseBacks(c, rest);
      if Next(b.rest) != ';' then b
      else
        match ParseLine(b.rest[1..])
        case Err(m) => Err(m)
        case Ok(d, rest') => Ok(List(b.cmd, d), rest')
  }

  // ---- The tokens are those of the text -----------------------------------------------------

  lemma {:induction false} SkippedBlank(s: string, i: nat, q: nat)
    requires i <= q <= |s| && Blank(s, i, q) && (q < |s| ==> !IsSpace(s[q]))
    ensures SkipSpaces(s, i) == q
    decreases q - i
  {
    if i < q {
      assert s[i] in " \t\r\n\U{0B}";
      SkippedBlank(s, i + 1, q);
    }
  }

  lemma {:induction false} SkipsBlanks(s: string, i: nat)
    requires i <= |s|
    ensures Blank(s, i, SkipSpaces(s, i))
    decreases |s| - i
  {
    if i < |s| && IsSpace(s[i]) {
      SkipsBlanks(s, i + 1);
    }
  }

  lemma {:induction false} WordEndAt(s: string, i: nat, e: nat)
    requires i <= e <= |s| && (forall k :: i <= k < e ==> IsWordChar(s[k])) && (e < |s| ==> !IsWordChar(s[e]))
    ensures WordEnd(s, i) == e
    decreases e - i
  {
    if i < e {
      WordEndAt(s, i + 1, e);
    }
  }

  /** The token found at q is written there. */
  lemma TokenIsText(s: string, q: nat)
    requires q < |s| && IsText(s) && !IsSpace(s[q])
    ensures var t := TokenAt(s, q); TokenText(t.kind, s[q..t.span.hi]) && EndsAt(s, t)
  {
    var t := TokenAt(s, q);
    if t.kind == 'a' {
      forall k | 0 <= k < |s[q..t.span.hi]| ensures IsWordChar(s[q..t.span.hi][k]) {
        assert IsWordChar(s[q + k]);
      }
    } else if t.kind == '+' {
      assert s[q..q + 2] == [s[q], s[q + 1]];
    } else {
      assert s[q..q + 1] == [s[q]];
    }
  }

  /** And one that is written there is found. */
  lemma TextIsToken(s: string, t: Tok)
    requires IsText(s) && t.span.lo < t.span.hi <= |s| && TokenText(t.kind, s[t.span.lo..t.span.hi]) && EndsAt(s, t)
    ensures !IsSpace(s[t.span.lo]) && TokenAt(s, t.span.lo) == t
  {
    var q, w := t.span.lo, s[t.span.lo..t.span.hi];
    assert s[q] == w[0];
    if t.kind == 'a' {
      forall k | q <= k < t.span.hi ensures IsWordChar(s[k]) {
        assert s[k] == w[k - q];
      }
      WordEndAt(s, q, t.span.hi);
    } else if t.kind == '+' {
      assert s[q + 1] == w[1];
    }
  }

  /** The tokens of a text are the one way to read it. */
  lemma {:induction false} LexExactly(s: string, i: nat, ts: seq<Tok>)
    requires i <= |s| && IsText(s)
    ensures Toks(s, i) == ts <==> Reads(s, i, ts)
    decreases |s| - i
  {
    var q := SkipSpaces(s, i);
    SkipsBlanks(s, i);
    if q < |s| {
      var t := TokenAt(s, q);
      TokenIsText(s, q);
      LexExactly(s, t.span.hi, Toks(s, t.span.hi));
      assert Toks(s, i)[0] == t && Toks(s, i)[1..] == Toks(s, t.span.hi);
    }
    if Reads(s, i, ts) {
      ReadIsLexed(s, i, ts);
    }
  }

  lemma {:induction false} ReadIsLexed(s: string, i: nat, ts: seq<Tok>)
    requires i <= |s| && IsText(s) && Reads(s, i, ts)
    ensures Toks(s, i) == ts
    decreases |ts|
  {
    if ts == [] {
      SkippedBlank(s, i, |s|);
    } else {
      var t := ts[0];
      TextIsToken(s, t);
      SkippedBlank(s, i, t.span.lo);
      ReadIsLexed(s, t.span.hi, ts[1..]);
      assert ts == [t] + ts[1..];
    }
  }

  // ---- The parser accepts the grammar ------------------------------------------------------------

  /** What may come behind a simple command, a pipeline and a line. */
  predicate AfterSimple(rest: seq<Tok>) {
    rest == [] || rest[0].kind in "|)&;"
  }

  predicate AfterPipe(rest: seq<Tok>) {
    rest == [] || rest[0].kind in ")&;"
  }

  /** Where a line may end. */
  predicate Ends(rest: seq<Tok>) {
    rest == [] || rest[0].kind == ')'
  }

  lemma {:induction false} RedirsWritten(rs: seq<RedirPart>, rest: seq<Tok>)
    requires GoodRedirs(rs) && Next(rest) != '<' && Next(rest) != '>'
    ensures ParseRedirs(RedirToks(rs) + rest) == Redirs(RedirList(rs), rest)
    decreases |rs|
  {
    var ts := RedirToks(rs) + rest;
    if rs == [] {
      assert ts == rest && RedirList(rs) == [];
    } else {
      RedirsWritten(rs[1..], rest);
      assert ts[0] == rs[0].op && ts[1] == rs[0].file && ts[2..] == RedirToks(rs[1..]) + rest;
      assert RedirList(rs) == [Redirection(rs[0].file.span, rs[0].op.kind == '<')] + RedirList(rs[1..]);
    }
  }

  /** Words follow, or the end of the simple command. */
  lemma AfterRedirs(xs: seq<ArgPart>, rest: seq<Tok>)
    requires GoodArgs(xs) && AfterSimple(rest)
    ensures var ts := ArgToks(xs) + rest; Next(ts) != '<' && Next(ts) != '>' && Next(ts) != '('
  {
    if xs == [] {
      assert ArgToks(xs) + rest == rest;
    } else {
      assert (ArgToks(xs) + rest)[0] == xs[0].word;
    }
  }

  lemma {:induction false} ArgsWritten(args: seq<Span>, rs: seq<Redirection>, xs: seq<ArgPart>, rest: seq<Tok>)
    requires GoodArgs(xs) && |args| + |xs| < MAXARGS && AfterSimple(rest)
    ensures ParseArgs(args, rs, ArgToks(xs) + rest) == Ok(Wrap(Exec(args + ArgSpans(xs)), rs + ArgRedirs(xs)), rest)
    decreases |xs|
  {
    var ts := ArgToks(xs) + rest;
    if xs == [] {
      assert ts == rest && args + ArgSpans(xs) == args && rs + ArgRedirs(xs) == rs;
    } else {
      var x, more := xs[0], ArgToks(xs[1..]) + rest;
      FirstArg(xs, rest, ts, more);
      AfterRedirs(xs[1..], rest);
      OneArgWritten(args, rs, x, ts, more);
      ArgsWritten(args + [x.word.span], rs + RedirList(x.redirs), xs[1..], rest);
      ArgsCons(args, rs, xs);
    }
  }

  lemma FirstArg(xs: seq<ArgPart>, rest: seq<Tok>, ts: seq<Tok>, more: seq<Tok>)
    requires xs != [] && ts == ArgToks(xs) + rest && more == ArgToks(xs[1..]) + rest
    ensures ts == [xs[0].word] + (RedirToks(xs[0].redirs) + more)
  {
    Regroup([xs[0].word], RedirToks(xs[0].redirs), ArgToks(xs[1..]), rest);
  }

  lemma Regroup(a: seq<Tok>, b: seq<Tok>, c: seq<Tok>, d: seq<Tok>)
    ensures a + b + c + d == a + (b + (c + d))
  {
  }

  lemma OneArgWritten(args: seq<Span>, rs: seq<Redirection>, x: ArgPart, ts: seq<Tok>, more: seq<Tok>)
    requires ts == [x.word] + (RedirToks(x.redirs) + more) && |args| + 1 < MAXARGS
    requires x.word.kind == 'a' && GoodRedirs(x.redirs) && Next(more) != '<' && Next(more) != '>'
    ensures ParseArgs(args, rs, ts) == ParseArgs(args + [x.word.span], rs + RedirList(x.redirs), more)
  {
    assert ts[1..] == RedirToks(x.redirs) + more;
    RedirsWritten(x.redirs, more);
  }

  lemma ArgsCons(args: seq<Span>, rs: seq<Redirection>, xs: seq<ArgPart>)
    requires xs != []
    ensures args + [xs[0].word.span] + ArgSpans(xs[1..]) == args + ArgSpans(xs)
    ensures rs + RedirList(xs[0].redirs) + ArgRedirs(xs[1..]) == rs + ArgRedirs(xs)
  {
    assert ArgSpans(xs) == [xs[0].word.span] + ArgSpans(xs[1..]);
  }

  lemma PlainWritten(x: SimplePart, rest: seq<Tok>)
    requires x.Plain? && GoodSimple(x) && AfterSimple(rest)
    ensures ParseExec(SimpleToks(x) + rest) == Ok(SimpleCmd(x), rest)
  {
    var more := ArgToks(x.args) + rest;
    AfterRedirs(x.args, rest);
    ArgsWritten([], RedirList(x.redirs), x.args, rest);
    assert [] + ArgSpans(x.args) == ArgSpans(x.args);
    assert SimpleToks(x) + rest == RedirToks(x.redirs) + more;
    RedirsThenArgs(x.redirs, more);
  }

  lemma RedirsThenArgs(rs: seq<RedirPart>, more: seq<Tok>)
    requires GoodRedirs(rs) && Next(more) != '<' && Next(more) != '>' && Next(more) != '('
    ensures ParseExec(RedirToks(rs) + more) == ParseArgs([], RedirList(rs), more)
  {
    RedirsWritten(rs, more);
    NoParen(rs, more, RedirToks(rs) + more);
  }

  lemma NoParen(rs: seq<RedirPart>, more: seq<Tok>, ts: seq<Tok>)
    requires ts == RedirToks(rs) + more && GoodRedirs(rs) && Next(more) != '('
    ensures Next(ts) != '('
  {
    if rs == [] {
      assert ts == more;
    } else {
      assert ts[0] == rs[0].op;
    }
  }

  /** A parenthesised line, given that the line parses, followed by what parses as redirections. */
  lemma BlockSpelled(us: seq<Tok>, open: Tok, close: Tok, after: seq<Tok>, c: Cmd)
    requires open.kind == '(' && close.kind == ')' && ParseLine(us + ([close] + after)) == Ok(c, [close] + after)
    ensures ParseExec([open] + us + [close] + after) == Wrapped(c, ParseRedirs(after))
  {
    var ts := [open] + us + [close] + after;
    assert ts[1..] == us + ([close] + after);
    assert ([close] + after)[1..] == after;
  }

  lemma {:induction false} SimpleWritten(x: SimplePart, rest: seq<Tok>)
    requires GoodSimple(x) && AfterSimple(rest)
    ensures ParseExec(SimpleToks(x) + rest) == Ok(SimpleCmd(x), rest)
    decreases x
  {
    match x
    case Plain(_, _) => PlainWritten(x, rest);
    case Paren(open, line, close, redirs) =>
      var after := RedirToks(redirs) + rest;
      LineWritten(line, [close] + after);
      RedirsWritten(redirs, rest);
      BlockSpelled(LineToks(line), open, close, after, LineCmd(line));
      Reassociate([open] + LineToks(line) + [close], RedirToks(redirs), rest);
  }

  lemma Reassociate(a: seq<Tok>, b: seq<Tok>, c: seq<Tok>)
    ensures a + b + c == a + (b + c)
  {
  }

  lemma {:induction false} PipeWritten(x: PipePart, rest: seq<Tok>)
    requires GoodPipe(x) && AfterPipe(rest)
    ensures ParsePipe(PipeToks(x) + rest) == Ok(PipeCmd(x), rest)
    decreases x
  {
    match x
    case Single(simple) => SimpleWritten(simple, rest);
    case Through(simple, bar, pipe) =>
      var after := [bar] + (PipeToks(pipe) + rest);
      assert PipeToks(x) + rest == SimpleToks(simple) + after;
      SimpleWritten(simple, after);
      assert after[1..] == PipeToks(pipe) + rest;
      PipeWritten(pipe, rest);
  }

  lemma BacksOnce(c: Cmd, n: nat)
    ensures Backs(Back(c), n) == Back(Backs(c, n))
  {
    if n > 0 {
      BacksOnce(c, n - 1);
    }
  }

  lemma {:induction false} BacksWritten(c: Cmd, amps: seq<Tok>, rest: seq<Tok>)
    requires AllOf(amps, '&') && Next(rest) != '&'
    ensures ParseBacks(c, amps + rest) == Ok(Backs(c, |amps|), rest)
    decreases |amps|
  {
    if amps == [] {
      assert amps + rest == rest;
    } else {
      assert (amps + rest)[0] == amps[0] && (amps + rest)[1..] == amps[1..] + rest;
      BacksWritten(Back(c), amps[1..], rest);
      BacksOnce(c, |amps| - 1);
    }
  }

  lemma {:induction false} LineWritten(x: LinePart, rest: seq<Tok>)
    requires GoodLine(x) && Ends(rest)
    ensures ParseLine(LineToks(x) + rest) == Ok(LineCmd(x), rest)
    decreases x
  {
    var after := match x case Last(_, _) => rest case Then(_, _, semi, line) => [semi] + (LineToks(line) + rest);
    assert LineToks(x) + rest == PipeToks(x.pipe) + (x.amps + after);
    assert AfterPipe(x.amps + after) by {
      assert x.amps == [] ==> x.amps + after == after;
    }
    PipeWritten(x.pipe, x.amps + after);
    BacksWritten(PipeCmd(x.pipe), x.amps, after);
    if x.Then? {
      assert after[1..] == LineToks(x.line) + rest;
      LineWritten(x.line, rest);
    }
  }

  // ---- And nothing else -------------------------------------------------------------------------

  lemma {:induction false} RedirsFound(ts: seq<Tok>) returns (rs: seq<RedirPart>)
    requires ParseRedirs(ts).Redirs?
    ensures GoodRedirs(rs) && ts == RedirToks(rs) + ParseRedirs(ts).rest && ParseRedirs(ts).list == RedirList(rs)
    decreases |ts|
  {
    rs := [];
    if Next(ts) == '<' || Next(ts) == '>' {
      var more := RedirsFound(ts[2..]);
      rs := [RedirPart(ts[0], ts[1])] + more;
      RedirsCons(RedirPart(ts[0], ts[1]), more);
      assert ts == [ts[0], ts[1]] + ts[2..];
      Reassociate([ts[0], ts[1]], RedirToks(more), ParseRedirs(ts).rest);
    }
  }

  lemma RedirsCons(p: RedirPart, more: seq<RedirPart>)
    ensures RedirToks([p] + more) == [p.op, p.file] + RedirToks(more)
    ensures RedirList([p] + more) == [Redirection(p.file.span, p.op.kind == '<')] + RedirList(more)
    ensures GoodRedirs([p] + more) <==> p.op.kind in "<>+" && p.file.kind == 'a' && GoodRedirs(more)
  {
    var rs := [p] + more;
    assert rs[1..] == more;
    assert GoodRedirs(rs) ==> rs[0].op.kind in "<>+" && forall k :: 0 <= k < |more| ==> rs[k + 1] == more[k];
  }

  lemma {:induction false} ArgsFound(args: seq<Span>, rs: seq<Redirection>, ts: seq<Tok>) returns (xs: seq<ArgPart>)
    requires ParseArgs(args, rs, ts).Ok? && |args| < MAXARGS
    ensures GoodArgs(xs) && |args| + |xs| < MAXARGS && ts == ArgToks(xs) + ParseArgs(args, rs, ts).rest
    ensures ParseArgs(args, rs, ts).cmd == Wrap(Exec(args + ArgSpans(xs)), rs + ArgRedirs(xs))
    decreases |ts|
  {
    xs := [];
    if ts != [] && ts[0].kind == 'a' {
      var redirs := RedirsFound(ts[1..]);
      var r := ParseRedirs(ts[1..]);
      var more := ArgsFound(args + [ts[0].span], rs + r.list, r.rest);
      xs := [ArgPart(ts[0], redirs)] + more;
      ArgsJoined(args, rs, ts, redirs, more, r.rest, ParseArgs(args, rs, ts).rest, xs);
    } else {
      assert args + ArgSpans(xs) == args && rs + ArgRedirs(xs) == rs;
    }
  }

  lemma ArgsJoined(args: seq<Span>, rs: seq<Redirection>, ts: seq<Tok>, redirs: seq<RedirPart>, more: seq<ArgPart>,
                   mid: seq<Tok>, rest: seq<Tok>, xs: seq<ArgPart>)
    requires ts != [] && ts[1..] == RedirToks(redirs) + mid && mid == ArgToks(more) + rest
    requires xs == [ArgPart(ts[0], redirs)] + more
    ensures ts == ArgToks(xs) + rest
    ensures args + [ts[0].span] + ArgSpans(more) == args + ArgSpans(xs)
    ensures rs + RedirList(redirs) + ArgRedirs(more) == rs + ArgRedirs(xs)
  {
    assert xs[1..] == more && ts == [ts[0]] + ts[1..];
    Regroup([ts[0]], RedirToks(redirs), ArgToks(more), rest);
    ArgsCons(args, rs, xs);
  }

  lemma {:induction false} SimpleFound(ts: seq<Tok>) returns (x: SimplePart)
    requires ParseExec(ts).Ok?
    ensures GoodSimple(x) && ts == SimpleToks(x) + ParseExec(ts).rest && ParseExec(ts).cmd == SimpleCmd(x)
    decreases |ts|, 1
  {
    if Next(ts) == '(' {
      x := BlockFound(ts);
    } else {
      var redirs := RedirsFound(ts);
      var r := ParseRedirs(ts);
      var args := ArgsFound([], r.list, r.rest);
      assert [] + ArgSpans(args) == ArgSpans(args);
      x := Plain(redirs, args);
      TwoParts(ts, RedirToks(redirs), r.rest, ArgToks(args), ParseExec(ts).rest);
    }
  }

  lemma TwoParts(ts: seq<Tok>, us: seq<Tok>, mid: seq<Tok>, vs: seq<Tok>, end: seq<Tok>)
    requires ts == us + mid && mid == vs + end
    ensures ts == us + vs + end
  {
  }

  lemma {:induction false} BlockFound(ts: seq<Tok>) returns (x: SimplePart)
    requires Next(ts) == '(' && ParseBlock(ts).Ok?
    ensures GoodSimple(x) && ts == SimpleToks(x) + ParseBlock(ts).rest && ParseBlock(ts).cmd == SimpleCmd(x)
    decreases |ts|, 0
  {
    var line := LineFound(ts[1..]);
    var rest := ParseLine(ts[1..]).rest;
    var redirs := RedirsFound(rest[1..]);
    x := Paren(ts[0], line, rest[0], redirs);
    Bracketed(ts, LineToks(line), rest, RedirToks(redirs), ParseBlock(ts).rest);
  }

  lemma Bracketed(ts: seq<Tok>, us: seq<Tok>, rest: seq<Tok>, vs: seq<Tok>, end: seq<Tok>)
    requires ts != [] && ts[1..] == us + rest && rest != [] && rest[1..] == vs + end
    ensures ts == [ts[0]] + us + [rest[0]] + vs + end
  {
    assert ts == [ts[0]] + ts[1..] && rest == [rest[0]] + rest[1..];
  }

  lemma {:induction false} PipeFound(ts: seq<Tok>) returns (x: PipePart)
    requires ParsePipe(ts).Ok?
    ensures GoodPipe(x) && ts == PipeToks(x) + ParsePipe(ts).rest && ParsePipe(ts).cmd == PipeCmd(x)
    decreases |ts|, 2
  {
    var simple := SimpleFound(ts);
    var rest := ParseExec(ts).rest;
    x := Single(simple);
    if Next(rest) == '|' {
      var pipe := PipeFound(rest[1..]);
      x := Through(simple, rest[0], pipe);
      assert rest == [rest[0]] + rest[1..];
    }
  }

  lemma {:induction false} BacksFound(c: Cmd, ts: seq<Tok>) returns (amps: seq<Tok>)
    ensures AllOf(amps, '&') && ts == amps + ParseBacks(c, ts).rest && ParseBacks(c, ts).cmd == Backs(c, |amps|)
    decreases |ts|
  {
    amps := [];
    if Next(ts) == '&' {
      var more := BacksFound(Back(c), ts[1..]);
      amps := [ts[0]] + more;
      BacksOnce(c, |more|);
      assert ts == [ts[0]] + ts[1..];
    }
  }

  lemma {:induction false} LineFound(ts: seq<Tok>) returns (x: LinePart)
    requires ParseLine(ts).Ok?
    ensures GoodLine(x) && ts == LineToks(x) + ParseLine(ts).rest && ParseLine(ts).cmd == LineCmd(x)
    decreases |ts|, 3
  {
    var pipe := PipeFound(ts);
    var p := ParsePipe(ts);
    var amps := BacksFound(p.cmd, p.rest);
    var rest := ParseBacks(p.cmd, p.rest).rest;
    x := Last(pipe, amps);
    if Next(rest) == ';' {
      var line := LineFound(rest[1..]);
      x := Then(pipe, amps, rest[0], line);
      FourParts(ts, PipeToks(pipe), p.rest, amps, rest, LineToks(line), ParseLine(ts).rest);
    }
  }

  lemma FourParts(ts: seq<Tok>, us: seq<Tok>, mid: seq<Tok>, amps: seq<Tok>, rest: seq<Tok>, vs: seq<Tok>,
                  end: seq<Tok>)
    requires ts == us + mid && mid == amps + rest && rest != [] && rest[1..] == vs + end
    ensures ts == us + amps + [rest[0]] + vs + end
  {
    assert rest == [rest[0]] + rest[1..];
  }

  /** The parser finds a command in the text if and only if the text means that command. */
  lemma ParsesExactly(s: string, c: Cmd)
    requires IsText(s)
    ensures ParseLine(Toks(s, 0)) == Ok(c, []) <==> Means(s, c)
  {
    var ts := Toks(s, 0);
    if ParseLine(ts) == Ok(c, []) {
      var x := LineFound(ts);
      assert LineToks(x) + [] == LineToks(x);
      LexExactly(s, 0, LineToks(x));
    }
    if Means(s, c) {
      var x :| GoodLine(x) && Reads(s, 0, LineToks(x)) && LineCmd(x) == c;
      LexExactly(s, 0, LineToks(x));
      LineWritten(x, []);
      assert LineToks(x) + [] == LineToks(x);
    }
  }

  /** So a text means one command at most. */
  lemma Unambiguous(s: string, c: Cmd, d: Cmd)
    requires IsText(s) && Means(s, c) && Means(s, d)
    ensures c == d
  {
    ParsesExactly(s, c);
    ParsesExactly(s, d);
  }

  // ---- The parser of sh.c, on a cursor ---------------------------------------------------

  datatype Outcome = Done(cmd: Cmd, pos: nat) | Panic(message: string)

  /** A parse from position i did what the grammar does on the tokens there. */
  predicate Agrees(s: string, i: nat, r: Outcome, p: Parsed)
    requires IsText(s)
  {
    match r
    case Done(c, j) => i <= j <= |s| && p == Ok(c, Toks(s, j))
    case Panic(m) => p == Err(m)
  }

  /** Skip spaces and look at the next character (sh.c:316-326). */
  method Peek(s: string, i: nat, toks: string) returns (b: bool, j: nat)
    requires i <= |s| && IsText(s) && forall c :: c in toks ==> IsSymbol(c)
    ensures i <= j <= |s| && Toks(s, j) == Toks(s, i) && (j == |s| <==> Toks(s, i) == [])
    ensures b <==> Next(Toks(s, i)) in toks
  {
    j := i;
    while j < |s| && IsSpace(s[j])
      invariant i <= j <= |s| && SkipSpaces(s, j) == SkipSpaces(s, i)
    {
      j := j + 1;
    }
    SkippedToks(s, i);
    b := j < |s| && s[j] in toks;
    if j < |s| {
      assert Toks(s, i)[0] == TokenAt(s, j);
    }
  }

  /** The next token, and the cursor behind it and the spaces after it (sh.c:271-314). Kind NUL: there is none. */
  method GetToken(s: string, i: nat) returns (kind: char, q: nat, e: nat, j: nat)
    requires i <= |s| && IsText(s)
    ensures i <= j <= |s|
    ensures kind == NUL ==> Toks(s, i) == []
    ensures kind != NUL ==> Toks(s, i) == [Tok(kind, Span(q, e))] + Toks(s, j) && i < j
  {
    q := i;
    while q < |s| && IsSpace(s[q])
      invariant i <= q <= |s| && SkipSpaces(s, q) == SkipSpaces(s, i)
    {
      q := q + 1;
    }
    e := q;
    if q == |s| {
      return NUL, q, e, q;
    }
    kind := s[q];
    if s[q] == '>' {
      e := e + 1;
      if e < |s| && s[e] == '>' {
        kind := '+';
        e := e + 1;
      }
    } else if IsSymbol(s[q]) {
      e := e + 1;
    } else {
      kind := 'a';
      while e < |s| && !IsSpace(s[e]) && !IsSymbol(s[e])
        invariant q <= e <= |s| && WordEnd(s, e) == WordEnd(s, q)
      {
        e := e + 1;
      }
    }
    assert TokenAt(s, q) == Tok(kind, Span(q, e));
    j := e;
    while j < |s| && IsSpace(s[j])
      invariant e <= j <= |s| && SkipSpaces(s, j) == SkipSpaces(s, e)
    {
      j := j + 1;
    }
    SkippedToks(s, e);
  }

  function Prepend(list: seq<Redirection>, r: ParsedRedirs): ParsedRedirs {
    match r
    case NoFile => NoFile
    case Redirs(more, rest) => Redirs(list + more, rest)
  }

  /** sh.c:380-403. */
  method ParseRedirsAt(s: string, i: nat) returns (ok: bool, list: seq<Redirection>, j: nat)
    requires i <= |s| && IsText(s)
    ensures i <= j <= |s|
    ensures ok ==> ParseRedirs(Toks(s, i)) == Redirs(list, Toks(s, j))
    ensures !ok ==> ParseRedirs(Toks(s, i)) == NoFile
  {
    list := [];
    var more;
    more, j := Peek(s, i, "<>");
    assert Prepend([], ParseRedirs(Toks(s, j))) == ParseRedirs(Toks(s, j));
    while more
      invariant i <= j <= |s| && more == (Next(Toks(s, j)) in "<>")
      invariant ParseRedirs(Toks(s, i)) == Prepend(list, ParseRedirs(Toks(s, j)))
      decreases |s| - j
    {
      ghost var ts := Toks(s, j);
      var tok, q, e, k := GetToken(s, j);
      var kind;
      kind, q, e, j := GetToken(s, k);
      if kind != 'a' {
        return false, list, j;
      }
      RedirsUnfold(ts, Toks(s, j), ts[0], Tok('a', Span(q, e)));
      PrependMore(list, Redirection(Span(q, e), tok == '<'), ParseRedirs(Toks(s, j)));
      list := list + [Redirection(Span(q, e), tok == '<')];
      more, j := Peek(s, j, "<>");
    }
    ok := true;
  }

  lemma RedirsUnfold(ts: seq<Tok>, rest: seq<Tok>, op: Tok, file: Tok)
    requires ts == [op] + ([file] + rest) && (First(op) == '<' || First(op) == '>') && file.kind == 'a'
    ensures ParseRedirs(ts) == Prepend([Redirection(file.span, op.kind == '<')], ParseRedirs(rest))
  {
    assert ts[2..] == rest;
  }

  lemma PrependMore(list: seq<Redirection>, x: Redirection, r: ParsedRedirs)
    ensures Prepend(list, Prepend([x], r)) == Prepend(list + [x], r)
  {
    if r.Redirs? {
      assert list + ([x] + r.list) == list + [x] + r.list;
    }
  }

  /** The loop of parseexec (sh.c:435-448). */
  method ParseArgsAt(s: string, i: nat, redirs: seq<Redirection>) returns (r: Outcome)
    requires i <= |s| && IsText(s)
    ensures Agrees(s, i, r, ParseArgs([], redirs, Toks(s, i)))
  {
    var args, rs: seq<Redirection> := [], redirs;
    var stop, j := Peek(s, i, "|)&;");
    while !stop
      invariant i <= j <= |s| && stop == (Next(Toks(s, j)) in "|)&;")
      invariant ParseArgs([], redirs, Toks(s, i)) == ParseArgs(args, rs, Toks(s, j))
      decreases |s| - j
    {
      ghost var ts := Toks(s, j);
      var tok, q, e, k := GetToken(s, j);
      if tok == NUL {
        break;
      }
      assert ts[0] == Tok(tok, Span(q, e)) && ts[1..] == Toks(s, k);
      if tok != 'a' {
        return Panic("syntax");
      }
      if |args| + 1 >= MAXARGS {
        return Panic("too many args");
      }
      var ok, list;
      ok, list, j := ParseRedirsAt(s, k);
      if !ok {
        return Panic("missing file for redirection");
      }
      args, rs := args + [Span(q, e)], rs + list;
      stop, j := Peek(s, j, "|)&;");
    }
    return Done(Wrap(Exec(args), rs), j);
  }

  /** sh.c:421-452. */
  method ParseExecAt(s: string, i: nat) returns (r: Outcome)
    requires i <= |s| && IsText(s)
    ensures Agrees(s, i, r, ParseExec(Toks(s, i)))
    decreases |s| - i, 1
  {
    var b, j := Peek(s, i, "(");
    if b {
      r := ParseBlockAt(s, j);
      return;
    }
    var ok, list, k := ParseRedirsAt(s, j);
    if !ok {
      return Panic("missing file for redirection");
    }
    r := ParseArgsAt(s, k, list);
  }

  /** sh.c:405-419. */
  method ParseBlockAt(s: string, i: nat) returns (r: Outcome)
    requires i <= |s| && IsText(s) && Next(Toks(s, i)) == '('
    ensures Agrees(s, i, r, ParseBlock(Toks(s, i)))
    decreases |s| - i, 0
  {
    ghost var ts := Toks(s, i);
    var kind, q, e, j := GetToken(s, i);
    assert ts[1..] == Toks(s, j);
    var line := ParseLineAt(s, j);
    if line.Panic? {
      return line;
    }
    var b, k := Peek(s, line.pos, ")");
    if !b {
      return Panic("syntax - missing )");
    }
    ghost var rest := Toks(s, k);
    kind, q, e, k := GetToken(s, k);
    assert rest[1..] == Toks(s, k);
    var ok, list;
    ok, list, k := ParseRedirsAt(s, k);
    if !ok {
      return Panic("missing file for redirection");
    }
    return Done(Wrap(line.cmd, list), k);
  }

  /** sh.c:367-378. */
  method ParsePipeAt(s: string, i: nat) returns (r: Outcome)
    requires i <= |s| && IsText(s)
    ensures Agrees(s, i, r, ParsePipe(Toks(s, i)))
    decreases |s| - i, 2
  {
    r := ParseExecAt(s, i);
    if r.Panic? {
      return;
    }
    var left := r.cmd;
    var b, j := Peek(s, r.pos, "|");
    if b {
      ghost var rest := Toks(s, j);
      var kind, q, e, k := GetToken(s, j);
      assert rest[1..] == Toks(s, k);
      r := ParsePipeAt(s, k);
      if r.Done? {
        r := Done(Pipe(left, r.cmd), r.pos);
      }
    } else {
      r := Done(left, j);
    }
  }

  /** The loop of parseline (sh.c:356-359). */
  method ParseBacksAt(s: string, i: nat, c: Cmd) returns (d: Cmd, j: nat)
    requires i <= |s| && IsText(s)
    ensures i <= j <= |s| && ParseBacks(c, Toks(s, i)) == Ok(d, Toks(s, j))
  {
    d := c;
    var b;
    b, j := Peek(s, i, "&");
    while b
      invariant i <= j <= |s| && b == (Next(Toks(s, j)) in "&")
      invariant ParseBacks(c, Toks(s, i)) == ParseBacks(d, Toks(s, j))
      decreases |s| - j
    {
      ghost var ts := Toks(s, j);
      var kind, q, e, k := GetToken(s, j);
      assert ts[1..] == Toks(s, k);
      d := Back(d);
      b, j := Peek(s, k, "&");
    }
  }

  /** sh.c:350-365. */
  method ParseLineAt(s: string, i: nat) returns (r: Outcome)
    requires i <= |s| && IsText(s)
    ensures Agrees(s, i, r, ParseLine(Toks(s, i)))
    decreases |s| - i, 3
  {
    r := ParsePipeAt(s, i);
    if r.Panic? {
      return;
    }
    var left, j := ParseBacksAt(s, r.pos, r.cmd);
    var b, k := Peek(s, j, ";");
    if b {
      ghost var rest := Toks(s, k);
      var kind, q, e, l := GetToken(s, k);
      assert rest[1..] == Toks(s, l);
      r := ParseLineAt(s, l);
      if r.Done? {
        r := Done(List(left, r.cmd), r.pos);
      }
    } else {
      r := Done(left, k);
    }
  }

  // ---- Printing ------------------------------------------------------------------------------

  /** Commands by their words. */
  datatype Tree =
    | Words(words: seq<string>)
    | Redirected(tree: Tree, file: string, input: bool)
    | Piped(left: Tree, right: Tree)
    | Listed(left: Tree, right: Tree)
    | InBack(tree: Tree)

  function Sub(s: string, span: Span): string {
    if span.lo <= span.hi <= |s| then s[span.lo..span.hi] else ""
  }

  /** The command a parsed one stands for, its words read from the buffer. */
  function Text(s: string, c: Cmd): Tree {
    match c
    case Exec(args) => Words(seq(|args|, i requires 0 <= i < |args| => Sub(s, args[i])))
    case Redir(d, r) => Redirected(Text(s, d), Sub(s, r.file), r.input)
    case Pipe(l, r) => Piped(Text(s, l), Text(s, r))
    case List(l, r) => Listed(Text(s, l), Text(s, r))
    case Back(d) => InBack(Text(s, d))
  }

  /** At most MAXARGS - 1 well-formed words per command. */
  predicate Printable(t: Tree) {
    match t
    case Words(ws) => |ws| < MAXARGS && forall i :: 0 <= i < |ws| ==> IsWord(ws[i])
    case Redirected(u, f, _) => Printable(u) && IsWord(f)
    case Piped(l, r) => Printable(l) && Printable(r)
    case Listed(l, r) => Printable(l) && Printable(r)
    case InBack(u) => Printable(u)
  }

  /** Words, each with a space behind it. */
  function Join(ws: seq<string>): string {
    if ws == [] then "" else ws[0] + " " + Join(ws[1..])
  }

  /** The fully parenthesised command. */
  function Show(t: Tree): string {
    match t
    case Words(ws) => Join(ws)
    case Redirected(u, f, input) => "(" + Show(u) + ")" + (if input then "<" else ">") + f
    case Piped(l, r) => "(" + Show(l) + ")|(" + Show(r) + ")"
    case Listed(l, r) => "(" + Show(l) + ");(" + Show(r) + ")"
    case InBack(u) => "(" + Show(u) + ")&"
  }

  /** How many tokens that is. */
  function Count(t: Tree): nat {
    match t
    case Words(ws) => |ws|
    case Redirected(u, _, _) => Count(u) + 4
    case Piped(l, r) => Count(l) + Count(r) + 5
    case Listed(l, r) => Count(l) + Count(r) + 5
    case InBack(u) => Count(u) + 3
  }

  predicate IsWordTok(s: string, t: Tok, w: string) {
    t.kind == 'a' && Sub(s, t.span) == w
  }

  /** The tokens spell the command. */
  predicate Spells(s: string, ts: seq<Tok>, t: Tree) {
    && |ts| == Count(t)
    && match t
       case Words(ws) => forall i :: 0 <= i < |ws| ==> IsWordTok(s, ts[i], ws[i])
       case Redirected(u, f, input) =>
         var n := |ts| - 3;
         && ts[0].kind == '(' && Spells(s, ts[1..n], u) && ts[n].kind == ')'
         && ts[n + 1].kind == (if input then '<' else '>') && IsWordTok(s, ts[n + 2], f)
       case Piped(l, r) =>
         var n := Count(l) + 1;
         && ts[0].kind == '(' && Spells(s, ts[1..n], l) && ts[n].kind == ')' && ts[n + 1].kind == '|'
         && ts[n + 2].kind == '('
         && Spells(s, ts[n + 3..|ts| - 1], r) && ts[|ts| - 1].kind == ')'
       case Listed(l, r) =>
         var n := Count(l) + 1;
         && ts[0].kind == '(' && Spells(s, ts[1..n], l) && ts[n].kind == ')' && ts[n + 1].kind == ';'
         && ts[n + 2].kind == '('
         && Spells(s, ts[n + 3..|ts| - 1], r) && ts[|ts| - 1].kind == ')'
       case InBack(u) =>
         var n := |ts| - 2;
         ts[0].kind == '(' && Spells(s, ts[1..n], u) && ts[n].kind == ')' && ts[n + 1].kind == '&'
  }

  // ---- Parsing what is spelled -----------------------------------------------------------------

  /** One word, with no redirection behind it. */
  lemma ArgStep(args: seq<Span>, ts: seq<Tok>)
    requires ts != [] && ts[0].kind == 'a' && |args| + 1 < MAXARGS && Next(ts[1..]) != '<' && Next(ts[1..]) != '>'
    ensures ParseArgs(args, [], ts) == ParseArgs(args + [ts[0].span], [], ts[1..])
  {
    assert ParseRedirs(ts[1..]) == Redirs([], ts[1..]);
    var none: seq<Redirection> := [];
    assert none + [] == [];
  }

  lemma {:induction false} ArgsSpelled(args: seq<Span>, ts: seq<Tok>, rest: seq<Tok>)
    requires Ends(rest) && (forall i :: 0 <= i < |ts| ==> ts[i].kind == 'a') && |args| + |ts| < MAXARGS
    ensures ParseArgs(args, [], ts + rest) == Ok(Exec(args + Spans(ts)), rest)
    decreases |ts|
  {
    if ts == [] {
      assert ts + rest == rest && args + Spans(ts) == args;
    } else {
      var more := ts + rest;
      assert more[1..] == ts[1..] + rest && more[0] == ts[0];
      ArgStep(args, more);
      ArgsSpelled(args + [ts[0].span], ts[1..], rest);
      SpansCons(args, ts);
    }
  }

  lemma SpansCons(args: seq<Span>, ts: seq<Tok>)
    requires ts != []
    ensures args + [ts[0].span] + Spans(ts[1..]) == args + Spans(ts)
  {
  }

  function Spans(ts: seq<Tok>): (r: seq<Span>)
    ensures |r| == |ts| && forall i :: 0 <= i < |ts| ==> r[i] == ts[i].span
  {
    seq(|ts|, i requires 0 <= i < |ts| => ts[i].span)
  }

  /** With nothing behind it but a place to end, that is a whole line. */
  lemma BlockLine(us: seq<Tok>, open: Tok, close: Tok, rest: seq<Tok>, c: Cmd)
    requires open.kind == '(' && close.kind == ')' && ParseLine(us + ([close] + rest)) == Ok(c, [close] + rest) &&
      Ends(rest)
    ensures ParsePipe([open] + us + [close] + rest) == Ok(c, rest) && ParseLine([open] + us + [close] + rest) == Ok(c,
      rest)
  {
    BlockSpelled(us, open, close, rest, c);
    assert ParseRedirs(rest) == Redirs([], rest);
  }

  lemma WordsSpelled(s: string, ts: seq<Tok>, rest: seq<Tok>, ws: seq<string>)
    requires Spells(s, ts, Words(ws)) && |ws| < MAXARGS && Ends(rest)
    ensures ParseLine(ts + rest) == Ok(Exec(Spans(ts)), rest) && Text(s, Exec(Spans(ts))) == Words(ws)
  {
    var all := ts + rest;
    assert ts != [] ==> all[0] == ts[0] && IsWordTok(s, ts[0], ws[0]);
    assert ts == [] ==> all == rest;
    assert ParseRedirs(all) == Redirs([], all);
    forall i | 0 <= i < |ts| ensures ts[i].kind == 'a' && Sub(s, ts[i].span) == ws[i] {
      assert IsWordTok(s, ts[i], ws[i]);
    }
    ArgsSpelled([], ts, rest);
    assert [] + Spans(ts) == Spans(ts);
    assert ParseExec(all) == Ok(Exec(Spans(ts)), rest);
    assert Text(s, Exec(Spans(ts))).words == ws;
  }

  lemma RedirectedSpelled(us: seq<Tok>, open: Tok, close: Tok, op: Tok, file: Tok, rest: seq<Tok>, c: Cmd)
    requires open.kind == '(' && close.kind == ')' && (op.kind == '<' || op.kind == '>') && file.kind == 'a' &&
      Ends(rest)
    requires ParseLine(us + ([close] + ([op, file] + rest))) == Ok(c, [close] + ([op, file] + rest))
    ensures ParseLine([open] + us + [close] + ([op, file] + rest)) == Ok(Redir(c,
      Redirection(file.span, op.kind == '<')), rest)
  {
    var after := [op, file] + rest;
    var x := Redirection(file.span, op.kind == '<');
    assert after[2..] == rest && ParseRedirs(rest) == Redirs([], rest);
    assert ParseRedirs(after) == Redirs([x], rest);
    BlockSpelled(us, open, close, after, c);
    assert Wrap(c, [x]) == Redir(Wrap(c, []), x);
  }

  lemma PipedSpelled(us: seq<Tok>, open: Tok, close: Tok, op: Tok, more: seq<Tok>, c: Cmd, d: Cmd, rest: seq<Tok>)
    requires open.kind == '(' && close.kind == ')' && op.kind == '|' && Ends(rest)
    requires ParseLine(us + ([close] + ([op] + more))) == Ok(c, [close] + ([op] + more)) &&
      ParsePipe(more) == Ok(d, rest)
    ensures ParseLine([open] + us + [close] + ([op] + more)) == Ok(Pipe(c, d), rest)
  {
    var after := [op] + more;
    assert after[1..] == more && ParseRedirs(after) == Redirs([], after);
    BlockSpelled(us, open, close, after, c);
  }

  lemma ListedSpelled(us: seq<Tok>, open: Tok, close: Tok, op: Tok, more: seq<Tok>, c: Cmd, d: Cmd, rest: seq<Tok>)
    requires open.kind == '(' && close.kind == ')' && op.kind == ';'
    requires ParseLine(us + ([close] + ([op] + more))) == Ok(c, [close] + ([op] + more)) &&
      ParseLine(more) == Ok(d, rest)
    ensures ParseLine([open] + us + [close] + ([op] + more)) == Ok(List(c, d), rest)
  {
    var after := [op] + more;
    assert after[1..] == more && ParseRedirs(after) == Redirs([], after);
    BlockSpelled(us, open, close, after, c);
  }

  lemma BackSpelled(us: seq<Tok>, open: Tok, close: Tok, op: Tok, c: Cmd, rest: seq<Tok>)
    requires open.kind == '(' && close.kind == ')' && op.kind == '&' && Ends(rest)
    requires ParseLine(us + ([close] + ([op] + rest))) == Ok(c, [close] + ([op] + rest))
    ensures ParseLine([open] + us + [close] + ([op] + rest)) == Ok(Back(c), rest)
  {
    var after := [op] + rest;
    assert after[1..] == rest && ParseRedirs(after) == Redirs([], after);
    BlockSpelled(us, open, close, after, c);
    assert ParseBacks(c, after) == ParseBacks(Back(c), rest) == Ok(Back(c), rest);
  }

  lemma SplitUnary(ts: seq<Tok>, n: nat, tail: seq<Tok>, rest: seq<Tok>)
    requires 1 <= n < |ts| && tail == ts[n + 1..]
    ensures ts + rest == [ts[0]] + ts[1..n] + [ts[n]] + (tail + rest)
  {
    assert ts == [ts[0]] + ts[1..n] + [ts[n]] + tail;
  }

  lemma SplitBinary(ts: seq<Tok>, n: nat, m: nat, rest: seq<Tok>)
    requires 1 <= n && n + 3 <= m == |ts| - 1
    ensures ts + rest == [ts[0]] + ts[1..n] + [ts[n]] + ([ts[n + 1]] + ([ts[n + 2]] + ts[n + 3..m] + [ts[m]] + rest))
  {
    assert ts == [ts[0]] + ts[1..n] + [ts[n]] + ([ts[n + 1]] + ([ts[n + 2]] + ts[n + 3..m] + [ts[m]]));
  }

  lemma {:induction false} RedirectedCase(s: string, ts: seq<Tok>, rest: seq<Tok>, t: Tree) returns (c: Cmd)
    requires Printable(t) && Spells(s, ts, t) && Ends(rest) && t.Redirected?
    ensures ParseLine(ts + rest) == Ok(c, rest) && Text(s, c) == t
    decreases t, 0
  {
    var n := |ts| - 3;
    var us, tail := ts[1..n], ts[n + 1..];
    assert tail == [ts[n + 1], ts[n + 2]];
    var d := ParseSpelled(s, us, [ts[n]] + (tail + rest), t.tree);
    RedirectedSpelled(us, ts[0], ts[n], ts[n + 1], ts[n + 2], rest, d);
    SplitUnary(ts, n, tail, rest);
    c := Redir(d, Redirection(ts[n + 2].span, ts[n + 1].kind == '<'));
  }

  lemma {:induction false} PipedCase(s: string, ts: seq<Tok>, rest: seq<Tok>, t: Tree) returns (c: Cmd)
    requires Printable(t) && Spells(s, ts, t) && Ends(rest) && t.Piped?
    ensures ParseLine(ts + rest) == Ok(c, rest) && Text(s, c) == t
    decreases t, 0
  {
    var n, m := Count(t.left) + 1, |ts| - 1;
    var us, vs := ts[1..n], ts[n + 3..m];
    var more := [ts[n + 2]] + vs + [ts[m]] + rest;
    var d := ParseSpelled(s, us, [ts[n]] + ([ts[n + 1]] + more), t.left);
    var e := ParseSpelled(s, vs, [ts[m]] + rest, t.right);
    BlockLine(vs, ts[n + 2], ts[m], rest, e);
    PipedSpelled(us, ts[0], ts[n], ts[n + 1], more, d, e, rest);
    SplitBinary(ts, n, m, rest);
    c := Pipe(d, e);
  }

  lemma {:induction false} ListedCase(s: string, ts: seq<Tok>, rest: seq<Tok>, t: Tree) returns (c: Cmd)
    requires Printable(t) && Spells(s, ts, t) && Ends(rest) && t.Listed?
    ensures ParseLine(ts + rest) == Ok(c, rest) && Text(s, c) == t
    decreases t, 0
  {
    var n, m := Count(t.left) + 1, |ts| - 1;
    var us, vs := ts[1..n], ts[n + 3..m];
    var more := [ts[n + 2]] + vs + [ts[m]] + rest;
    var d := ParseSpelled(s, us, [ts[n]] + ([ts[n + 1]] + more), t.left);
    var e := ParseSpelled(s, vs, [ts[m]] + rest, t.right);
    BlockLine(vs, ts[n + 2], ts[m], rest, e);
    ListedSpelled(us, ts[0], ts[n], ts[n + 1], more, d, e, rest);
    SplitBinary(ts, n, m, rest);
    c := List(d, e);
  }

  lemma {:induction false} BackCase(s: string, ts: seq<Tok>, rest: seq<Tok>, t: Tree) returns (c: Cmd)
    requires Printable(t) && Spells(s, ts, t) && Ends(rest) && t.InBack?
    ensures ParseLine(ts + rest) == Ok(c, rest) && Text(s, c) == t
    decreases t, 0
  {
    var n := |ts| - 2;
    var us, tail := ts[1..n], ts[n + 1..];
    assert tail == [ts[n + 1]];
    var d := ParseSpelled(s, us, [ts[n]] + (tail + rest), t.tree);
    BackSpelled(us, ts[0], ts[n], ts[n + 1], d, rest);
    SplitUnary(ts, n, tail, rest);
    c := Back(d);
  }

  /** Tokens that spell a command parse to it, whatever parenthesis follows. */
  lemma {:induction false} ParseSpelled(s: string, ts: seq<Tok>, rest: seq<Tok>, t: Tree) returns (c: Cmd)
    requires Printable(t) && Spells(s, ts, t) && Ends(rest)
    ensures ParseLine(ts + rest) == Ok(c, rest) && Text(s, c) == t
    decreases t, 1
  {
    match t
    case Words(ws) =>
      WordsSpelled(s, ts, rest, ws);
      c := Exec(Spans(ts));
    case Redirected(_, _, _) => c := RedirectedCase(s, ts, rest, t);
    case Piped(_, _) => c := PipedCase(s, ts, rest, t);
    case Listed(_, _) => c := ListedCase(s, ts, rest, t);
    case InBack(_) => c := BackCase(s, ts, rest, t);
  }

  // ---- Reading what is printed --------------------------------------------------------------------

  /** s has w at position i. */
  predicate HasAt(s: string, i: nat, w: string) {
    i + |w| <= |s| && s[i .. i + |w|] == w
  }

  lemma HasBoth(s: string, i: nat, a: string, b: string)
    ensures HasAt(s, i, a + b) <==> HasAt(s, i, a) && HasAt(s, i + |a|, b)
  {
    if HasAt(s, i, a + b) {
      assert s[i .. i + |a|] == (a + b)[..|a|] && s[i + |a| .. i + |a| + |b|] == (a + b)[|a|..];
    }
    if HasAt(s, i, a) && HasAt(s, i + |a|, b) {
      assert s[i .. i + |a + b|] == s[i .. i + |a|] + s[i + |a| .. i + |a| + |b|];
    }
  }

  lemma LexWord(s: string, i: nat, w: string)
    requires IsText(s) && IsWord(w) && HasAt(s, i, w) && (i + |w| < |s| ==> !IsWordChar(s[i + |w|]))
    ensures Toks(s, i) == [Tok('a', Span(i, i + |w|))] + Toks(s, i + |w|) && IsWordTok(s, Tok('a', Span(i, i + |w|)), w)
  {
    forall k | i <= k < i + |w| ensures IsWordChar(s[k]) {
      assert s[k] == s[i .. i + |w|][k - i] == w[k - i];
    }
    assert IsWordChar(s[i]);
    WordEndAt(s, i, i + |w|);
  }

  lemma LexSymbol(s: string, i: nat, c: char, j: nat)
    requires IsText(s) && i < |s| && s[i] == c && IsSymbol(c) && (c == '>' && i + 1 < |s| ==> s[i + 1] != '>') &&
      j == i + 1
    ensures Toks(s, i) == [Tok(c, Span(i, j))] + Toks(s, j)
  {
  }

  lemma LexSpace(s: string, i: nat)
    requires IsText(s) && i < |s| && s[i] == ' '
    ensures Toks(s, i) == Toks(s, i + 1)
  {
  }

  /** A word and a space come off the front. */
  lemma LexWordsStep(s: string, i: nat, w: string, tail: string)
    requires IsText(s) && IsWord(w) && HasAt(s, i, w + " " + tail)
    ensures HasAt(s, i, w) && HasAt(s, i + |w| + 1, tail) && IsWordTok(s, Tok('a', Span(i, i + |w|)), w)
    ensures Toks(s, i) == [Tok('a', Span(i, i + |w|))] + Toks(s, i + |w| + 1)
  {
    SpaceAfter(s, i, w, tail);
    LexWord(s, i, w);
    LexSpace(s, i + |w|);
  }

  lemma SpaceAfter(s: string, i: nat, w: string, tail: string)
    requires HasAt(s, i, w + " " + tail)
    ensures HasAt(s, i, w) && i + |w| < |s| && s[i + |w|] == ' ' && HasAt(s, i + |w| + 1, tail)
  {
    assert w + " " + tail == w + (" " + tail);
    HasBoth(s, i, w, " " + tail);
    HasBoth(s, i + |w|, " ", tail);
    assert s[i + |w|] == s[i + |w| .. i + |w| + 1][0];
  }

  lemma SpellsCons(s: string, t: Tok, us: seq<Tok>, ws: seq<string>)
    requires ws != [] && IsWordTok(s, t, ws[0]) && Spells(s, us, Words(ws[1..]))
    ensures Spells(s, [t] + us, Words(ws))
  {
    forall k | 0 <= k < |ws| ensures IsWordTok(s, ([t] + us)[k], ws[k]) {
      assert k > 0 ==> IsWordTok(s, us[k - 1], ws[1..][k - 1]);
    }
  }

  lemma LexMoreWords(s: string, i: nat, t: Tok, k: nat, us: seq<Tok>, e: nat)
    requires IsText(s) && i <= |s| && k <= |s| && e <= |s| && Toks(s, i) == [t] + Toks(s, k) &&
      Toks(s, k) == us + Toks(s, e)
    ensures Toks(s, i) == [t] + us + Toks(s, e)
  {
  }

  lemma {:induction false} LexWords(s: string, i: nat, ws: seq<string>, e: nat) returns (ts: seq<Tok>)
    requires IsText(s) && (forall k :: 0 <= k < |ws| ==> IsWord(ws[k])) && HasAt(s, i, Join(ws)) && e == i + |Join(ws)|
    ensures Toks(s, i) == ts + Toks(s, e) && Spells(s, ts, Words(ws))
    decreases |ws|
  {
    ts := [];
    if ws != [] {
      var w, tail := ws[0], Join(ws[1..]);
      LexWordsStep(s, i, w, tail);
      var t, k := Tok('a', Span(i, i + |w|)), i + |w| + 1;
      assert e == k + |tail|;
      var us := LexWords(s, k, ws[1..], e);
      LexMoreWords(s, i, t, k, us, e);
      SpellsCons(s, t, us, ws);
      ts := [t] + us;
    }
  }

  lemma Pieces(s: string, i: nat, a: string, b: string, c: string)
    requires HasAt(s, i, a + b + c)
    ensures HasAt(s, i, a) && HasAt(s, i + |a|, b) && HasAt(s, i + |a| + |b|, c)
  {
    HasBoth(s, i, a + b, c);
    HasBoth(s, i, a, b);
  }

  lemma CharAt(s: string, i: nat, w: string, k: nat)
    requires HasAt(s, i, w) && k < |w|
    ensures s[i + k] == w[k]
  {
    assert s[i + k] == s[i .. i + |w|][k];
  }

  /** A parenthesised piece comes off the front. */
  function Block(i: nat, us: seq<Tok>, e: nat): seq<Tok> {
    [Tok('(', Span(i, i + 1))] + us + [Tok(')', Span(e, e + 1))]
  }

  lemma LexBlock(s: string, i: nat, j: nat, us: seq<Tok>, e: nat, e1: nat)
    requires IsText(s) && j == i + 1 <= e < |s| && e1 == e + 1 && s[i] == '(' && s[e] == ')' &&
      Toks(s, j) == us + Toks(s, e)
    ensures Toks(s, i) == Block(i, us, e) + Toks(s, e1)
  {
    var x, y := Tok('(', Span(i, j)), Tok(')', Span(e, e1));
    var a, b, c, d := Toks(s, i), Toks(s, j), Toks(s, e), Toks(s, e1);
    assert a == [x] + b by { LexSymbol(s, i, '(', j); }
    assert c == [y] + d by { LexSymbol(s, e, ')', e1); }
    Enclose(a, x, b, us, c, y, d);
  }

  lemma Enclose(a: seq<Tok>, x: Tok, b: seq<Tok>, us: seq<Tok>, c: seq<Tok>, y: Tok, d: seq<Tok>)
    requires a == [x] + b && b == us + c && c == [y] + d
    ensures a == [x] + us + [y] + d
  {
  }

  /** Where the parts of a printed redirection are. */
  lemma RedirectedShape(s: string, i: nat, u: Tree, f: string, op: char, m: nat)
    requires HasAt(s, i, "(" + Show(u) + ")" + [op] + f) && m == i + 1 + |Show(u)|
    ensures i < |s| && s[i] == '(' && HasAt(s, i + 1, Show(u)) && m + 1 < |s| && s[m] == ')' && s[m + 1] == op &&
      HasAt(s, m + 2, f)
  {
    Pieces(s, i, "(" + Show(u) + ")", [op], f);
    Pieces(s, i, "(", Show(u), ")");
    CharAt(s, i, "(", 0);
    CharAt(s, m, ")", 0);
    CharAt(s, m + 1, [op], 0);
  }

  lemma BlockShape(i: nat, us: seq<Tok>, m: nat, more: seq<Tok>)
    ensures var ts := Block(i, us, m) + more; var n := |us| + 1;
      && |ts| == n + 1 + |more| && ts[0].kind == '(' && ts[1..n] == us && ts[n].kind == ')'
      && (forall k :: 0 <= k < |more| ==> ts[n + 1 + k] == more[k])
  {
  }

  lemma TwoToks(a: seq<Tok>, x: Tok, b: seq<Tok>, y: Tok, c: seq<Tok>)
    requires a == [x] + b && b == [y] + c
    ensures a == [x, y] + c
  {
  }

  lemma MoreToks(a: seq<Tok>, x: Tok, b: seq<Tok>, ys: seq<Tok>, c: seq<Tok>)
    requires a == [x] + b && b == ys + c
    ensures a == [x] + ys + c
  {
  }

  lemma RedirTail(s: string, k: nat, f: string, op: char, e: nat)
    requires IsText(s) && k < |s| && s[k] == op && (op == '<' || op == '>')
    requires IsWord(f) && HasAt(s, k + 1, f) && e == k + 1 + |f| && (e < |s| ==> !IsWordChar(s[e]))
    ensures Toks(s, k) == [Tok(op, Span(k, k + 1)), Tok('a', Span(k + 1, e))] + Toks(s, e) &&
      IsWordTok(s, Tok('a', Span(k + 1, e)), f)
  {
    CharAt(s, k + 1, f, 0);
    LexSymbol(s, k, op, k + 1);
    LexWord(s, k + 1, f);
    TwoToks(Toks(s, k), Tok(op, Span(k, k + 1)), Toks(s, k + 1), Tok('a', Span(k + 1, e)), Toks(s, e));
  }

  lemma JoinToks(a: seq<Tok>, bs: seq<Tok>, b: seq<Tok>, cs: seq<Tok>, c: seq<Tok>)
    requires a == bs + b && b == cs + c
    ensures a == bs + cs + c
  {
  }

  lemma RedirectedJoin(s: string, i: nat, t: Tree, us: seq<Tok>, op: char, m: nat, e: nat) returns (ts: seq<Tok>)
    requires IsText(s) && t.Redirected? && op == (if t.input then '<' else '>') && IsWord(t.file)
    requires i < m && m + 1 < |s| && s[i] == '(' && s[m] == ')' && s[m + 1] == op
    requires HasAt(s, m + 2, t.file) && e == m + 2 + |t.file| && (e < |s| ==> !IsWordChar(s[e]))
    requires Toks(s, i + 1) == us + Toks(s, m) && Spells(s, us, t.tree)
    ensures Toks(s, i) == ts + Toks(s, e) && Spells(s, ts, t)
  {
    RedirTail(s, m + 1, t.file, op, e);
    var more := [Tok(op, Span(m + 1, m + 2)), Tok('a', Span(m + 2, e))];
    LexBlock(s, i, i + 1, us, m, m + 1);
    JoinToks(Toks(s, i), Block(i, us, m), Toks(s, m + 1), more, Toks(s, e));
    ts := Block(i, us, m) + more;
    RedirectedSpells(s, i, us, m, more[0], more[1], t);
  }

  lemma {:induction false} LexRedirected(s: string, i: nat, t: Tree, e: nat) returns (ts: seq<Tok>)
    requires IsText(s) && Printable(t) && HasAt(s, i, Show(t)) && e == i + |Show(t)| &&
      (e < |s| ==> !IsWordChar(s[e])) && t.Redirected?
    ensures Toks(s, i) == ts + Toks(s, e) && Spells(s, ts, t)
    decreases t, 0
  {
    var op, m := if t.input then '<' else '>', i + 1 + |Show(t.tree)|;
    assert Show(t) == "(" + Show(t.tree) + ")" + [op] + t.file;
    RedirectedShape(s, i, t.tree, t.file, op, m);
    var us := LexShow(s, i + 1, t.tree, m);
    ts := RedirectedJoin(s, i, t, us, op, m, e);
  }

  lemma RedirectedSpells(s: string, i: nat, us: seq<Tok>, m: nat, x: Tok, y: Tok, t: Tree)
    requires t.Redirected? && Spells(s, us, t.tree) && x.kind == (if t.input then '<' else '>') &&
      IsWordTok(s, y, t.file)
    ensures Spells(s, Block(i, us, m) + [x, y], t)
  {
    BlockShape(i, us, m, [x, y]);
  }

  lemma PairShape(s: string, i: nat, a: string, b: string, op: char, m: nat, e: nat)
    requires HasAt(s, i, "(" + a + [')', op, '('] + b + ")") && m == i + 1 + |a| && e == m + 3 + |b| + 1
    ensures e <= |s| && s[i] == '(' && HasAt(s, i + 1, a) && s[m] == ')' && s[m + 1] == op &&
      s[m + 2] == '(' && HasAt(s, m + 3, b) && s[e - 1] == ')'
  {
    var mid := [')', op, '('];
    Pieces(s, i, "(" + a + mid, b, ")");
    Pieces(s, i, "(", a, mid);
    CharAt(s, i, "(", 0);
    CharAt(s, m, mid, 0);
    CharAt(s, m, mid, 1);
    CharAt(s, m, mid, 2);
    CharAt(s, e - 1, ")", 0);
  }

  lemma PairToks(s: string, i: nat, us: seq<Tok>, vs: seq<Tok>, op: char, j: nat, m: nat, k: nat, l: nat, e: nat)
    requires IsText(s) && PairAt(s, i, op, j, m, k, l, e) && (op == '|' || op == ';')
    requires Toks(s, j) == us + Toks(s, m) && Toks(s, k) == vs + Toks(s, l)
    ensures Toks(s, i) == Block(i, us, m) + ([Tok(op, Span(m + 1, m + 2))] + Block(m + 2, vs, l)) + Toks(s, e)
  {
    var x, right := Tok(op, Span(m + 1, m + 2)), Block(m + 2, vs, l);
    var a, b, c, d := Toks(s, i), Toks(s, m + 1), Toks(s, m + 2), Toks(s, e);
    assert a == Block(i, us, m) + b by { LexBlock(s, i, j, us, m, m + 1); }
    assert b == [x] + c by { LexSymbol(s, m + 1, op, m + 2); }
    assert c == right + d by { LexBlock(s, m + 2, k, vs, l, e); }
    MoreToks(b, x, c, right, d);
    JoinToks(a, Block(i, us, m), b, [x] + right, d);
  }

  /** The tokens of a pair, found by position. */
  lemma PairTokShape(i: nat, us: seq<Tok>, m: nat, x: Tok, k: nat, vs: seq<Tok>, l: nat)
    ensures var ts := Block(i, us, m) + ([x] + Block(k, vs, l)); var n := |us| + 1;
      && |ts| == |us| + |vs| + 5 && ts[0].kind == '(' && ts[1..n] == us && ts[n].kind == ')' && ts[n + 1] == x
      && ts[n + 2].kind == '('
      && ts[n + 3..|ts| - 1] == vs && ts[|ts| - 1].kind == ')'
  {
  }

  lemma PairSpells(s: string, i: nat, us: seq<Tok>, m: nat, x: Tok, k: nat, vs: seq<Tok>, l: nat, t: Tree)
    requires ((t.Piped? && x.kind == '|') || (t.Listed? && x.kind == ';')) && Spells(s, us, t.left) &&
      Spells(s, vs, t.right)
    ensures Spells(s, Block(i, us, m) + ([x] + Block(k, vs, l)), t)
  {
    PairTokShape(i, us, m, x, k, vs, l);
    var ts, n := Block(i, us, m) + ([x] + Block(k, vs, l)), Count(t.left) + 1;
    assert |us| == Count(t.left) && |vs| == Count(t.right) && ts[1..n] == us && ts[n + 3..|ts| - 1] == vs;
  }

  lemma PairJoin(s: string, i: nat, t: Tree, us: seq<Tok>, vs: seq<Tok>, op: char, j: nat, m: nat, k: nat, l: nat,
                 e: nat) returns (ts: seq<Tok>)
    requires IsText(s) && PairAt(s, i, op, j, m, k, l, e) && ((t.Piped? && op == '|') || (t.Listed? && op == ';'))
    requires Toks(s, j) == us + Toks(s, m) && Toks(s, k) == vs + Toks(s, l) && Spells(s, us, t.left) &&
      Spells(s, vs, t.right)
    ensures Toks(s, i) == ts + Toks(s, e) && Spells(s, ts, t)
  {
    PairToks(s, i, us, vs, op, j, m, k, l, e);
    PairSpells(s, i, us, m, Tok(op, Span(m + 1, m + 2)), m + 2, vs, l, t);
    ts := Block(i, us, m) + ([Tok(op, Span(m + 1, m + 2))] + Block(m + 2, vs, l));
  }

  /** Where the parts of a printed pair are: the left one at j..m, the right one at k..l. */
  lemma PairHas(s: string, i: nat, t: Tree, e: nat) returns (op: char, j: nat, m: nat, k: nat, l: nat)
    requires HasAt(s, i, Show(t)) && e == i + |Show(t)| && (t.Piped? || t.Listed?)
    ensures (t.Piped? && op == '|') || (t.Listed? && op == ';')
    ensures PairAt(s, i, op, j, m, k, l, e)
    ensures HasAt(s, j, Show(t.left)) && m == j + |Show(t.left)| && HasAt(s, k, Show(t.right)) &&
      l == k + |Show(t.right)|
  {
    op, j, m := if t.Piped? then '|' else ';', i + 1, i + 1 + |Show(t.left)|;
    k, l := m + 3, e - 1;
    assert Show(t) == "(" + Show(t.left) + [')', op, '('] + Show(t.right) + ")";
    PairShape(s, i, Show(t.left), Show(t.right), op, m, e);
  }

  predicate PairAt(s: string, i: nat, op: char, j: nat, m: nat, k: nat, l: nat, e: nat) {
    && j == i + 1 <= m && k == m + 3 <= l && e == l + 1 <= |s|
    && s[i] == '(' && s[m] == ')' && s[m + 1] == op && s[m + 2] == '(' && s[l] == ')'
  }

  lemma {:induction false} LexPair(s: string, i: nat, t: Tree, e: nat) returns (ts: seq<Tok>)
    requires IsText(s) && Printable(t) && HasAt(s, i, Show(t)) && e == i + |Show(t)| && (t.Piped? || t.Listed?)
    ensures Toks(s, i) == ts + Toks(s, e) && Spells(s, ts, t)
    decreases t, 0
  {
    var op, j, m, k, l := PairHas(s, i, t, e);
    var us := LexShow(s, j, t.left, m);
    var vs := LexShow(s, k, t.right, l);
    ts := PairJoin(s, i, t, us, vs, op, j, m, k, l, e);
  }

  lemma BackShape(s: string, i: nat, a: string, m: nat)
    requires HasAt(s, i, "(" + a + ")&") && m == i + 1 + |a|
    ensures m + 1 < |s| && s[i] == '(' && HasAt(s, i + 1, a) && s[m] == ')' && s[m + 1] == '&'
  {
    Pieces(s, i, "(", a, ")&");
    CharAt(s, i, "(", 0);
    CharAt(s, m, ")&", 0);
    CharAt(s, m, ")&", 1);
  }

  lemma BackJoin(s: string, i: nat, t: Tree, j: nat, us: seq<Tok>, m: nat, e: nat) returns (ts: seq<Tok>)
    requires IsText(s) && t.InBack? && Spells(s, us, t.tree) && e == m + 2 && j == i + 1
    requires i < m && m + 1 < |s| && s[i] == '(' && s[m] == ')' && s[m + 1] == '&' && Toks(s, j) == us + Toks(s, m)
    ensures Toks(s, i) == ts + Toks(s, e) && Spells(s, ts, t)
  {
    LexBlock(s, i, j, us, m, m + 1);
    LexSymbol(s, m + 1, '&', e);
    var more := [Tok('&', Span(m + 1, e))];
    JoinToks(Toks(s, i), Block(i, us, m), Toks(s, m + 1), more, Toks(s, e));
    ts := Block(i, us, m) + more;
    BackSpells(s, i, us, m, more[0], t);
  }

  lemma BackSpells(s: string, i: nat, us: seq<Tok>, m: nat, x: Tok, t: Tree)
    requires t.InBack? && Spells(s, us, t.tree) && x.kind == '&'
    ensures Spells(s, Block(i, us, m) + [x], t)
  {
    BlockShape(i, us, m, [x]);
  }

  lemma {:induction false} LexBack(s: string, i: nat, t: Tree, e: nat) returns (ts: seq<Tok>)
    requires IsText(s) && Printable(t) && HasAt(s, i, Show(t)) && e == i + |Show(t)| && t.InBack?
    ensures Toks(s, i) == ts + Toks(s, e) && Spells(s, ts, t)
    decreases t, 0
  {
    var j, m := i + 1, i + 1 + |Show(t.tree)|;
    BackShape(s, i, Show(t.tree), m);
    var us := LexShow(s, j, t.tree, m);
    ts := BackJoin(s, i, t, j, us, m, e);
  }

  /** Printing a command and reading its tokens gives tokens that spell it. */
  lemma {:induction false} LexShow(s: string, i: nat, t: Tree, e: nat) returns (ts: seq<Tok>)
    requires IsText(s) && Printable(t) && HasAt(s, i, Show(t)) && e == i + |Show(t)| && (e < |s| ==> !IsWordChar(s[e]))
    ensures Toks(s, i) == ts + Toks(s, e) && Spells(s, ts, t)
    decreases t, 1
  {
    match t
    case Words(ws) => ts := LexWords(s, i, ws, e);
    case Redirected(_, _, _) => ts := LexRedirected(s, i, t, e);
    case Piped(_, _) => ts := LexPair(s, i, t, e);
    case Listed(_, _) => ts := LexPair(s, i, t, e);
    case InBack(_) => ts := LexBack(s, i, t, e);
  }

  lemma {:induction false} ShowIsText(t: Tree)
    requires Printable(t)
    ensures IsText(Show(t))
    decreases t
  {
    match t
    case Words(ws) => JoinIsText(ws);
    case Redirected(u, f, _) => ShowIsText(u);
    case Piped(l, r) =>
      ShowIsText(l);
      ShowIsText(r);
    case Listed(l, r) =>
      ShowIsText(l);
      ShowIsText(r);
    case InBack(u) => ShowIsText(u);
  }

  lemma {:induction false} JoinIsText(ws: seq<string>)
    requires forall i :: 0 <= i < |ws| ==> IsWord(ws[i])
    ensures IsText(Join(ws))
  {
    if ws != [] {
      JoinIsText(ws[1..]);
    }
  }

  /** Parsing the printing of a command, of any depth, gives the command back, with nothing left over. */
  lemma RoundTrip(t: Tree) returns (c: Cmd)
    requires Printable(t)
    ensures IsText(Show(t)) && ParseLine(Toks(Show(t), 0)) == Ok(c, []) && Text(Show(t), c) == t
  {
    ShowIsText(t);
    var s := Show(t);
    assert HasAt(s, 0, s);
    var ts := LexShow(s, 0, t, |s|);
    assert Toks(s, |s|) == [];
    assert Toks(s, 0) == ts + [];
    c := ParseSpelled(s, ts, [], t);
  }

  // ---- Terminating the words ------------------------------------------------------------------------

  /** The ends of the words of a command. */
  ghost function WordEnds(c: Cmd): set<nat> {
    match c
    case Exec(args) => set i | 0 <= i < |args| :: args[i].hi
    case Redir(d, r) => WordEnds(d) + {r.file.hi}
    case Pipe(l, r) => WordEnds(l) + WordEnds(r)
    case List(l, r) => WordEnds(l) + WordEnds(r)
    case Back(d) => WordEnds(d)
  }

  /** The span is a maximal word of s. */
  predicate WordAt(s: string, span: Span) {
    && span.lo < span.hi <= |s| && (span.hi < |s| ==> !IsWordChar(s[span.hi]))
    && forall k :: span.lo <= k < span.hi ==> IsWordChar(s[k])
  }

  /** Every word of the command is one. */
  predicate WordsOf(s: string, c: Cmd) {
    match c
    case Exec(args) => forall i :: 0 <= i < |args| ==> WordAt(s, args[i])
    case Redir(d, r) => WordsOf(s, d) && WordAt(s, r.file)
    case Pipe(l, r) => WordsOf(s, l) && WordsOf(s, r)
    case List(l, r) => WordsOf(s, l) && WordsOf(s, r)
    case Back(d) => WordsOf(s, d)
  }

  /** The buffer with NULs stored at the given places. */
  ghost predicate Terminated(b: seq<char>, b': seq<char>, ends: set<nat>) {
    |b'| == |b| && forall k :: 0 <= k < |b| ==> b'[k] == if k in ends then NUL else b[k]
  }

  lemma TerminatedTwice(b0: seq<char>, b1: seq<char>, b2: seq<char>, e1: set<nat>, e2: set<nat>)
    requires Terminated(b0, b1, e1) && Terminated(b1, b2, e2)
    ensures Terminated(b0, b2, e1 + e2)
  {
  }

  /** NUL-terminate all the words (sh.c:454-499), in the buffer that holds them. */
  method NulTerminate(buf: array<char>, c: Cmd, ghost s: string)
    requires WordsOf(s, c) && buf.Length == |s| + 1
    modifies buf
    ensures Terminated(old(buf[..]), buf[..], WordEnds(c))
    decreases c
  {
    ghost var b0 := buf[..];
    match c
    case Exec(args) =>
      var i := 0;
      while i < |args|
        invariant 0 <= i <= |args|
        invariant Terminated(b0, buf[..], set j | 0 <= j < i :: args[j].hi)
      {
        assert WordAt(s, args[i]);
        ghost var b1 := buf[..];
        buf[args[i].hi] := NUL;
        TerminatedTwice(b0, b1, buf[..], set j | 0 <= j < i :: args[j].hi, {args[i].hi});
        assert (set j | 0 <= j < i + 1 :: args[j].hi) == (set j | 0 <= j < i :: args[j].hi) + {args[i].hi};
        i := i + 1;
      }
    case Redir(d, r) =>
      NulTerminate(buf, d, s);
      ghost var b1 := buf[..];
      buf[r.file.hi] := NUL;
      TerminatedTwice(b0, b1, buf[..], WordEnds(d), {r.file.hi});
    case Pipe(l, r) =>
      NulTerminate(buf, l, s);
      ghost var b1 := buf[..];
      NulTerminate(buf, r, s);
      TerminatedTwice(b0, b1, buf[..], WordEnds(l), WordEnds(r));
    case List(l, r) =>
      NulTerminate(buf, l, s);
      ghost var b1 := buf[..];
      NulTerminate(buf, r, s);
      TerminatedTwice(b0, b1, buf[..], WordEnds(l), WordEnds(r));
    case Back(d) => NulTerminate(buf, d, s);
  }

  /** b read as a C string from lo on is w. */
  predicate CString(b: seq<char>, lo: nat, w: string) {
    lo + |w| < |b| && b[lo .. lo + |w|] == w && b[lo + |w|] == NUL && IsText(w)
  }

  /** Each word of the command, read from b as a C string, is exactly its token in s. */
  predicate ReadsBack(b: seq<char>, s: string, c: Cmd) {
    match c
    case Exec(args) => forall i :: 0 <= i < |args| ==> CString(b, args[i].lo, Sub(s, args[i]))
    case Redir(d, r) => ReadsBack(b, s, d) && CString(b, r.file.lo, Sub(s, r.file))
    case Pipe(l, r) => ReadsBack(b, s, l) && ReadsBack(b, s, r)
    case List(l, r) => ReadsBack(b, s, l) && ReadsBack(b, s, r)
    case Back(d) => ReadsBack(b, s, d)
  }

  /** The terminators fall between words, never inside one. */
  lemma TerminatedWord(s: string, b: seq<char>, ends: set<nat>, span: Span)
    requires Terminated(s + [NUL], b, ends) && (forall k :: k in ends && k < |s| ==> !IsWordChar(s[k])) &&
      WordAt(s, span) && span.hi in ends
    ensures CString(b, span.lo, Sub(s, span))
  {
    assert b[span.lo..span.hi] == s[span.lo..span.hi];
  }

  lemma {:induction false} WordsReadBack(s: string, b: seq<char>, ends: set<nat>, c: Cmd)
    requires WordsOf(s, c) && WordEnds(c) <= ends && Terminated(s + [NUL], b, ends) &&
      forall k :: k in ends && k < |s| ==> !IsWordChar(s[k])
    ensures ReadsBack(b, s, c)
    decreases c
  {
    match c
    case Exec(args) =>
      forall i | 0 <= i < |args| ensures CString(b, args[i].lo, Sub(s, args[i])) {
        assert args[i].hi in WordEnds(c);
        TerminatedWord(s, b, ends, args[i]);
      }
    case Redir(d, r) =>
      WordsReadBack(s, b, ends, d);
      TerminatedWord(s, b, ends, r.file);
    case Pipe(l, r) =>
      WordsReadBack(s, b, ends, l);
      WordsReadBack(s, b, ends, r);
    case List(l, r) =>
      WordsReadBack(s, b, ends, l);
      WordsReadBack(s, b, ends, r);
    case Back(d) => WordsReadBack(s, b, ends, d);
  }

  /** No word ends inside a word. */
  lemma {:induction false} EndsAreWordEnds(s: string, c: Cmd, k: nat)
    requires WordsOf(s, c) && k < |s| && k in WordEnds(c)
    ensures !IsWordChar(s[k])
    decreases c
  {
    match c
    case Exec(args) =>
      var i :| 0 <= i < |args| && args[i].hi == k;
      assert WordAt(s, args[i]);
    case Redir(d, r) =>
      if k in WordEnds(d) {
        EndsAreWordEnds(s, d, k);
      }
    case Pipe(l, r) =>
      if k in WordEnds(l) {
        EndsAreWordEnds(s, l, k);
      } else {
        EndsAreWordEnds(s, r, k);
      }
    case List(l, r) =>
      if k in WordEnds(l) {
        EndsAreWordEnds(s, l, k);
      } else {
        EndsAreWordEnds(s, r, k);
      }
    case Back(d) => EndsAreWordEnds(s, d, k);
  }

  // ---- Every word found is one -----------------------------------------------------------------------

  predicate WordToks(s: string, ts: seq<Tok>) {
    forall k :: 0 <= k < |ts| && ts[k].kind == 'a' ==> WordAt(s, ts[k].span)
  }

  lemma {:induction false} ToksAreWords(s: string, i: nat)
    requires i <= |s| && IsText(s)
    ensures WordToks(s, Toks(s, i))
    decreases |s| - i
  {
    var q := SkipSpaces(s, i);
    if q < |s| {
      ToksAreWords(s, TokenAt(s, q).span.hi);
    }
  }

  predicate WordRedirs(s: string, rs: seq<Redirection>) {
    forall k :: 0 <= k < |rs| ==> WordAt(s, rs[k].file)
  }

  lemma {:induction false} RedirsWords(s: string, ts: seq<Tok>)
    requires WordToks(s, ts)
    ensures ParseRedirs(ts).Redirs? ==> WordRedirs(s, ParseRedirs(ts).list) && WordToks(s, ParseRedirs(ts).rest)
    decreases |ts|
  {
    if (Next(ts) == '<' || Next(ts) == '>') && |ts| >= 2 && ts[1].kind == 'a' {
      RedirsWords(s, ts[2..]);
    }
  }

  lemma {:induction false} WrapWords(s: string, c: Cmd, rs: seq<Redirection>)
    requires WordsOf(s, c) && WordRedirs(s, rs)
    ensures WordsOf(s, Wrap(c, rs))
    decreases |rs|
  {
    if rs != [] {
      WrapWords(s, c, rs[..|rs| - 1]);
    }
  }

  lemma {:induction false} ArgsWords(s: string, args: seq<Span>, rs: seq<Redirection>, ts: seq<Tok>)
    requires WordToks(s, ts) && WordRedirs(s, rs) && WordsOf(s, Exec(args))
    ensures GoodParse(s, ParseArgs(args, rs, ts))
    decreases |ts|
  {
    WrapWords(s, Exec(args), rs);
    if ts != [] && ts[0].kind == 'a' && |args| + 1 < MAXARGS {
      RedirsWords(s, ts[1..]);
      var r := ParseRedirs(ts[1..]);
      if r.Redirs? {
        ArgsWords(s, args + [ts[0].span], rs + r.list, r.rest);
      }
    }
  }

  predicate GoodParse(s: string, p: Parsed) {
    p.Ok? ==> WordsOf(s, p.cmd) && WordToks(s, p.rest)
  }

  lemma {:induction false} ExecWords(s: string, ts: seq<Tok>)
    requires WordToks(s, ts)
    ensures GoodParse(s, ParseExec(ts))
    decreases |ts|, 1
  {
    if Next(ts) == '(' {
      BlockWords(s, ts);
    } else {
      RedirsWords(s, ts);
      var r := ParseRedirs(ts);
      if r.Redirs? {
        ArgsWords(s, [], r.list, r.rest);
      }
    }
  }

  lemma {:induction false} BlockWords(s: string, ts: seq<Tok>)
    requires WordToks(s, ts) && Next(ts) == '('
    ensures GoodParse(s, ParseBlock(ts))
    decreases |ts|, 0
  {
    LineWords(s, ts[1..]);
    var line := ParseLine(ts[1..]);
    if line.Ok? && Next(line.rest) == ')' {
      RedirsWords(s, line.rest[1..]);
      var r := ParseRedirs(line.rest[1..]);
      if r.Redirs? {
        WrapWords(s, line.cmd, r.list);
      }
    }
  }

  lemma {:induction false} PipeWords(s: string, ts: seq<Tok>)
    requires WordToks(s, ts)
    ensures GoodParse(s, ParsePipe(ts))
    decreases |ts|, 2
  {
    ExecWords(s, ts);
    var p := ParseExec(ts);
    if p.Ok? && Next(p.rest) == '|' {
      PipeWords(s, p.rest[1..]);
    }
  }

  lemma {:induction false} BacksWords(s: string, c: Cmd, ts: seq<Tok>)
    requires WordsOf(s, c) && WordToks(s, ts)
    ensures GoodParse(s, ParseBacks(c, ts))
    decreases |ts|
  {
    if Next(ts) == '&' {
      BacksWords(s, Back(c), ts[1..]);
    }
  }

  lemma {:induction false} LineWords(s: string, ts: seq<Tok>)
    requires WordToks(s, ts)
    ensures GoodParse(s, ParseLine(ts))
    decreases |ts|, 3
  {
    PipeWords(s, ts);
    var p := ParsePipe(ts);
    if p.Ok? {
      BacksWords(s, p.cmd, p.rest);
      var b := ParseBacks(p.cmd, p.rest);
      if Next(b.rest) == ';' {
        LineWords(s, b.rest[1..]);
      }
    }
  }

  /**
   parsecmd (sh.c:333-348) on a NUL-terminated buffer: it gives the command that the text means, or panics if the text
   is no line of the language. On success the words of the command have been terminated in place.
   */
  method ParseCmd(buf: array<char>, s: string) returns (r: Outcome)
    requires IsText(s) && buf.Length == |s| + 1 && buf[..] == s + [NUL]
    modifies buf
    ensures r.Done? ==> Means(s, r.cmd) && WordsOf(s, r.cmd)
    ensures r.Done? ==> Terminated(s + [NUL], buf[..], WordEnds(r.cmd)) && ReadsBack(buf[..], s, r.cmd)
    ensures r.Panic? ==> buf[..] == s + [NUL] && forall c :: !Means(s, c)
  {
    r := ParseLineAt(s, 0);
    forall c ensures ParseLine(Toks(s, 0)) == Ok(c, []) <==> Means(s, c) {
      ParsesExactly(s, c);
    }
    if r.Panic? {
      return;
    }
    var b, j := Peek(s, r.pos, "");
    if j != |s| {
      return Panic("syntax");
    }
    ToksAreWords(s, 0);
    LineWords(s, Toks(s, 0));
    NulTerminate(buf, r.cmd, s);
    forall k | k in WordEnds(r.cmd) && k < |s| ensures !IsWordChar(s[k]) {
      EndsAreWordEnds(s, r.cmd, k);
    }
    WordsReadBack(s, buf[..], WordEnds(r.cmd), r.cmd);
  }
}
