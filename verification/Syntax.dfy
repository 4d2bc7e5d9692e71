/**
 The language of the shell (sh.c:267-452): which texts are commands, and what they mean. Nothing here
 says how a command is found.
 */
module Syntax {
  const MAXARGS: nat := 10
  const NUL: char := '\0'

  // ---- Characters and tokens ---------------------------------------------------

  predicate IsSpace(c: char) {
    c == ' ' || c == '\t' || c == '\r' || c == '\n' || c == '\U{0B}'
  }

  predicate IsSymbol(c: char) {
    c == '<' || c == '|' || c == '>' || c == '&' || c == ';' || c == '(' || c == ')'
  }

  predicate IsWordChar(c: char) {
    !IsSpace(c) && !IsSymbol(c) && c != NUL
  }

  /** A C string: the characters before its terminator. */
  predicate IsText(s: string) {
    forall i :: 0 <= i < |s| ==> s[i] != NUL
  }

  datatype Span = Span(lo: nat, hi: nat)

  /** A token: a symbol, '+' for ">>", or 'a' for a word; and where it is. */
  datatype Tok = Tok(kind: char, span: Span)

  predicate IsWord(w: string) {
    w != "" && forall i :: 0 <= i < |w| ==> IsWordChar(w[i])
  }

  /** w is written as a token of this kind. */
  predicate TokenText(kind: char, w: string) {
    if kind == 'a' then IsWord(w) else if kind == '+' then w == ">>" else kind in "<|>&;()" && w == [kind]
  }

  /** A word goes on as long as it can, and ">>" is one token. */
  predicate EndsAt(s: string, t: Tok) {
    t.span.hi < |s| ==> (t.kind == 'a' ==> !IsWordChar(s[t.span.hi])) && (t.kind == '>' ==> s[t.span.hi] != '>')
  }

  predicate Blank(s: string, i: nat, j: nat) {
    i <= j <= |s| && forall k :: i <= k < j ==> s[k] in " \t\r\n\U{0B}"
  }

  /** From position i on, s consists of these tokens, with blanks around them. */
  predicate Reads(s: string, i: nat, ts: seq<Tok>)
    decreases |ts|
  {
    if ts == [] then Blank(s, i, |s|)
    else
      var t := ts[0];
      && Blank(s, i, t.span.lo) && t.span.lo < t.span.hi <= |s| && TokenText(t.kind, s[t.span.lo..t.span.hi])
      && EndsAt(s, t) && Reads(s, t.span.hi, ts[1..])
  }

  // ---- Commands ------------------------------------------------------------------

  /** Redirections: file, and whether it is for input (descriptor 0) or output (descriptor 1). */
  datatype Redirection = Redirection(file: Span, input: bool)

  datatype Cmd =
    | Exec(args: seq<Span>)
    | Redir(cmd: Cmd, redirection: Redirection)
    | Pipe(left: Cmd, right: Cmd)
    | List(left: Cmd, right: Cmd)
    | Back(cmd: Cmd)

  /** Redirections wrap a command from the inside out, in the order they are met. */
  function Wrap(c: Cmd, rs: seq<Redirection>): Cmd {
    if rs == [] then c else Redir(Wrap(c, rs[..|rs| - 1]), rs[|rs| - 1])
  }

  /** The one written last is outermost. */
  lemma WrapLast(c: Cmd, rs: seq<Redirection>, r: Redirection)
    ensures Wrap(c, rs + [r]) == Redir(Wrap(c, rs), r)
  {
    assert (rs + [r])[..|rs|] == rs;
  }

  // ---- The grammar ------------------------------------------------------------------------

  /** "<" file, ">" file or ">>" file. */
  datatype RedirPart = RedirPart(op: Tok, file: Tok)

  /** A word of a command and the redirections behind it. */
  datatype ArgPart = ArgPart(word: Tok, redirs: seq<RedirPart>)

  /** Words with redirections before, between and behind them; or a line in parentheses with redirections behind it. */
  datatype SimplePart =
    | Plain(redirs: seq<RedirPart>, args: seq<ArgPart>)
    | Paren(open: Tok, line: LinePart, close: Tok, redirs: seq<RedirPart>)

  datatype PipePart = Single(simple: SimplePart) | Through(simple: SimplePart, bar: Tok, pipe: PipePart)

  /** A pipeline, any number of "&", and perhaps ";" and another line. */
  datatype LinePart =
    | Last(pipe: PipePart, amps: seq<Tok>)
    | Then(pipe: PipePart, amps: seq<Tok>, semi: Tok, line: LinePart)

  function RedirToks(rs: seq<RedirPart>): seq<Tok> {
    if rs == [] then [] else [rs[0].op, rs[0].file] + RedirToks(rs[1..])
  }

  function ArgToks(xs: seq<ArgPart>): seq<Tok> {
    if xs == [] then [] else [xs[0].word] + RedirToks(xs[0].redirs) + ArgToks(xs[1..])
  }

  function SimpleToks(x: SimplePart): seq<Tok> {
    match x
    case Plain(redirs, args) => RedirToks(redirs) + ArgToks(args)
    case Paren(open, line, close, redirs) => [open] + LineToks(line) + [close] + RedirToks(redirs)
  }

  function PipeToks(x: PipePart): seq<Tok> {
    match x
    case Single(simple) => SimpleToks(simple)
    case Through(simple, bar, pipe) => SimpleToks(simple) + [bar] + PipeToks(pipe)
  }

  function LineToks(x: LinePart): seq<Tok> {
    match x
    case Last(pipe, amps) => PipeToks(pipe) + amps
    case Then(pipe, amps, semi, line) => PipeToks(pipe) + amps + [semi] + LineToks(line)
  }

  predicate AllOf(ts: seq<Tok>, kind: char) {
    forall k :: 0 <= k < |ts| ==> ts[k].kind == kind
  }

  predicate GoodRedirs(rs: seq<RedirPart>) {
    forall k :: 0 <= k < |rs| ==> rs[k].op.kind in "<>+" && rs[k].file.kind == 'a'
  }

  predicate GoodArgs(xs: seq<ArgPart>) {
    forall k :: 0 <= k < |xs| ==> xs[k].word.kind == 'a' && GoodRedirs(xs[k].redirs)
  }

  /** A command has fewer than MAXARGS words. */
  predicate GoodSimple(x: SimplePart) {
    match x
    case Plain(redirs, args) => GoodRedirs(redirs) && GoodArgs(args) && |args| < MAXARGS
    case Paren(open, line, close, redirs) =>
      open.kind == '(' && GoodLine(line) && close.kind == ')' && GoodRedirs(redirs)
  }

  predicate GoodPipe(x: PipePart) {
    match x
    case Single(simple) => GoodSimple(simple)
    case Through(simple, bar, pipe) => GoodSimple(simple) && bar.kind == '|' && GoodPipe(pipe)
  }

  predicate GoodLine(x: LinePart) {
    match x
    case Last(pipe, amps) => GoodPipe(pipe) && AllOf(amps, '&')
    case Then(pipe, amps, semi, line) => GoodPipe(pipe) && AllOf(amps, '&') && semi.kind == ';' && GoodLine(line)
  }

  // ---- What it means ------------------------------------------------------------------------

  function RedirList(rs: seq<RedirPart>): seq<Redirection> {
    seq(|rs|, k requires 0 <= k < |rs| => Redirection(rs[k].file.span, rs[k].op.kind == '<'))
  }

  function ArgSpans(xs: seq<ArgPart>): seq<Span> {
    seq(|xs|, k requires 0 <= k < |xs| => xs[k].word.span)
  }

  function ArgRedirs(xs: seq<ArgPart>): seq<Redirection> {
    if xs == [] then [] else RedirList(xs[0].redirs) + ArgRedirs(xs[1..])
  }

  /** In the background, n times over. */
  function Backs(c: Cmd, n: nat): Cmd {
    if n == 0 then c else Back(Backs(c, n - 1))
  }

  function SimpleCmd(x: SimplePart): Cmd {
    match x
    case Plain(redirs, args) => Wrap(Exec(ArgSpans(args)), RedirList(redirs) + ArgRedirs(args))
    case Paren(_, line, _, redirs) => Wrap(LineCmd(line), RedirList(redirs))
  }

  function PipeCmd(x: PipePart): Cmd {
    match x
    case Single(simple) => SimpleCmd(simple)
    case Through(simple, _, pipe) => Pipe(SimpleCmd(simple), PipeCmd(pipe))
  }

  function LineCmd(x: LinePart): Cmd {
    match x
    case Last(pipe, amps) => Backs(PipeCmd(pipe), |amps|)
    case Then(pipe, amps, _, line) => List(Backs(PipeCmd(pipe), |amps|), LineCmd(line))
  }

  /** The text s is a line of the language, and c is its meaning. */
  ghost predicate Means(s: string, c: Cmd) {
    exists x :: GoodLine(x) && Reads(s, 0, LineToks(x)) && LineCmd(x) == c
  }
}
