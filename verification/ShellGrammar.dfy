/** The shell's language: tokens of a line, derivations, the command trees they stand for, and a
    reference parser on token lists that is proved to invert the grammar.
 */
module ShellGrammar {
  import opened Common

  const WHITESPACE: string := " \t\r\n\U{0B}"
  const SYMBOLS: string := "<|>&;()"
  const MAXARGS: nat := 10
  const O_RDONLY: nat := 0x000
  const O_WRONLY: nat := 0x001
  const O_CREATE: nat := 0x200

  // ---- tokens ----

  predicate Blank(c: char) { c in WHITESPACE }

  predicate WordChar(c: char) { c !in WHITESPACE && c !in SYMBOLS }

  /** kind is a symbol, '+' for ">>", or 'a' for a word; the token is text[q..eq]. */
  datatype Token = Token(kind: char, q: nat, eq: nat)

  function Skip(text: CString, i: nat): (k: nat)
    requires i <= |text|
    ensures i <= k <= |text|
    ensures forall j | i <= j < k :: Blank(text[j])
    ensures k < |text| ==> !Blank(text[k])
    decreases |text| - i
  {
    if i < |text| && Blank(text[i]) then Skip(text, i + 1) else i
  }

  function WordEnd(text: CString, i: nat): (k: nat)
    requires i <= |text|
    ensures i <= k <= |text|
    ensures forall j | i <= j < k :: WordChar(text[j])
    ensures k < |text| ==> !WordChar(text[k])
    decreases |text| - i
  {
    if i < |text| && WordChar(text[i]) then WordEnd(text, i + 1) else i
  }

  function TokenAt(text: CString, q: nat): (t: Token)
    requires q < |text| && !Blank(text[q])
    ensures t.q == q < t.eq <= |text|
    ensures t.kind == 'a' <==> WordChar(text[q])
    ensures t.kind != 'a' ==> Lead(t.kind) == text[q] && t.kind != '\0'
  {
    var c := text[q];
    if c == '>' then if q + 1 < |text| && text[q + 1] == '>' then Token('+', q, q + 2) else Token('>', q, q + 1)
    else if c in SYMBOLS then assert c in text; Token(c, q, q + 1)
    else Token('a', q, WordEnd(text, q))
  }

  /** The first character of a token of this kind. */
  function Lead(kind: char): (c: char) { if kind == '+' then '>' else kind }

  /** The tokens of the text from position i on. */
  function Lex(text: CString, i: nat): (ts: seq<Token>)
    requires i <= |text|
    ensures ts == [] <==> Skip(text, i) == |text|
    decreases |text| - i
  {
    var q := Skip(text, i);
    if q == |text| then [] else [TokenAt(text, q)] + Lex(text, TokenAt(text, q).eq)
  }

  lemma LexSkip(text: CString, i: nat)
    requires i <= |text|
    ensures Lex(text, Skip(text, i)) == Lex(text, i)
  {
    var q := Skip(text, i);
    assert Skip(text, q) == q;
  }

  lemma LexNext(text: CString, i: nat)
    requires i <= |text|
    ensures var q := Skip(text, i);
            if q == |text| then Lex(text, i) == [] && Lex(text, q) == []
            else Lex(text, i) != [] && Lex(text, i)[0] == TokenAt(text, q) && Lex(text, i)[1..] == Lex(text, TokenAt(text, q).eq)
  {
  }

  datatype Span = Span(start: nat, end: nat)

  /** A whole word of the text: only word characters, and none after it. */
  ghost predicate IsWord(text: CString, w: Span) {
    && w.start < w.end <= |text|
    && (forall k | w.start <= k < w.end :: WordChar(text[k]))
    && (w.end < |text| ==> !WordChar(text[w.end]))
  }

  /** The tokens stand in order, words are whole words, and every other character is blank. */
  lemma {:induction false} LexCovers(text: CString, i: nat, k: nat)
    requires i <= k < |text|
    ensures Blank(text[k]) || exists t | t in Lex(text, i) :: t.q <= k < t.eq
    decreases |text| - i
  {
    var q := Skip(text, i);
    if q < |text| && q <= k {
      var t := TokenAt(text, q);
      if t.eq <= k {
        LexCovers(text, t.eq, k);
        assert forall u | u in Lex(text, t.eq) :: u in Lex(text, i);
      } else {
        assert Lex(text, i)[0] == t;
      }
    }
  }

  lemma {:induction false} LexOrdered(text: CString, i: nat, m: nat)
    requires i <= |text| && m < |Lex(text, i)|
    ensures var t := Lex(text, i)[m];
            && i <= t.q < t.eq <= |text|
            && (t.kind == 'a' ==> IsWord(text, Span(t.q, t.eq)))
            && (m > 0 ==> Lex(text, i)[m - 1].eq <= t.q)
    decreases m
  {
    var t := TokenAt(text, Skip(text, i));
    if m > 0 {
      LexOrdered(text, t.eq, m - 1);
    }
  }

  // ---- derivations ----

  // line   ::= pipe { "&" } [ ";" line ]
  // pipe   ::= exec [ "|" pipe ]
  // exec   ::= "(" line ")" redirs | redirs { word redirs }
  // redirs ::= { ("<" | ">" | ">>") word }

  datatype Redirect = Redirect(op: Token, file: Token)

  datatype Argument = Argument(word: Token, redirs: seq<Redirect>)

  datatype Exec =
    | Block(open: Token, line: Line, close: Token, redirs: seq<Redirect>)
    | Simple(lead: seq<Redirect>, args: seq<Argument>)

  datatype Pipe = Last(exec: Exec) | Bar(exec: Exec, bar: Token, rest: Pipe)

  datatype Line = Line(pipe: Pipe, amps: seq<Token>, tail: Tail)

  datatype Tail = End | Semi(semi: Token, line: Line)

  predicate RedirectOp(t: Token) { t.kind == '<' || t.kind == '>' || t.kind == '+' }

  predicate IsRedirect(r: Redirect) { RedirectOp(r.op) && r.file.kind == 'a' }

  predicate AreRedirects(rs: seq<Redirect>) { forall r | r in rs :: IsRedirect(r) }

  predicate IsArgument(a: Argument) { a.word.kind == 'a' && AreRedirects(a.redirs) }

  predicate IsExec(e: Exec) {
    match e
    case Block(open, line, close, redirs) =>
      open.kind == '(' && IsLine(line) && close.kind == ')' && AreRedirects(redirs)
    case Simple(lead, args) =>
      AreRedirects(lead) && |args| < MAXARGS && forall a | a in args :: IsArgument(a)
  }

  predicate IsPipe(p: Pipe) {
    match p
    case Last(exec) => IsExec(exec)
    case Bar(exec, bar, rest) => IsExec(exec) && bar.kind == '|' && IsPipe(rest)
  }

  predicate IsLine(l: Line) {
    IsPipe(l.pipe) && (forall t | t in l.amps :: t.kind == '&') && IsTail(l.tail)
  }

  predicate IsTail(t: Tail) { t.Semi? ==> t.semi.kind == ';' && IsLine(t.line) }

  // ---- the tokens of a derivation ----

  function RedirectTokens(rs: seq<Redirect>): (ts: seq<Token>) {
    if rs == [] then [] else [rs[0].op, rs[0].file] + RedirectTokens(rs[1..])
  }

  function ArgumentTokens(args: seq<Argument>): (ts: seq<Token>) {
    if args == [] then [] else [args[0].word] + RedirectTokens(args[0].redirs) + ArgumentTokens(args[1..])
  }

  function ExecTokens(e: Exec): (ts: seq<Token>) {
    match e
    case Block(open, line, close, redirs) => [open] + LineTokens(line) + [close] + RedirectTokens(redirs)
    case Simple(lead, args) => RedirectTokens(lead) + ArgumentTokens(args)
  }

  function PipeTokens(p: Pipe): (ts: seq<Token>) {
    match p
    case Last(exec) => ExecTokens(exec)
    case Bar(exec, bar, rest) => ExecTokens(exec) + [bar] + PipeTokens(rest)
  }

  function LineTokens(l: Line): (ts: seq<Token>) {
    PipeTokens(l.pipe) + l.amps + TailTokens(l.tail)
  }

  function TailTokens(t: Tail): (ts: seq<Token>) {
    match t
    case End => []
    case Semi(semi, line) => [semi] + LineTokens(line)
  }

  // ---- the command a derivation stands for ----

  datatype Cmd =
    | ExecCmd(argv: seq<Span>)
    | RedirCmd(cmd: Cmd, file: Span, mode: nat, fd: nat)
    | PipeCmd(left: Cmd, right: Cmd)
    | ListCmd(left: Cmd, right: Cmd)
    | BackCmd(cmd: Cmd)

  function Text(t: Token): (w: Span) { Span(t.q, t.eq) }

  /** '>' and '>>' open the file the same way: both write from its start. */
  function Redirected(c: Cmd, r: Redirect): (d: Cmd) {
    if r.op.kind == '<' then RedirCmd(c, Text(r.file), O_RDONLY, 0)
    else RedirCmd(c, Text(r.file), O_WRONLY + O_CREATE, 1)
  }

  /** The last redirection is outermost. */
  function Wrap(c: Cmd, rs: seq<Redirect>): (d: Cmd) {
    if rs == [] then c else Redirected(Wrap(c, rs[..|rs| - 1]), rs[|rs| - 1])
  }

  function Words(args: seq<Argument>): (argv: seq<Span>)
    ensures |argv| == |args| && forall i | 0 <= i < |args| :: argv[i] == Text(args[i].word)
  {
    seq(|args|, i requires 0 <= i < |args| => Text(args[i].word))
  }

  function Redirects(args: seq<Argument>): (rs: seq<Redirect>) {
    if args == [] then [] else Redirects(args[..|args| - 1]) + args[|args| - 1].redirs
  }

  function Backs(c: Cmd, n: nat): (d: Cmd) { if n == 0 then c else BackCmd(Backs(c, n - 1)) }

  function ExecTree(e: Exec): (c: Cmd) {
    match e
    case Block(open, line, close, redirs) => Wrap(LineTree(line), redirs)
    case Simple(lead, args) => Wrap(ExecCmd(Words(args)), lead + Redirects(args))
  }

  function PipeTree(p: Pipe): (c: Cmd) {
    match p
    case Last(exec) => ExecTree(exec)
    case Bar(exec, bar, rest) => PipeCmd(ExecTree(exec), PipeTree(rest))
  }

  function LineTree(l: Line): (c: Cmd) {
    var c := Backs(PipeTree(l.pipe), |l.amps|);
    match l.tail
    case End => c
    case Semi(semi, line) => ListCmd(c, LineTree(line))
  }

  // ---- reference parser on tokens ----

  datatype Parsed<T> = Panic | Parsed(tree: T, rest: seq<Token>)

  predicate Next(ts: seq<Token>, kind: char) { ts != [] && ts[0].kind == kind }

  predicate NextRedirects(ts: seq<Token>) { ts != [] && RedirectOp(ts[0]) }

  /** What ends the words of a simple command. */
  predicate Stops(ts: seq<Token>) {
    ts == [] || ts[0].kind == '|' || ts[0].kind == ')' || ts[0].kind == '&' || ts[0].kind == ';'
  }

  function ParseRedirects(ts: seq<Token>): (r: Parsed<seq<Redirect>>)
    ensures r.Parsed? ==> |r.rest| <= |ts|
    decreases |ts|
  {
    if !NextRedirects(ts) then Parsed([], ts)
    else if |ts| < 2 || ts[1].kind != 'a' then Panic
    else match ParseRedirects(ts[2..]) {
      case Panic => Panic
      case Parsed(rs, rest) => Parsed([Redirect(ts[0], ts[1])] + rs, rest)
    }
  }

  function ParseArguments(ts: seq<Token>, argc: nat): (r: Parsed<seq<Argument>>)
    ensures r.Parsed? ==> |r.rest| <= |ts|
    decreases |ts|
  {
    if Stops(ts) then Parsed([], ts)
    else if ts[0].kind != 'a' || argc + 1 >= MAXARGS then Panic
    else match ParseRedirects(ts[1..]) {
      case Panic => Panic
      case Parsed(rs, more) => match ParseArguments(more, argc + 1) {
        case Panic => Panic
        case Parsed(args, rest) => Parsed([Argument(ts[0], rs)] + args, rest)
      }
    }
  }

  function ParseSimple(ts: seq<Token>): (r: Parsed<Exec>)
    ensures r.Parsed? ==> |r.rest| <= |ts|
  {
    match ParseRedirects(ts)
    case Panic => Panic
    case Parsed(lead, more) => match ParseArguments(more, 0) {
      case Panic => Panic
      case Parsed(args, rest) => Parsed(Simple(lead, args), rest)
    }
  }

  function ParseExec(ts: seq<Token>): (r: Parsed<Exec>)
    ensures r.Parsed? ==> |r.rest| <= |ts|
    decreases |ts|, 0
  {
    if !Next(ts, '(') then ParseSimple(ts)
    else match ParseLine(ts[1..]) {
      case Panic => Panic
      case Parsed(line, more) =>
        if !Next(more, ')') then Panic
        else match ParseRedirects(more[1..]) {
          case Panic => Panic
          case Parsed(rs, rest) => Parsed(Block(ts[0], line, more[0], rs), rest)
        }
    }
  }

  function ParsePipe(ts: seq<Token>): (r: Parsed<Pipe>)
    ensures r.Parsed? ==> |r.rest| <= |ts|
    decreases |ts|, 1
  {
    match ParseExec(ts)
    case Panic => Panic
    case Parsed(exec, more) =>
      if !Next(more, '|') then Parsed(Last(exec), more)
      else match ParsePipe(more[1..]) {
        case Panic => Panic
        case Parsed(pipe, rest) => Parsed(Bar(exec, more[0], pipe), rest)
      }
  }

  function Amps(ts: seq<Token>): (n: nat)
    ensures n <= |ts| && (forall i | 0 <= i < n :: ts[i].kind == '&') && !Next(ts[n..], '&')
    decreases |ts|
  {
    if Next(ts, '&') then 1 + Amps(ts[1..]) else 0
  }

  function ParseLine(ts: seq<Token>): (r: Parsed<Line>)
    ensures r.Parsed? ==> |r.rest| <= |ts|
    decreases |ts|, 2
  {
    match ParsePipe(ts)
    case Panic => Panic
    case Parsed(pipe, more) =>
      var n := Amps(more);
      match ParseTail(more[n..])
      case Panic => Panic
      case Parsed(tail, rest) => Parsed(Line(pipe, more[..n], tail), rest)
  }

  function ParseTail(ts: seq<Token>): (r: Parsed<Tail>)
    ensures r.Parsed? ==> |r.rest| <= |ts|
    decreases |ts|, 0
  {
    if !Next(ts, ';') then Parsed(End, ts)
    else match ParseLine(ts[1..]) {
      case Panic => Panic
      case Parsed(line, rest) => Parsed(Semi(ts[0], line), rest)
    }
  }
}
