/** The reference parser inverts the grammar: it accepts exactly the token lists that have a
    derivation, and returns that derivation; and no word of the line is lost in the tree.
 */
module ShellTheorems {
  import opened Common
  import opened ShellGrammar

  // ---- tokens of composed derivations ----

  lemma RedirectGlue(r: Redirect, rs: seq<Redirect>, rest: seq<Token>)
    ensures var ts := RedirectTokens([r] + rs) + rest;
            |ts| >= 2 && ts[0] == r.op && ts[1] == r.file && ts[2..] == RedirectTokens(rs) + rest
  {
    assert ([r] + rs)[1..] == rs;
  }

  lemma ArgumentGlue(a: Argument, args: seq<Argument>, rest: seq<Token>)
    ensures var ts := ArgumentTokens([a] + args) + rest;
            ts != [] && ts[0] == a.word && ts[1..] == RedirectTokens(a.redirs) + (ArgumentTokens(args) + rest)
  {
    assert ([a] + args)[1..] == args;
  }

  lemma BlockGlue(open: Token, line: Line, close: Token, redirs: seq<Redirect>, rest: seq<Token>)
    ensures var ts := ExecTokens(Block(open, line, close, redirs)) + rest;
            ts != [] && ts[0] == open && ts[1..] == LineTokens(line) + ([close] + (RedirectTokens(redirs) + rest))
  {
  }

  lemma SimpleGlue(lead: seq<Redirect>, args: seq<Argument>, rest: seq<Token>)
    ensures ExecTokens(Simple(lead, args)) + rest == RedirectTokens(lead) + (ArgumentTokens(args) + rest)
  {
  }

  lemma BarGlue(exec: Exec, bar: Token, pipe: Pipe, rest: seq<Token>)
    ensures PipeTokens(Bar(exec, bar, pipe)) + rest == ExecTokens(exec) + ([bar] + (PipeTokens(pipe) + rest))
  {
  }

  lemma LineGlue(pipe: Pipe, amps: seq<Token>, tail: Tail, rest: seq<Token>)
    ensures LineTokens(Line(pipe, amps, tail)) + rest == PipeTokens(pipe) + (amps + (TailTokens(tail) + rest))
  {
  }

  lemma TailGlue(semi: Token, line: Line, rest: seq<Token>)
    ensures TailTokens(Semi(semi, line)) + rest == [semi] + (LineTokens(line) + rest)
  {
  }

  lemma Uncons(ts: seq<Token>, us: seq<Token>)
    requires ts != [] && us != [] && ts[0] == us[0] && ts[1..] == us[1..]
    ensures ts == us
  {
    assert ts == [ts[0]] + ts[1..] && us == [us[0]] + us[1..];
  }

  // ---- soundness: an accepted prefix is what the derivation spells ----

  lemma {:induction false} RedirectsSound(ts: seq<Token>)
    ensures var r := ParseRedirects(ts);
            r.Parsed? ==> AreRedirects(r.tree) && RedirectTokens(r.tree) + r.rest == ts
    decreases |ts|
  {
    if ParseRedirects(ts).Parsed? && NextRedirects(ts) {
      RedirectsSound(ts[2..]);
      var rs := ParseRedirects(ts[2..]).tree;
      assert ([Redirect(ts[0], ts[1])] + rs)[1..] == rs;
    }
  }

  lemma {:induction false} ArgumentsSound(ts: seq<Token>, argc: nat)
    requires argc < MAXARGS
    ensures var r := ParseArguments(ts, argc);
            r.Parsed? ==>
              && ArgumentTokens(r.tree) + r.rest == ts && argc + |r.tree| < MAXARGS
              && forall a | a in r.tree :: IsArgument(a)
    decreases |ts|
  {
    var r := ParseArguments(ts, argc);
    if r.Parsed? && !Stops(ts) {
      RedirectsSound(ts[1..]);
      var rs := ParseRedirects(ts[1..]);
      ArgumentsSound(rs.rest, argc + 1);
      var args := ParseArguments(rs.rest, argc + 1).tree;
      ArgumentGlue(Argument(ts[0], rs.tree), args, r.rest);
      Uncons(ArgumentTokens(r.tree) + r.rest, ts);
    }
  }

  lemma {:induction false} BlockSound(ts: seq<Token>)
    requires Next(ts, '(') && ParseExec(ts).Parsed?
    ensures var r := ParseExec(ts); IsExec(r.tree) && ExecTokens(r.tree) + r.rest == ts
    decreases |ts|, 0
  {
    var r := ParseExec(ts);
    LineSound(ts[1..]);
    var line := ParseLine(ts[1..]);
    RedirectsSound(line.rest[1..]);
    BlockGlue(ts[0], line.tree, line.rest[0], r.tree.redirs, r.rest);
    Uncons(line.rest, [line.rest[0]] + line.rest[1..]);
    Uncons(ExecTokens(r.tree) + r.rest, ts);
  }

  lemma SimpleSound(ts: seq<Token>)
    ensures var r := ParseSimple(ts); r.Parsed? ==> IsExec(r.tree) && ExecTokens(r.tree) + r.rest == ts
  {
    RedirectsSound(ts);
    var lead := ParseRedirects(ts);
    if lead.Parsed? {
      ArgumentsSound(lead.rest, 0);
      var args := ParseArguments(lead.rest, 0);
      if args.Parsed? { SimpleGlue(lead.tree, args.tree, args.rest); }
    }
  }

  lemma {:induction false} ExecSound(ts: seq<Token>)
    ensures var r := ParseExec(ts); r.Parsed? ==> IsExec(r.tree) && ExecTokens(r.tree) + r.rest == ts
    decreases |ts|, 1
  {
    if !Next(ts, '(') {
      SimpleSound(ts);
    } else if ParseExec(ts).Parsed? {
      BlockSound(ts);
    }
  }

  lemma {:induction false} PipeSound(ts: seq<Token>)
    ensures var r := ParsePipe(ts); r.Parsed? ==> IsPipe(r.tree) && PipeTokens(r.tree) + r.rest == ts
    decreases |ts|, 2
  {
    ExecSound(ts);
    var e := ParseExec(ts);
    if e.Parsed? && Next(e.rest, '|') {
      PipeSound(e.rest[1..]);
      var p := ParsePipe(e.rest[1..]);
      if p.Parsed? {
        BarGlue(e.tree, e.rest[0], p.tree, p.rest);
        Uncons([e.rest[0]] + e.rest[1..], e.rest);
      }
    }
  }

  lemma AmpsSound(ts: seq<Token>)
    ensures forall t | t in ts[..Amps(ts)] :: t.kind == '&'
    ensures ts == ts[..Amps(ts)] + ts[Amps(ts)..]
  {
  }

  lemma {:induction false} LineSound(ts: seq<Token>)
    ensures var r := ParseLine(ts); r.Parsed? ==> IsLine(r.tree) && LineTokens(r.tree) + r.rest == ts
    decreases |ts|, 3
  {
    PipeSound(ts);
    var p := ParsePipe(ts);
    if p.Parsed? {
      var n := Amps(p.rest);
      TailSound(p.rest[n..]);
      var tail := ParseTail(p.rest[n..]);
      if tail.Parsed? {
        AmpsSound(p.rest);
        LineGlue(p.tree, p.rest[..n], tail.tree, tail.rest);
      }
    }
  }

  lemma {:induction false} TailSound(ts: seq<Token>)
    ensures var r := ParseTail(ts); r.Parsed? ==> IsTail(r.tree) && TailTokens(r.tree) + r.rest == ts
    decreases |ts|, 0
  {
    if Next(ts, ';') {
      LineSound(ts[1..]);
    }
  }

  // ---- completeness: every derivation is found, whatever may follow it ----

  lemma {:induction false} RedirectsComplete(rs: seq<Redirect>, rest: seq<Token>)
    requires AreRedirects(rs) && !NextRedirects(rest)
    ensures ParseRedirects(RedirectTokens(rs) + rest) == Parsed(rs, rest)
    decreases |rs|
  {
    if rs == [] {
      assert RedirectTokens(rs) + rest == rest;
    } else {
      RedirectsComplete(rs[1..], rest);
      RedirectGlue(rs[0], rs[1..], rest);
      assert rs[0] in rs;
      assert [rs[0]] + rs[1..] == rs;
    }
  }

  lemma ArgumentsStart(args: seq<Argument>, rest: seq<Token>)
    requires (forall a | a in args :: IsArgument(a)) && Stops(rest)
    ensures !NextRedirects(ArgumentTokens(args) + rest) && !Next(ArgumentTokens(args) + rest, '(')
  {
    if args == [] {
      assert ArgumentTokens(args) + rest == rest;
    } else {
      assert args[0] in args;
    }
  }

  lemma ArgumentStep(ts: seq<Token>, a: Argument, more: seq<Token>, argc: nat, args: seq<Argument>, rest: seq<Token>)
    requires IsArgument(a) && argc + 1 < MAXARGS && ts != [] && ts[0] == a.word
    requires ts[1..] == RedirectTokens(a.redirs) + more && !NextRedirects(more)
    requires ParseArguments(more, argc + 1) == Parsed(args, rest)
    ensures ParseArguments(ts, argc) == Parsed([a] + args, rest)
  {
    RedirectsComplete(a.redirs, more);
  }

  lemma {:induction false} ArgumentsComplete(args: seq<Argument>, argc: nat, rest: seq<Token>)
    requires (forall a | a in args :: IsArgument(a)) && argc + |args| < MAXARGS && Stops(rest)
    ensures ParseArguments(ArgumentTokens(args) + rest, argc) == Parsed(args, rest)
    decreases |args|
  {
    if args == [] {
      assert ArgumentTokens(args) + rest == rest;
    } else {
      ArgumentsComplete(args[1..], argc + 1, rest);
      assert args[0] in args;
      assert [args[0]] + args[1..] == args;
      ArgumentGlue(args[0], args[1..], rest);
      ArgumentsStart(args[1..], rest);
      var more := ArgumentTokens(args[1..]) + rest;
      ArgumentStep(ArgumentTokens(args) + rest, args[0], more, argc, args[1..], rest);
    }
  }

  lemma SimpleComplete(lead: seq<Redirect>, args: seq<Argument>, rest: seq<Token>)
    requires IsExec(Simple(lead, args)) && Stops(rest)
    ensures ParseExec(ExecTokens(Simple(lead, args)) + rest) == Parsed(Simple(lead, args), rest)
  {
    var more := ArgumentTokens(args) + rest;
    ArgumentsComplete(args, 0, rest);
    ArgumentsStart(args, rest);
    RedirectsComplete(lead, more);
    SimpleGlue(lead, args, rest);
    var ts := RedirectTokens(lead) + more;
    assert !Next(ts, '(') by {
      if lead == [] {
        assert ts == more;
      } else {
        assert lead[0] in lead && ts[0] == lead[0].op;
      }
    }
  }

  lemma {:induction false} BlockComplete(e: Exec, rest: seq<Token>)
    requires e.Block? && IsExec(e) && Stops(rest)
    ensures ParseExec(ExecTokens(e) + rest) == Parsed(e, rest)
    decreases e, 0
  {
    var last := RedirectTokens(e.redirs) + rest;
    LineComplete(e.line, [e.close] + last);
    BlockGlue(e.open, e.line, e.close, e.redirs, rest);
    RedirectsComplete(e.redirs, rest);
    assert ([e.close] + last)[1..] == last;
  }

  lemma {:induction false} ExecComplete(e: Exec, rest: seq<Token>)
    requires IsExec(e) && Stops(rest)
    ensures ParseExec(ExecTokens(e) + rest) == Parsed(e, rest)
    decreases e, 1
  {
    match e
    case Simple(lead, args) => SimpleComplete(lead, args, rest);
    case Block(_, _, _, _) => BlockComplete(e, rest);
  }

  lemma {:induction false} PipeComplete(p: Pipe, rest: seq<Token>)
    requires IsPipe(p) && Stops(rest) && !Next(rest, '|')
    ensures ParsePipe(PipeTokens(p) + rest) == Parsed(p, rest)
    decreases p
  {
    match p
    case Last(exec) => ExecComplete(exec, rest);
    case Bar(exec, bar, tail) =>
      var last := PipeTokens(tail) + rest;
      ExecComplete(exec, [bar] + last);
      BarGlue(exec, bar, tail, rest);
      PipeComplete(tail, rest);
      assert ([bar] + last)[1..] == last;
  }

  lemma {:induction false} AmpsComplete(amps: seq<Token>, rest: seq<Token>)
    requires (forall t | t in amps :: t.kind == '&') && !Next(rest, '&')
    ensures Amps(amps + rest) == |amps|
    decreases |amps|
  {
    if amps == [] {
      assert amps + rest == rest;
    } else {
      assert amps[0] in amps;
      AmpsComplete(amps[1..], rest);
      assert (amps + rest)[1..] == amps[1..] + rest;
    }
  }

  lemma {:induction false} LineComplete(l: Line, rest: seq<Token>)
    requires IsLine(l) && (rest == [] || Next(rest, ')'))
    ensures ParseLine(LineTokens(l) + rest) == Parsed(l, rest)
    decreases l
  {
    var last := TailTokens(l.tail) + rest;
    TailComplete(l.tail, rest);
    var more := l.amps + last;
    AmpsComplete(l.amps, last);
    LineGlue(l.pipe, l.amps, l.tail, rest);
    assert more[..|l.amps|] == l.amps && more[|l.amps|..] == last;
    AmpsFollow(l.amps, last);
    PipeComplete(l.pipe, more);
  }

  lemma AmpsFollow(amps: seq<Token>, last: seq<Token>)
    requires (forall t | t in amps :: t.kind == '&') && (last == [] || Next(last, ')') || Next(last, ';'))
    ensures Stops(amps + last) && !Next(amps + last, '|')
  {
    if amps == [] {
      assert amps + last == last;
    } else {
      assert amps[0] in amps;
    }
  }

  lemma {:induction false} TailComplete(t: Tail, rest: seq<Token>)
    requires IsTail(t) && (rest == [] || Next(rest, ')'))
    ensures ParseTail(TailTokens(t) + rest) == Parsed(t, rest)
    ensures var ts := TailTokens(t) + rest; ts == [] || Next(ts, ')') || Next(ts, ';')
    decreases t
  {
    match t
    case End => assert TailTokens(t) + rest == rest;
    case Semi(semi, line) =>
      LineComplete(line, rest);
      TailGlue(semi, line, rest);
      assert ([semi] + (LineTokens(line) + rest))[1..] == LineTokens(line) + rest;
  }

  /** A list of tokens has at most one derivation, and the reference parser finds it or there is none. */
  lemma AcceptsExactly(ts: seq<Token>, l: Line)
    ensures ParseLine(ts) == Parsed(l, []) <==> IsLine(l) && LineTokens(l) == ts
  {
    LineSound(ts);
    assert LineTokens(l) + [] == LineTokens(l);
    if IsLine(l) {
      LineComplete(l, []);
    }
  }

  // ---- the words of the line are the strings of the tree ----

  ghost function Elems(argv: seq<Span>): (ws: set<Span>) { set w | w in argv }

  /** Every string of the command: its arguments and its redirections' files. */
  ghost function Spans(c: Cmd): (ws: set<Span>) {
    match c
    case ExecCmd(argv) => Elems(argv)
    case RedirCmd(cmd, file, _, _) => Spans(cmd) + {file}
    case PipeCmd(left, right) => Spans(left) + Spans(right)
    case ListCmd(left, right) => Spans(left) + Spans(right)
    case BackCmd(cmd) => Spans(cmd)
  }

  ghost function WordsOf(ts: seq<Token>): (ws: set<Span>) {
    set t | t in ts && t.kind == 'a' :: Text(t)
  }

  lemma WordsConcat(a: seq<Token>, b: seq<Token>)
    ensures WordsOf(a + b) == WordsOf(a) + WordsOf(b)
  {
  }

  ghost function Files(rs: seq<Redirect>): (ws: set<Span>) { set r | r in rs :: Text(r.file) }

  lemma FilesConcat(a: seq<Redirect>, b: seq<Redirect>)
    ensures Files(a + b) == Files(a) + Files(b)
  {
  }

  lemma {:induction false} RedirectWords(rs: seq<Redirect>)
    requires AreRedirects(rs)
    ensures WordsOf(RedirectTokens(rs)) == Files(rs)
  {
    if rs != [] {
      assert rs[0] in rs;
      RedirectWords(rs[1..]);
      WordsConcat([rs[0].op, rs[0].file], RedirectTokens(rs[1..]));
      assert rs == [rs[0]] + rs[1..];
      FilesConcat([rs[0]], rs[1..]);
      assert WordsOf([rs[0].op, rs[0].file]) == {Text(rs[0].file)} by {
        assert rs[0].file in [rs[0].op, rs[0].file];
      }
      assert Files([rs[0]]) == {Text(rs[0].file)} by {
        assert rs[0] in [rs[0]];
      }
    }
  }

  lemma {:induction false} WrapSpans(c: Cmd, rs: seq<Redirect>)
    ensures Spans(Wrap(c, rs)) == Spans(c) + Files(rs)
  {
    if rs != [] {
      var n := |rs| - 1;
      WrapSpans(c, rs[..n]);
      assert rs == rs[..n] + [rs[n]];
      FilesConcat(rs[..n], [rs[n]]);
      assert Files([rs[n]]) == {Text(rs[n].file)} by {
        assert rs[n] in [rs[n]];
      }
    }
  }

  ghost function Argv(args: seq<Argument>): (ws: set<Span>) { set a | a in args :: Text(a.word) }

  lemma {:induction false} RedirectsConcat(args: seq<Argument>, more: seq<Argument>)
    ensures Redirects(args + more) == Redirects(args) + Redirects(more)
    decreases |more|
  {
    if more == [] {
      assert args + more == args;
    } else {
      var n := |more| - 1;
      RedirectsConcat(args, more[..n]);
      var all := args + more;
      assert |all| - 1 == |args| + n && all[..|args| + n] == args + more[..n] && all[|args| + n] == more[n];
      calc {
        Redirects(all);
        Redirects(args + more[..n]) + more[n].redirs;
        Redirects(args) + Redirects(more[..n]) + more[n].redirs;
        Redirects(args) + (Redirects(more[..n]) + more[n].redirs);
      }
    }
  }

  lemma OneArgument(a: Argument)
    requires IsArgument(a)
    ensures WordsOf([a.word] + RedirectTokens(a.redirs)) == {Text(a.word)} + Files(a.redirs)
  {
    RedirectWords(a.redirs);
    WordsConcat([a.word], RedirectTokens(a.redirs));
    assert WordsOf([a.word]) == {Text(a.word)} by {
      assert a.word in [a.word];
    }
  }

  lemma {:induction false} ArgumentWords(args: seq<Argument>)
    requires forall a | a in args :: IsArgument(a)
    ensures WordsOf(ArgumentTokens(args)) == Argv(args) + Files(Redirects(args))
  {
    if args != [] {
      var a := args[0];
      assert a in args;
      ArgumentWords(args[1..]);
      OneArgument(a);
      WordsConcat([a.word] + RedirectTokens(a.redirs), ArgumentTokens(args[1..]));
      assert args == [a] + args[1..];
      assert Files(Redirects(args)) == Files(a.redirs) + Files(Redirects(args[1..])) by {
        RedirectsConcat([a], args[1..]);
        assert [a][..0] == [];
        FilesConcat(a.redirs, Redirects(args[1..]));
      }
      assert Argv(args) == {Text(a.word)} + Argv(args[1..]);
    }
  }

  lemma {:induction false} BacksSpans(c: Cmd, n: nat)
    ensures Spans(Backs(c, n)) == Spans(c)
  {
    if n > 0 {
      BacksSpans(c, n - 1);
    }
  }

  lemma SimpleWords(lead: seq<Redirect>, args: seq<Argument>)
    requires IsExec(Simple(lead, args))
    ensures Spans(ExecTree(Simple(lead, args))) == WordsOf(ExecTokens(Simple(lead, args)))
  {
    RedirectWords(lead);
    ArgumentWords(args);
    WordsConcat(RedirectTokens(lead), ArgumentTokens(args));
    WrapSpans(ExecCmd(Words(args)), lead + Redirects(args));
    FilesConcat(lead, Redirects(args));
    forall w | w in Argv(args) ensures w in Spans(ExecCmd(Words(args))) {
      var a :| a in args && Text(a.word) == w;
      var i :| 0 <= i < |args| && args[i] == a;
      assert Words(args)[i] == w;
    }
  }

  lemma {:induction false} ExecWords(e: Exec)
    requires IsExec(e)
    ensures Spans(ExecTree(e)) == WordsOf(ExecTokens(e))
    decreases e
  {
    match e
    case Simple(lead, args) => SimpleWords(lead, args);
    case Block(open, line, close, redirs) =>
      LineWords(line);
      RedirectWords(redirs);
      WrapSpans(LineTree(line), redirs);
      WordsConcat([open], LineTokens(line));
      WordsConcat([open] + LineTokens(line), [close]);
      WordsConcat([open] + LineTokens(line) + [close], RedirectTokens(redirs));
  }

  lemma {:induction false} PipeWords(p: Pipe)
    requires IsPipe(p)
    ensures Spans(PipeTree(p)) == WordsOf(PipeTokens(p))
    decreases p
  {
    ExecWords(p.exec);
    if p.Bar? {
      PipeWords(p.rest);
      WordsConcat(ExecTokens(p.exec), [p.bar]);
      WordsConcat(ExecTokens(p.exec) + [p.bar], PipeTokens(p.rest));
    }
  }

  /** The strings of the command are exactly the words among the line's tokens. */
  lemma {:induction false} LineWords(l: Line)
    requires IsLine(l)
    ensures Spans(LineTree(l)) == WordsOf(LineTokens(l))
    decreases l
  {
    PipeWords(l.pipe);
    BacksSpans(PipeTree(l.pipe), |l.amps|);
    WordsConcat(PipeTokens(l.pipe), l.amps);
    WordsConcat(PipeTokens(l.pipe) + l.amps, TailTokens(l.tail));
    if l.tail.Semi? {
      LineWords(l.tail.line);
      WordsConcat([l.tail.semi], LineTokens(l.tail.line));
    }
  }

  lemma LexWords(text: CString)
    ensures forall w | w in WordsOf(Lex(text, 0)) :: IsWord(text, w)
  {
    var ts := Lex(text, 0);
    forall w | w in WordsOf(ts) ensures IsWord(text, w) {
      var t :| t in ts && t.kind == 'a' && Text(t) == w;
      var m :| 0 <= m < |ts| && ts[m] == t;
      LexOrdered(text, 0, m);
    }
  }
}
