/** The shell's recursive-descent parser and its in-place terminator.

    The parser moves one shared cursor along the line; a panic leaves the shell, and is None here.
    The strings of the tree are positions in the line, which nulterminate then overwrites.
 */
module Shell {
  import opened Common
  import opened ShellGrammar
  import opened ShellTheorems
  import opened ShellPlaces
  import opened ShellComplete

  // ---- what the loops have done so far ----

  function Prepend<T>(done: seq<T>, r: Parsed<seq<T>>): (s: Parsed<seq<T>>) {
    if r.Panic? then Panic else Parsed(done + r.tree, r.rest)
  }

  lemma PrependNone<T>(r: Parsed<seq<T>>)
    ensures Prepend([], r) == r
  {
    if r.Parsed? {
      assert [] + r.tree == r.tree;
    }
  }

  lemma PrependMore<T>(done: seq<T>, x: T, r: Parsed<seq<T>>)
    ensures Prepend(done, Prepend([x], r)) == Prepend(done + [x], r)
  {
    if r.Parsed? {
      assert done + ([x] + r.tree) == done + [x] + r.tree;
    }
  }

  lemma {:induction false} WrapWrap(c: Cmd, a: seq<Redirect>, b: seq<Redirect>)
    ensures Wrap(Wrap(c, a), b) == Wrap(c, a + b)
    decreases |b|
  {
    if b == [] {
      assert a + b == a;
    } else {
      WrapWrap(c, a, b[..|b| - 1]);
      assert (a + b)[..|a + b| - 1] == a + b[..|b| - 1];
    }
  }

  /** `cmd->argv[argc] = q`, where cmd is the node under the redirections of ret. */
  function WithArg(ret: Cmd, w: Span): (c: Cmd) {
    match ret
    case ExecCmd(argv) => ExecCmd(argv + [w])
    case RedirCmd(cmd, file, mode, fd) => RedirCmd(WithArg(cmd, w), file, mode, fd)
    case _ => ret
  }

  lemma {:induction false} WithArgWrap(argv: seq<Span>, rs: seq<Redirect>, w: Span)
    ensures WithArg(Wrap(ExecCmd(argv), rs), w) == Wrap(ExecCmd(argv + [w]), rs)
  {
    if rs != [] {
      WithArgWrap(argv, rs[..|rs| - 1], w);
    }
  }

  lemma ArgumentAdded(ret: Cmd, lead: seq<Redirect>, done: seq<Argument>, a: Argument)
    requires ret == Wrap(ExecCmd(Words(done)), lead + Redirects(done))
    ensures Wrap(WithArg(ret, Text(a.word)), a.redirs) == Wrap(ExecCmd(Words(done + [a])), lead + Redirects(done + [a]))
  {
    var rs := lead + Redirects(done);
    WithArgWrap(Words(done), rs, Text(a.word));
    assert Words(done) + [Text(a.word)] == Words(done + [a]);
    WrapWrap(ExecCmd(Words(done + [a])), rs, a.redirs);
    assert (done + [a])[..|done|] == done;
    assert rs + a.redirs == lead + Redirects(done + [a]);
  }

  /** The loop over words: `done` is read, ts is left, and ret is the command so far. */
  ghost predicate Reading(all: Parsed<seq<Argument>>, lead: seq<Redirect>, done: seq<Argument>, ts: seq<Token>, ret: Cmd) {
    all == Prepend(done, ParseArguments(ts, |done|)) && ret == Wrap(ExecCmd(Words(done)), lead + Redirects(done))
  }

  lemma ReadingStarts(lead: seq<Redirect>, ts: seq<Token>, ret: Cmd)
    requires ret == Wrap(ExecCmd([]), lead)
    ensures Reading(ParseArguments(ts, 0), lead, [], ts, ret)
  {
    PrependNone(ParseArguments(ts, 0));
    assert Words([]) == [] && lead + [] == lead;
  }

  lemma ReadingNext(all: Parsed<seq<Argument>>, lead: seq<Redirect>, done: seq<Argument>, ts: seq<Token>, ret: Cmd)
    requires Reading(all, lead, done, ts, ret) && !Stops(ts)
    ensures var rs := ParseRedirects(ts[1..]);
            if ts[0].kind != 'a' || |done| + 1 >= MAXARGS || rs.Panic? then all.Panic?
            else var a := Argument(ts[0], rs.tree);
                 Reading(all, lead, done + [a], rs.rest, Wrap(WithArg(ret, Text(ts[0])), rs.tree))
  {
    var rs := ParseRedirects(ts[1..]);
    if ts[0].kind == 'a' && |done| + 1 < MAXARGS && rs.Parsed? {
      var a := Argument(ts[0], rs.tree);
      ArgumentAdded(ret, lead, done, a);
      PrependMore(done, a, ParseArguments(rs.rest, |done| + 1));
    }
  }

  lemma ReadingEnds(all: Parsed<seq<Argument>>, lead: seq<Redirect>, done: seq<Argument>, ts: seq<Token>, ret: Cmd)
    requires Reading(all, lead, done, ts, ret) && Stops(ts)
    ensures all == Parsed(done, ts) && ret == ExecTree(Simple(lead, done))
  {
    assert done + [] == done;
  }

  class Parser {
    const text: CString
    var ps: nat

    ghost predicate Valid()
      reads this
    {
      ps <= |text|
    }

    /** The tokens still to be read. */
    ghost function Rest(): (ts: seq<Token>)
      requires Valid()
      reads this
    {
      Lex(text, ps)
    }

    constructor (text: CString)
      ensures this.text == text && Valid() && Rest() == Lex(text, 0)
    {
      this.text := text;
      ps := 0;
    }

    /** `while(s < es && strchr(whitespace, *s)) s++;` */
    method SkipBlanks(from: nat) returns (s: nat)
      requires from <= |text|
      ensures s == Skip(text, from)
    {
      s := from;
      while s < |text| && text[s] in WHITESPACE
        invariant from <= s <= |text| && Skip(text, s) == Skip(text, from)
      {
        s := s + 1;
      }
    }

    method Peek(toks: string) returns (found: bool)
      requires Valid() && forall c | c in toks :: c in SYMBOLS
      modifies this`ps
      ensures Valid() && Rest() == old(Rest()) && ps == Skip(text, old(ps))
      ensures found <==> Rest() != [] && Lead(Rest()[0].kind) in toks
    {
      var s := SkipBlanks(ps);
      LexSkip(text, ps);
      ps := s;
      found := s < |text| && text[s] in toks;
    }

    /** The switch in gettoken: the kind of the token at q and where it ends. */
    method Scan(q: nat) returns (kind: char, s: nat)
      requires q < |text| && !Blank(text[q])
      ensures Token(kind, q, s) == TokenAt(text, q)
    {
      kind, s := text[q], q;
      if text[q] == '>' {
        s := s + 1;
        if s < |text| && text[s] == '>' {
          kind := '+';
          s := s + 1;
        }
      } else if text[q] in "|();&<" {
        s := s + 1;
      } else {
        kind := 'a';
        while s < |text| && text[s] !in WHITESPACE && text[s] !in SYMBOLS
          invariant q <= s <= |text| && WordEnd(text, s) == WordEnd(text, q)
        {
          s := s + 1;
        }
      }
    }

    /** The next token, and the cursor past it and past the blanks after it. */
    method GetToken() returns (kind: char, q: nat, eq: nat)
      requires Valid()
      modifies this`ps
      ensures Valid()
      ensures old(Rest()) == [] ==> kind == '\0' && Rest() == []
      ensures old(Rest()) != [] ==> Token(kind, q, eq) == old(Rest())[0] && Rest() == old(Rest())[1..]
      ensures old(Rest()) != [] ==> kind != '\0'
    {
      q := SkipBlanks(ps);
      kind, eq := '\0', q;
      if q < |text| {
        kind, eq := Scan(q);
      }
      LexNext(text, ps);
      LexSkip(text, eq);
      ps := SkipBlanks(eq);
    }

    /** One redirection: an operator, which comes next, and a file. */
    method ParseRedir(cmd: Cmd) returns (r: Option<Cmd>)
      requires Valid() && NextRedirects(Rest())
      modifies this`ps
      ensures Valid()
      ensures var ts := old(Rest());
              if |ts| < 2 || ts[1].kind != 'a' then r.None?
              else r == Some(Redirected(cmd, Redirect(ts[0], ts[1]))) && Rest() == ts[2..]
    {
      var tok, _, _ := GetToken();
      var kind, q, eq := GetToken();
      if kind != 'a' {
        return None;
      }
      match tok {
        case '<' => r := Some(RedirCmd(cmd, Span(q, eq), O_RDONLY, 0));
        case '>' => r := Some(RedirCmd(cmd, Span(q, eq), O_WRONLY + O_CREATE, 1));
        case _ => r := Some(RedirCmd(cmd, Span(q, eq), O_WRONLY + O_CREATE, 1));
      }
    }

    /** Wraps cmd in the redirections that come next, the last outermost. */
    method ParseRedirs(cmd: Cmd) returns (r: Option<Cmd>)
      requires Valid()
      modifies this`ps
      ensures Valid()
      ensures var p := ParseRedirects(old(Rest()));
              if p.Panic? then r.None? else r == Some(Wrap(cmd, p.tree)) && Rest() == p.rest
    {
      var ret := cmd;
      ghost var done: seq<Redirect> := [];
      PrependNone(ParseRedirects(Rest()));
      while true
        invariant Valid() && ret == Wrap(cmd, done)
        invariant ParseRedirects(old(Rest())) == Prepend(done, ParseRedirects(Rest()))
        decreases |Rest()|
      {
        var more := Peek("<>");
        if !more {
          break;
        }
        ghost var ts := Rest();
        var next := ParseRedir(ret);
        if next.None? {
          return None;
        }
        ret := next.value;
        ghost var x := Redirect(ts[0], ts[1]);
        PrependMore(done, x, ParseRedirects(Rest()));
        assert (done + [x])[..|done|] == done;
        done := done + [x];
      }
      assert done + [] == done;
      r := Some(ret);
    }

    /** One word and the redirections after it; last if there is no token left. */
    method ParseArg(ret: Cmd, argc: nat) returns (r: Option<Cmd>, last: bool)
      requires Valid() && (Rest() == [] || !Stops(Rest()))
      modifies this`ps
      ensures Valid() && (last <==> old(Rest()) == []) && (last ==> Rest() == [])
      ensures var ts := old(Rest());
              !last ==>
                if ts[0].kind != 'a' || argc + 1 >= MAXARGS then r.None?
                else var rs := ParseRedirects(ts[1..]);
                     if rs.Panic? then r.None?
                     else r == Some(Wrap(WithArg(ret, Text(ts[0])), rs.tree)) && Rest() == rs.rest
    {
      var tok, q, eq := GetToken();
      if tok == '\0' {
        return None, true;
      }
      if tok != 'a' {
        return None, false;
      }
      if argc + 1 >= MAXARGS {
        return None, false;
      }
      r := ParseRedirs(WithArg(ret, Span(q, eq)));
      last := false;
    }

    /** The words of a simple command and the redirections among them. */
    method ParseArgs(cmd: Cmd, ghost lead: seq<Redirect>) returns (r: Option<Cmd>)
      requires Valid() && cmd == Wrap(ExecCmd([]), lead)
      modifies this`ps
      ensures Valid()
      ensures var p := ParseArguments(old(Rest()), 0);
              if p.Panic? then r.None?
              else r == Some(ExecTree(Simple(lead, p.tree))) && Rest() == p.rest
    {
      var ret, argc := cmd, 0;
      ghost var done: seq<Argument>, all := [], ParseArguments(Rest(), 0);
      ReadingStarts(lead, Rest(), cmd);
      while true
        invariant Valid() && argc == |done| && Reading(all, lead, done, Rest(), ret)
        decreases |Rest()|
      {
        var stop := Peek("|)&;");
        if stop {
          break;
        }
        ghost var ts := Rest();
        var next, last := ParseArg(ret, argc);
        if last {
          break;
        }
        ReadingNext(all, lead, done, ts, ret);
        if next.None? {
          return None;
        }
        argc := argc + 1;
        ret := next.value;
        done := done + [Argument(ts[0], ParseRedirects(ts[1..]).tree)];
      }
      ReadingEnds(all, lead, done, Rest(), ret);
      r := Some(ret);
    }

    method ParseExec() returns (r: Option<Cmd>)
      requires Valid()
      modifies this`ps
      ensures Valid()
      ensures var p := ShellGrammar.ParseExec(old(Rest()));
              if p.Panic? then r.None? else r == Some(ExecTree(p.tree)) && Rest() == p.rest
      ensures r.Some? ==> ExecAt(text, r.value, old(ps), Upto(text, Rest()))
      decreases |Rest()|, 1
    {
      ExecRead(text, ps);
      var block := Peek("(");
      if block {
        r := ParseBlock();
        return;
      }
      ghost var lead := ParseRedirects(Rest());
      var ret := ParseRedirs(ExecCmd([]));
      if ret.None? {
        return None;
      }
      r := ParseArgs(ret.value, lead.tree);
    }

    method ParseBlock() returns (r: Option<Cmd>)
      requires Valid()
      modifies this`ps
      ensures Valid()
      ensures !Next(old(Rest()), '(') ==> r.None?
      ensures var p := ShellGrammar.ParseExec(old(Rest()));
              Next(old(Rest()), '(') ==>
                if p.Panic? then r.None? else r == Some(ExecTree(p.tree)) && Rest() == p.rest
      decreases |Rest()|, 0
    {
      var open := Peek("(");
      if !open {
        return None;
      }
      var _, _, _ := GetToken();
      var line := ParseLine();
      if line.None? {
        return None;
      }
      r := CloseBlock(line.value);
    }

    /** The end of a block: `)` and the redirections after it. */
    method CloseBlock(cmd: Cmd) returns (r: Option<Cmd>)
      requires Valid()
      modifies this`ps
      ensures Valid()
      ensures !Next(old(Rest()), ')') ==> r.None?
      ensures Next(old(Rest()), ')') ==>
                var p := ParseRedirects(old(Rest())[1..]);
                if p.Panic? then r.None? else r == Some(Wrap(cmd, p.tree)) && Rest() == p.rest
    {
      var close := Peek(")");
      if !close {
        return None;
      }
      var _, _, _ := GetToken();
      r := ParseRedirs(cmd);
    }

    method ParsePipe() returns (r: Option<Cmd>)
      requires Valid()
      modifies this`ps
      ensures Valid()
      ensures var p := ShellGrammar.ParsePipe(old(Rest()));
              if p.Panic? then r.None? else r == Some(PipeTree(p.tree)) && Rest() == p.rest
      ensures r.Some? ==> PipeAt(text, r.value, old(ps), Upto(text, Rest()))
      decreases |Rest()|, 2
    {
      PipeRead(text, ps);
      r := ParseExec();
      if r.None? {
        return;
      }
      var bar := Peek("|");
      if bar {
        var _, _, _ := GetToken();
        var right := ParsePipe();
        r := if right.None? then None else Some(PipeCmd(r.value, right.value));
      }
    }

    /** `&` after `&`: one backcmd for each. */
    method ParseAmps(cmd: Cmd) returns (c: Cmd)
      requires Valid()
      modifies this`ps
      ensures Valid()
      ensures var n := Amps(old(Rest())); c == Backs(cmd, n) && Rest() == old(Rest())[n..]
    {
      c := cmd;
      ghost var n, ts := 0, Rest();
      while true
        invariant Valid() && n <= |ts| && Rest() == ts[n..] && c == Backs(cmd, n) && Amps(ts) == n + Amps(ts[n..])
        decreases |Rest()|
      {
        var amp := Peek("&");
        if !amp {
          break;
        }
        var _, _, _ := GetToken();
        assert ts[n..][1..] == ts[n + 1..];
        c, n := BackCmd(c), n + 1;
      }
    }

    method ParseLine() returns (r: Option<Cmd>)
      requires Valid()
      modifies this`ps
      ensures Valid()
      ensures var p := ShellGrammar.ParseLine(old(Rest()));
              if p.Panic? then r.None? else r == Some(LineTree(p.tree)) && Rest() == p.rest
      ensures r.Some? ==> LineAt(text, r.value, old(ps), Upto(text, Rest()))
      decreases |Rest()|, 3
    {
      LineRead(text, ps);
      r := ParsePipe();
      if r.None? {
        return;
      }
      var cmd := ParseAmps(r.value);
      r := ParseTail(cmd);
    }

    /** The end of a line: nothing, or `;` and another line. */
    method ParseTail(cmd: Cmd) returns (r: Option<Cmd>)
      requires Valid()
      modifies this`ps
      ensures Valid()
      ensures var p := ShellGrammar.ParseTail(old(Rest()));
              if p.Panic? then r.None?
              else r == Some(if p.tree.End? then cmd else ListCmd(cmd, LineTree(p.tree.line))) && Rest() == p.rest
      decreases |Rest()|, 2
    {
      r := Some(cmd);
      var semi := Peek(";");
      if semi {
        var _, _, _ := GetToken();
        var right := ParseLine();
        r := if right.None? then None else Some(ListCmd(cmd, right.value));
      }
    }
  }

  // ---- nulterminate ----

  ghost function Ends(ws: set<Span>): (es: set<nat>) { set w | w in ws :: w.end }

  lemma EndsUnion(a: set<Span>, b: set<Span>)
    ensures Ends(a + b) == Ends(a) + Ends(b)
  {
  }

  ghost predicate Cut(before: seq<char>, after: seq<char>, es: set<nat>) {
    |after| == |before| && forall k | 0 <= k < |before| :: after[k] == if k in es then '\0' else before[k]
  }

  lemma CutTwice(a: seq<char>, b: seq<char>, c: seq<char>, es: set<nat>, fs: set<nat>)
    requires Cut(a, b, es) && Cut(b, c, fs)
    ensures Cut(a, c, es + fs)
  {
  }

  method TerminateArgs(argv: seq<Span>, buf: array<char>)
    requires forall w | w in argv :: w.end < buf.Length
    modifies buf
    ensures Cut(old(buf[..]), buf[..], Ends(Elems(argv)))
  {
    var i := 0;
    while i < |argv|
      invariant 0 <= i <= |argv| && Cut(old(buf[..]), buf[..], Ends(Elems(argv[..i])))
    {
      ghost var before := buf[..];
      assert argv[i] in argv;
      buf[argv[i].end] := '\0';
      CutTwice(old(buf[..]), before, buf[..], Ends(Elems(argv[..i])), {argv[i].end});
      assert argv[..i + 1] == argv[..i] + [argv[i]];
      assert Elems(argv[..i + 1]) == Elems(argv[..i]) + {argv[i]};
      EndsUnion(Elems(argv[..i]), {argv[i]});
      assert Ends({argv[i]}) == {argv[i].end};
      i := i + 1;
    }
    assert argv[..i] == argv;
  }

  /** Writes a NUL at the end of every string of the tree, and nowhere else. */
  method NulTerminate(c: Cmd, buf: array<char>)
    requires forall w | w in Spans(c) :: w.end < buf.Length
    modifies buf
    ensures Cut(old(buf[..]), buf[..], Ends(Spans(c)))
    decreases c
  {
    match c
    case ExecCmd(argv) =>
      TerminateArgs(argv, buf);
    case RedirCmd(cmd, file, _, _) =>
      NulTerminate(cmd, buf);
      ghost var before := buf[..];
      assert file in Spans(c);
      buf[file.end] := '\0';
      CutTwice(old(buf[..]), before, buf[..], Ends(Spans(cmd)), {file.end});
      EndsUnion(Spans(cmd), {file});
      assert Ends({file}) == {file.end};
    case PipeCmd(left, right) =>
      NulTerminate(left, buf);
      ghost var before := buf[..];
      NulTerminate(right, buf);
      CutTwice(old(buf[..]), before, buf[..], Ends(Spans(left)), Ends(Spans(right)));
      EndsUnion(Spans(left), Spans(right));
    case ListCmd(left, right) =>
      NulTerminate(left, buf);
      ghost var before := buf[..];
      NulTerminate(right, buf);
      CutTwice(old(buf[..]), before, buf[..], Ends(Spans(left)), Ends(Spans(right)));
      EndsUnion(Spans(left), Spans(right));
    case BackCmd(cmd) =>
      NulTerminate(cmd, buf);
  }

  /** The C string at this position of memory. */
  ghost predicate StringAt(mem: seq<char>, start: nat, s: string) {
    && start + |s| < |mem| && mem[start..start + |s|] == s && mem[start + |s|] == '\0' && '\0' !in s
  }

  /** Terminators written at word ends fall outside every word, so each word reads as it was typed. */
  lemma WordsSurvive(text: CString, before: seq<char>, after: seq<char>, ws: set<Span>, w: Span)
    requires |text| < |before| && before[..|text|] == text
    requires (forall v | v in ws :: IsWord(text, v)) && w in ws && Cut(before, after, Ends(ws))
    ensures w.start < w.end <= |text| && StringAt(after, w.start, text[w.start..w.end])
  {
    assert IsWord(text, w);
    forall k | w.start <= k < w.end ensures after[k] == text[k] {
      assert WordChar(text[k]);
      assert forall v | v in ws :: IsWord(text, v) && v.end != k;
      assert before[..|text|][k] == text[k];
    }
    assert w.end in Ends(ws);
    assert after[w.start..w.end] == text[w.start..w.end];
    assert forall k | w.start <= k < w.end :: text[k] in text;
  }

  /** The C string at the start of memory. */
  function CStr(mem: seq<char>): (s: CString)
    requires '\0' in mem
    ensures |s| < |mem| && s == mem[..|s|] && mem[|s|] == '\0'
    decreases |mem|
  {
    if mem[0] == '\0' then [] else [mem[0]] + CStr(mem[1..])
  }

  method Strlen(buf: array<char>) returns (n: nat)
    requires '\0' in buf[..]
    ensures n == |CStr(buf[..])|
  {
    n := 0;
    while buf[n] != '\0'
      invariant n < buf.Length && '\0' in buf[n..]
      invariant |CStr(buf[..])| == n + |CStr(buf[n..])|
      decreases buf.Length - n
    {
      assert buf[n..][1..] == buf[n + 1..];
      n := n + 1;
    }
  }

  /** The tree of a line: its only derivation's tree, if it has a derivation. */
  ghost predicate Derives(text: CString, c: Cmd) {
    exists l :: IsLine(l) && LineTokens(l) == Lex(text, 0) && LineTree(l) == c
  }

  lemma DerivesParsed(text: CString)
    ensures var p := ShellGrammar.ParseLine(Lex(text, 0));
            forall c :: Derives(text, c) <==> p.Parsed? && p.rest == [] && c == LineTree(p.tree)
  {
    var ts := Lex(text, 0);
    forall l ensures ShellGrammar.ParseLine(ts) == Parsed(l, []) <==> IsLine(l) && LineTokens(l) == ts {
      AcceptsExactly(ts, l);
    }
  }

  /** What a line derives is what stands in it. */
  lemma DerivesWhatStands(text: CString, c: Cmd)
    ensures Derives(text, c) <==> LineAt(text, c, 0, |text|)
  {
    if LineAt(text, c, 0, |text|) {
      var l := StandsDerived(text, c);
    }
    if l :| IsLine(l) && LineTokens(l) == Lex(text, 0) && LineTree(l) == c {
      LexFits(text, 0);
      LineStands(text, l, 0, |text|);
    }
  }

  lemma DerivedWords(text: CString, c: Cmd)
    requires Derives(text, c)
    ensures Spans(c) == WordsOf(Lex(text, 0)) && forall w | w in Spans(c) :: IsWord(text, w)
  {
    var l :| IsLine(l) && LineTokens(l) == Lex(text, 0) && LineTree(l) == c;
    LineWords(l);
    LexWords(text);
  }

  method ParseText(text: CString) returns (r: Option<Cmd>)
    ensures forall c :: Derives(text, c) <==> r == Some(c)
    ensures forall c :: LineAt(text, c, 0, |text|) <==> r == Some(c)
  {
    DerivesParsed(text);
    forall c ensures Derives(text, c) <==> LineAt(text, c, 0, |text|) { DerivesWhatStands(text, c); }
    var p := new Parser(text);
    r := p.ParseLine();
    if r.None? {
      return;
    }
    var _ := p.Peek("");
    LexNext(text, p.ps);
    if p.ps != |text| {
      return None;
    }
  }

  lemma AllSurvive(text: CString, before: seq<char>, after: seq<char>, ws: set<Span>)
    requires |text| < |before| && before[..|text|] == text
    requires (forall v | v in ws :: IsWord(text, v)) && Cut(before, after, Ends(ws))
    ensures forall w | w in ws :: w.start < w.end <= |text| && StringAt(after, w.start, text[w.start..w.end])
  {
    forall w | w in ws ensures w.start < w.end <= |text| && StringAt(after, w.start, text[w.start..w.end]) {
      WordsSurvive(text, before, after, ws, w);
    }
  }

  /** parsecmd: accepts exactly the lines of the grammar. The tree is the one the line derives, its
      strings are all the words of the line, and each reads in the changed buffer as it was typed. */
  method ParseCmd(buf: array<char>) returns (r: Option<Cmd>)
    requires '\0' in buf[..]
    modifies buf
    ensures forall c :: Derives(old(CStr(buf[..])), c) <==> r == Some(c)
    ensures var text := old(CStr(buf[..])); forall c :: LineAt(text, c, 0, |text|) <==> r == Some(c)
    ensures r.None? ==> buf[..] == old(buf[..])
    ensures r.Some? ==> var text := old(CStr(buf[..]));
                        && Spans(r.value) == WordsOf(Lex(text, 0))
                        && Cut(old(buf[..]), buf[..], Ends(Spans(r.value)))
                        && forall w | w in Spans(r.value) ::
                             w.start < w.end <= |text| && StringAt(buf[..], w.start, text[w.start..w.end])
  {
    var n := Strlen(buf);
    var text := buf[..n];
    assert text == CStr(buf[..]);
    r := ParseText(text);
    if r.Some? {
      DerivedWords(text, r.value);
      ghost var before := buf[..];
      NulTerminate(r.value, buf);
      AllSurvive(text, before, buf[..], Spans(r.value));
    }
  }
}
