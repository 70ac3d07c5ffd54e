/** Every command that stands in a text has a derivation from the text's tokens. */
module ShellComplete {
  import opened Common
  import opened ShellGrammar
  import opened ShellTheorems
  import opened ShellPlaces
  import opened ShellUnique

  // ---- tokens ----

  lemma {:induction false} FitJoin(text: CString, xs: seq<Token>, t: Token, ys: seq<Token>, a: nat, b: nat)
    requires Fit(text, xs, a, t.q) && Spelled(text, t) && Fit(text, ys, t.eq, b)
    ensures Fit(text, xs + [t] + ys, a, b)
    decreases |xs|
  {
    var ts := xs + [t] + ys;
    if xs == [] {
      assert ts[0] == t && ts[1..] == ys;
    } else {
      assert ts[0] == xs[0] && ts[1..] == xs[1..] + [t] + ys;
      FitJoin(text, xs[1..], t, ys, xs[0].eq, b);
    }
  }

  function Sign(c: char, k: nat): (t: Token) { Token(c, k, k + 1) }

  lemma SignSpelled(text: CString, c: char, k: nat)
    requires k < |text| && text[k] == c && c in "|&;()"
    ensures Spelled(text, Sign(c, k))
  {
    assert SYMBOLS[1] == '|' && SYMBOLS[3] == '&' && SYMBOLS[4] == ';' && SYMBOLS[5] == '(' && SYMBOLS[6] == ')';
  }

  lemma FitSign(text: CString, xs: seq<Token>, c: char, k: nat, ys: seq<Token>, a: nat, b: nat)
    requires k < |text| && text[k] == c && c in "|&;()" && Fit(text, xs, a, k) && Fit(text, ys, k + 1, b)
    ensures Fit(text, xs + [Sign(c, k)] + ys, a, b)
  {
    SignSpelled(text, c, k);
    FitJoin(text, xs, Sign(c, k), ys, a, b);
  }

  lemma SpelledOnce(text: CString, t: Token, u: Token)
    requires Spelled(text, t) && Spelled(text, u) && t.q == u.q
    ensures t == u
  {
    assert t.kind == 'a' ==> WordChar(text[t.q]);
    assert u.kind == 'a' ==> WordChar(text[u.q]);
    assert SYMBOLS[2] == '>';
    assert t.kind == 'a' <==> u.kind == 'a';
    assert t.kind == 'a' ==> t.eq == u.eq;
  }

  lemma SpelledDark(text: CString, t: Token)
    requires Spelled(text, t)
    ensures !Blank(text[t.q])
  {
    assert t.kind == 'a' ==> WordChar(text[t.q]);
  }

  /** The tokens of a stretch of text are determined. */
  lemma {:induction false} FitOnce(text: CString, ts: seq<Token>, us: seq<Token>, a: nat, b: nat)
    requires Fit(text, ts, a, b) && Fit(text, us, a, b)
    ensures ts == us
    decreases |ts|
  {
    if ts != [] { FitBounds(text, ts[1..], ts[0].eq, b); SpelledDark(text, ts[0]); }
    if us != [] { FitBounds(text, us[1..], us[0].eq, b); SpelledDark(text, us[0]); }
    assert ts == [] <==> us == [];
    if ts != [] {
      assert ts[0].q == us[0].q;
      SpelledOnce(text, ts[0], us[0]);
      FitOnce(text, ts[1..], us[1..], ts[0].eq, b);
      assert ts == [ts[0]] + ts[1..] && us == [us[0]] + us[1..];
    }
  }

  // ---- words ----

  predicate Plain(c: char) { Blank(c) || c == '<' || c == '>' || WordChar(c) }

  /** text[m..b] is blanks, angles and words that end there; a word follows each angle after a. */
  ghost predicate Readable(text: CString, a: nat, m: nat, b: nat) {
    && a <= m <= b <= |text| && Angles(text, a, b)
    && forall k | m <= k < b :: Plain(text[k]) && (WordChar(text[k]) ==> WordEnd(text, k) <= b)
  }

  lemma WordEndIs(text: CString, k: nat, w: Span)
    requires IsWord(text, w) && Within(k, w)
    ensures WordEnd(text, k) == w.end
  {
    var e := WordEnd(text, k);
    assert e <= w.end;
    assert w.end <= e;
  }

  lemma WordsReadable(text: CString, a: nat, b: nat, argv: seq<Span>, rs: seq<Opening>)
    requires WordsAt(text, a, b, argv, rs)
    ensures Readable(text, a, a, b)
  {
    forall k | a <= k < b ensures Plain(text[k]) && (WordChar(text[k]) ==> WordEnd(text, k) <= b) {
      assert Explained(text, k, argv, rs);
      if w :| w in argv && Within(k, w) {
        WordEndIs(text, k, w);
      } else if r :| r in rs && Within(k, r.file) {
        WordEndIs(text, k, r.file);
      }
    }
  }

  lemma WordSpelled(text: CString, q: nat)
    requires q < |text| && WordChar(text[q])
    ensures WordEnd(text, q) > q && Spelled(text, Token('a', q, WordEnd(text, q)))
  {
  }

  /** The operator at q, and the place of the word after it. */
  lemma OperatorAt(text: CString, a: nat, b: nat, q: nat) returns (op: Token, f: nat)
    requires Readable(text, a, q, b) && q < b && (text[q] == '<' || text[q] == '>')
    ensures op.q == q && RedirectOp(op) && Spelled(text, op)
    ensures op.eq <= f < b && Gap(text, op.eq, f) && WordChar(text[f])
  {
    assert Followed(text, a, b, q);
    assert SYMBOLS[0] == '<' && SYMBOLS[2] == '>';
    if text[q] == '>' && q + 1 < |text| && text[q + 1] == '>' {
      op := Token('+', q, q + 2);
      assert !WordNext(text, q + 1, b);
      assert Followed(text, a, b, q + 1);
    } else {
      op := Token(text[q], q, q + 1);
    }
    f :| op.eq <= f < b && Gap(text, op.eq, f) && WordChar(text[f]);
  }

  /** A simple command's redirections and words, for a text that can be read. */
  ghost predicate Simply(text: CString, lead: seq<Redirect>, args: seq<Argument>, m: nat, b: nat) {
    && AreRedirects(lead) && (forall x | x in args :: IsArgument(x))
    && Fit(text, RedirectTokens(lead) + ArgumentTokens(args), m, b)
  }

  lemma SimplyWord(text: CString, t: Token, lead: seq<Redirect>, args: seq<Argument>, m: nat, b: nat)
    requires Simply(text, lead, args, t.eq, b) && t.kind == 'a' && Spelled(text, t) && m <= t.q && Gap(text, m, t.q)
    ensures Simply(text, [], [Argument(t, lead)] + args, m, b)
  {
    var x := Argument(t, lead);
    var ts := RedirectTokens([]) + ArgumentTokens([x] + args);
    ArgumentGlue(x, args, []);
    assert ts == ArgumentTokens([x] + args) + [];
    assert ArgumentTokens(args) + [] == ArgumentTokens(args);
    assert ts[0] == t && ts[1..] == RedirectTokens(lead) + ArgumentTokens(args);
  }

  lemma SimplyRedirect(text: CString, r: Redirect, lead: seq<Redirect>, args: seq<Argument>, m: nat, b: nat)
    requires Simply(text, lead, args, r.file.eq, b) && RedirectAt(text, m, r)
    ensures Simply(text, [r] + lead, args, m, b)
  {
    var ts := RedirectTokens([r] + lead) + ArgumentTokens(args);
    RedirectGlue(r, lead, ArgumentTokens(args));
    assert ts[1..][0] == r.file && ts[1..][1..] == ts[2..];
  }

  lemma {:induction false} BuildWords(text: CString, a: nat, m: nat, b: nat) returns (lead: seq<Redirect>, args: seq<Argument>)
    requires Readable(text, a, m, b)
    ensures Simply(text, lead, args, m, b)
    decreases b - m
  {
    var q := Skip(text, m);
    lead, args := [], [];
    if q < b {
      if WordChar(text[q]) {
        var t := Token('a', q, WordEnd(text, q));
        WordSpelled(text, q);
        lead, args := BuildWords(text, a, t.eq, b);
        SimplyWord(text, t, lead, args, m, b);
        lead, args := [], [Argument(t, lead)] + args;
      } else {
        var op, f := OperatorAt(text, a, b, q);
        var r := Redirect(op, Token('a', f, WordEnd(text, f)));
        WordSpelled(text, f);
        lead, args := BuildWords(text, a, r.file.eq, b);
        SimplyRedirect(text, r, lead, args, m, b);
        lead := [r] + lead;
      }
    }
  }

  lemma BuildSimple(text: CString, argv: seq<Span>, rs: seq<Opening>, a: nat, b: nat) returns (lead: seq<Redirect>, args: seq<Argument>)
    requires WordsAt(text, a, b, argv, rs)
    ensures Simply(text, lead, args, a, b) && |args| == |argv|
  {
    WordsReadable(text, a, b, argv, rs);
    lead, args := BuildWords(text, a, a, b);
    assert Words(args) == argv by {
      SimpleReads(text, lead, args, a, b);
      WordsOnce(text, a, b, argv, rs, Words(args), OpeningsOf(lead + Redirects(args)));
    }
  }

  // ---- commands ----

  lemma BuildRedirects(text: CString, rs: seq<Opening>, a: nat, b: nat) returns (lead: seq<Redirect>)
    requires WordsAt(text, a, b, [], rs)
    ensures AreRedirects(lead) && Fit(text, RedirectTokens(lead), a, b)
  {
    var args;
    lead, args := BuildSimple(text, [], rs, a, b);
    assert RedirectTokens(lead) + ArgumentTokens(args) == RedirectTokens(lead);
  }

  lemma BlockTokens(open: Token, line: Line, close: Token, redirs: seq<Redirect>)
    ensures ExecTokens(Block(open, line, close, redirs)) == [] + [open] + (LineTokens(line) + [close] + RedirectTokens(redirs))
  {
  }

  lemma BlockFits(text: CString, i: nat, line: Line, j: nat, redirs: seq<Redirect>, a: nat, b: nat)
    requires i < j < |text| && text[i] == '(' && text[j] == ')' && Gap(text, a, i)
    requires Fit(text, LineTokens(line), i + 1, j) && Fit(text, RedirectTokens(redirs), j + 1, b)
    ensures Fit(text, ExecTokens(Block(Sign('(', i), line, Sign(')', j), redirs)), a, b)
  {
    var inner := LineTokens(line) + [Sign(')', j)] + RedirectTokens(redirs);
    assert Fit(text, inner, i + 1, b) by { FitSign(text, LineTokens(line), ')', j, RedirectTokens(redirs), i + 1, b); }
    assert Fit(text, [], a, i);
    FitSign(text, [], '(', i, inner, a, b);
    BlockTokens(Sign('(', i), line, Sign(')', j), redirs);
  }

  lemma {:induction false} BlockBuild(text: CString, d: Cmd, rs: seq<Opening>, a: nat, b: nat, i: nat, j: nat) returns (e: Exec)
    requires BlockAt(text, d, rs, a, b, i, j)
    ensures IsExec(e) && Fit(text, ExecTokens(e), a, b)
    decreases b - a, 0
  {
    var line := LineBuild(text, d, i + 1, j);
    var lead := BuildRedirects(text, rs, j + 1, b);
    e := Block(Sign('(', i), line, Sign(')', j), lead);
    assert Fit(text, ExecTokens(e), a, b) by { BlockFits(text, i, line, j, lead, a, b); }
  }

  lemma {:induction false} ExecBuild(text: CString, c: Cmd, a: nat, b: nat) returns (e: Exec)
    requires ExecAt(text, c, a, b)
    ensures IsExec(e) && Fit(text, ExecTokens(e), a, b)
    decreases b - a, 1
  {
    var d, rs :| Opens(c, d, rs)
      && ((d.ExecCmd? && |d.argv| < MAXARGS && WordsAt(text, a, b, d.argv, rs)) || (exists i, j :: BlockAt(text, d, rs, a, b, i, j)));
    if d.ExecCmd? && |d.argv| < MAXARGS && WordsAt(text, a, b, d.argv, rs) {
      var lead, args := BuildSimple(text, d.argv, rs, a, b);
      e := Simple(lead, args);
    } else {
      var i: nat, j: nat :| BlockAt(text, d, rs, a, b, i, j);
      e := BlockBuild(text, d, rs, a, b, i, j);
    }
  }

  lemma {:induction false} PipeBuild(text: CString, c: Cmd, a: nat, b: nat) returns (p: Pipe)
    requires PipeAt(text, c, a, b)
    ensures IsPipe(p) && Fit(text, PipeTokens(p), a, b)
    decreases b - a, 2
  {
    if ExecAt(text, c, a, b) {
      var e := ExecBuild(text, c, a, b);
      p := Last(e);
    } else {
      var k: nat :| BarAt(text, c, a, b, k);
      var e := ExecBuild(text, c.left, a, k);
      var rest := PipeBuild(text, c.right, k + 1, b);
      FitSign(text, ExecTokens(e), '|', k, PipeTokens(rest), a, b);
      p := Bar(e, Sign('|', k), rest);
    }
  }

  lemma {:induction false} BackBuild(text: CString, c: Cmd, a: nat, b: nat) returns (p: Pipe, amps: seq<Token>)
    requires BackAt(text, c, a, b)
    ensures IsPipe(p) && (forall t | t in amps :: t.kind == '&') && Fit(text, PipeTokens(p) + amps, a, b)
    decreases b - a, 3
  {
    if PipeAt(text, c, a, b) {
      p := PipeBuild(text, c, a, b);
      amps := [];
      assert PipeTokens(p) + amps == PipeTokens(p);
    } else {
      var k: nat :| AmpAt(text, c, a, b, k);
      p, amps := BackBuild(text, c.cmd, a, k);
      var amp := Sign('&', k);
      FitSign(text, PipeTokens(p) + amps, '&', k, [], a, b);
      assert PipeTokens(p) + amps + [amp] + [] == PipeTokens(p) + (amps + [amp]);
      amps := amps + [amp];
    }
  }

  lemma {:induction false} LineBuild(text: CString, c: Cmd, a: nat, b: nat) returns (l: Line)
    requires LineAt(text, c, a, b)
    ensures IsLine(l) && Fit(text, LineTokens(l), a, b)
    decreases b - a, 4
  {
    if BackAt(text, c, a, b) {
      var p, amps := BackBuild(text, c, a, b);
      l := Line(p, amps, End);
      assert LineTokens(l) == PipeTokens(p) + amps;
    } else {
      var k: nat :| SemiAt(text, c, a, b, k);
      var p, amps := BackBuild(text, c.left, a, k);
      var line := LineBuild(text, c.right, k + 1, b);
      var semi := Sign(';', k);
      l := Line(p, amps, Semi(semi, line));
      assert LineTokens(l) == PipeTokens(p) + amps + [semi] + LineTokens(line);
      assert Fit(text, LineTokens(l), a, b) by { FitSign(text, PipeTokens(p) + amps, ';', k, LineTokens(line), a, b); }
    }
  }

  /** A command that stands in the text is the one that its tokens derive. */
  lemma StandsDerived(text: CString, c: Cmd) returns (l: Line)
    requires LineAt(text, c, 0, |text|)
    ensures IsLine(l) && LineTokens(l) == Lex(text, 0) && LineTree(l) == c
  {
    l := LineBuild(text, c, 0, |text|);
    assert LineTree(l) == c by {
      LineStands(text, l, 0, |text|);
      LineOnce(text, c, LineTree(l), 0, |text|);
    }
    LexFits(text, 0);
    FitOnce(text, LineTokens(l), Lex(text, 0), 0, |text|);
  }
}
