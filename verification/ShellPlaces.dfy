/** Where the parts of a command stand in the text, said without tokens or derivations.

    Between two places of the text, a list is a ';' with a command on each side, a pipeline is a '|',
    a background command ends in '&', and a simple command or a block is its words: those after '<' or
    '>' are files that it opens, the others its arguments. The tree of a derivation stands where its
    tokens do.
 */
module ShellPlaces {
  import opened Common
  import opened ShellGrammar
  import opened ShellTheorems

  ghost predicate Gap(text: CString, a: nat, b: nat) {
    a <= b <= |text| && forall k | a <= k < b :: Blank(text[k])
  }

  /** The last character of text[a..i] that is not blank. */
  function LastBefore(text: CString, a: nat, i: nat): (c: Option<char>)
    requires a <= i <= |text|
    decreases i
  {
    if i == a then None else if !Blank(text[i - 1]) then Some(text[i - 1]) else LastBefore(text, a, i - 1)
  }

  /** A file that a redirection opens, how, and as which descriptor. */
  datatype Opening = Opening(file: Span, mode: nat, fd: nat)

  /** A word of the text, from its first character after a on to its last. */
  ghost predicate WholeWord(text: CString, a: nat, w: Span) {
    a <= w.start && IsWord(text, w) && (w.start == a || !WordChar(text[w.start - 1]))
  }

  predicate Angle(c: Option<char>) { c == Some('<') || c == Some('>') }

  /** argv are the words of text[a..b] that no angle stands before. */
  ghost predicate Arguments(text: CString, a: nat, b: nat, argv: seq<Span>) {
    && (forall i, j | 0 <= i < j < |argv| :: argv[i].end <= argv[j].start)
    && (forall w | w in argv ::
          WholeWord(text, a, w) && w.end <= b <= |text| && !Angle(LastBefore(text, a, w.start)))
  }

  /** rs are the words that one stands before: '<' opens for reading as 0, '>' and '>>' for writing as 1. */
  ghost predicate Openings(text: CString, a: nat, b: nat, rs: seq<Opening>) {
    && (forall i, j | 0 <= i < j < |rs| :: rs[i].file.end <= rs[j].file.start)
    && (forall r | r in rs ::
          && WholeWord(text, a, r.file) && r.file.end <= b <= |text|
          && var c := LastBefore(text, a, r.file.start);
             || (c == Some('<') && r.fd == 0 && r.mode == O_RDONLY)
             || (c == Some('>') && r.fd == 1 && r.mode == O_WRONLY + O_CREATE))
  }

  ghost predicate Within(k: nat, w: Span) { w.start <= k < w.end }

  ghost predicate Explained(text: CString, k: nat, argv: seq<Span>, rs: seq<Opening>) {
    && k < |text|
    && (|| Blank(text[k]) || text[k] == '<' || text[k] == '>'
        || (exists w | w in argv :: Within(k, w)) || (exists r | r in rs :: Within(k, r.file)))
  }

  /** Nothing else stands there. */
  ghost predicate Covered(text: CString, a: nat, b: nat, argv: seq<Span>, rs: seq<Opening>) {
    a <= b <= |text| && forall k | a <= k < b :: Explained(text, k, argv, rs)
  }

  /** The next character of text[i..b] that is not blank begins a word. */
  ghost predicate WordNext(text: CString, i: nat, b: nat) {
    exists q | i <= q < b <= |text| :: Gap(text, i, q) && WordChar(text[q])
  }

  /** A word follows the '<' or '>' at k, if it is not the first of ">>". */
  ghost predicate Followed(text: CString, a: nat, b: nat, k: nat) {
    && k < b <= |text|
    && (text[k] == '<' ==> WordNext(text, k + 1, b))
    && (text[k] == '>' ==>
          || WordNext(text, k + 1, b)
          || (k + 1 < b && text[k + 1] == '>' && (a < k ==> text[k - 1] != '>')))
  }

  ghost predicate Angles(text: CString, a: nat, b: nat) { forall k | a <= k < b :: Followed(text, a, b, k) }

  ghost predicate WordsAt(text: CString, a: nat, b: nat, argv: seq<Span>, rs: seq<Opening>) {
    Arguments(text, a, b, argv) && Openings(text, a, b, rs) && Covered(text, a, b, argv, rs) && Angles(text, a, b)
  }

  /** c is d with these files opened, the last outermost. */
  ghost predicate Opens(c: Cmd, d: Cmd, rs: seq<Opening>) {
    if rs == [] then c == d
    else c.RedirCmd? && Opening(c.file, c.mode, c.fd) == rs[|rs| - 1] && Opens(c.cmd, d, rs[..|rs| - 1])
  }

  ghost predicate BlockAt(text: CString, d: Cmd, rs: seq<Opening>, a: nat, b: nat, i: nat, j: nat)
    decreases b - a, 0
  {
    && a <= i < j < b <= |text| && text[i] == '(' && text[j] == ')'
    && Gap(text, a, i) && LineAt(text, d, i + 1, j) && WordsAt(text, j + 1, b, [], rs)
  }

  ghost predicate ExecAt(text: CString, c: Cmd, a: nat, b: nat)
    decreases b - a, 1
  {
    exists d, rs | Opens(c, d, rs) ::
      (d.ExecCmd? && |d.argv| < MAXARGS && WordsAt(text, a, b, d.argv, rs)) || (exists i, j :: BlockAt(text, d, rs, a, b, i, j))
  }

  ghost predicate BarAt(text: CString, c: Cmd, a: nat, b: nat, k: nat)
    decreases b - a, 2
  {
    && c.PipeCmd? && a <= k < b <= |text| && text[k] == '|'
    && ExecAt(text, c.left, a, k) && PipeAt(text, c.right, k + 1, b)
  }

  ghost predicate PipeAt(text: CString, c: Cmd, a: nat, b: nat)
    decreases b - a, 3
  {
    ExecAt(text, c, a, b) || exists k :: BarAt(text, c, a, b, k)
  }

  ghost predicate AmpAt(text: CString, c: Cmd, a: nat, b: nat, k: nat)
    decreases b - a, 4
  {
    && c.BackCmd? && a <= k < b <= |text| && text[k] == '&'
    && BackAt(text, c.cmd, a, k) && Gap(text, k + 1, b)
  }

  ghost predicate BackAt(text: CString, c: Cmd, a: nat, b: nat)
    decreases b - a, 5
  {
    PipeAt(text, c, a, b) || exists k :: AmpAt(text, c, a, b, k)
  }

  ghost predicate SemiAt(text: CString, c: Cmd, a: nat, b: nat, k: nat)
    decreases b - a, 6
  {
    && c.ListCmd? && a <= k < b <= |text| && text[k] == ';'
    && BackAt(text, c.left, a, k) && LineAt(text, c.right, k + 1, b)
  }

  ghost predicate LineAt(text: CString, c: Cmd, a: nat, b: nat)
    decreases b - a, 7
  {
    BackAt(text, c, a, b) || exists k :: SemiAt(text, c, a, b, k)
  }

  // ---- tokens and the places between them ----

  /** The token is what it says. */
  ghost predicate Spelled(text: CString, t: Token) {
    && t.q < t.eq <= |text|
    && if t.kind == 'a' then IsWord(text, Text(t))
       else if t.kind == '+' then t.eq == t.q + 2 && text[t.q] == '>' && text[t.q + 1] == '>'
       else t.kind in SYMBOLS && t.eq == t.q + 1 && text[t.q] == t.kind
            && (t.kind == '>' && t.eq < |text| ==> text[t.eq] != '>')
  }

  /** These are the tokens of text[a..b]. */
  ghost predicate Fit(text: CString, ts: seq<Token>, a: nat, b: nat)
    decreases |ts|
  {
    if ts == [] then Gap(text, a, b)
    else a <= ts[0].q && Gap(text, a, ts[0].q) && Spelled(text, ts[0]) && Fit(text, ts[1..], ts[0].eq, b)
  }

  lemma {:induction false} FitBounds(text: CString, ts: seq<Token>, a: nat, b: nat)
    requires Fit(text, ts, a, b)
    ensures a <= b <= |text|
    decreases |ts|
  {
    if ts != [] { FitBounds(text, ts[1..], ts[0].eq, b); }
  }

  lemma {:induction false} LexFits(text: CString, i: nat)
    requires i <= |text|
    ensures Fit(text, Lex(text, i), i, |text|)
    decreases |text| - i
  {
    var q := Skip(text, i);
    if q < |text| {
      var t := TokenAt(text, q);
      LexFits(text, t.eq);
      LexNext(text, i);
      assert Spelled(text, t);
    }
  }

  lemma {:induction false} FitAround(text: CString, xs: seq<Token>, t: Token, ys: seq<Token>, a: nat, b: nat)
    requires Fit(text, xs + [t] + ys, a, b)
    ensures a <= t.q < t.eq <= b <= |text| && Spelled(text, t) && Fit(text, xs, a, t.q) && Fit(text, ys, t.eq, b)
    decreases |xs|
  {
    var ts := xs + [t] + ys;
    if xs == [] {
      assert ts[0] == t && ts[1..] == ys;
      FitBounds(text, ys, t.eq, b);
    } else {
      assert ts[0] == xs[0] && ts[1..] == xs[1..] + [t] + ys;
      FitAround(text, xs[1..], t, ys, xs[0].eq, b);
    }
  }

  lemma {:induction false} FitSplit(text: CString, xs: seq<Token>, ys: seq<Token>, a: nat, b: nat) returns (m: nat)
    requires Fit(text, xs + ys, a, b)
    ensures Fit(text, xs, a, m) && Fit(text, ys, m, b)
    decreases |xs|
  {
    if xs == [] {
      assert xs + ys == ys;
      FitBounds(text, ys, a, b);
      m := a;
    } else {
      assert (xs + ys)[0] == xs[0] && (xs + ys)[1..] == xs[1..] + ys;
      m := FitSplit(text, xs[1..], ys, xs[0].eq, b);
    }
  }

  // ---- words ----

  lemma {:induction false} OverGap(text: CString, a: nat, m: nat, i: nat)
    requires a <= m && Gap(text, m, i)
    ensures LastBefore(text, a, i) == LastBefore(text, a, m)
    decreases i
  {
    if m < i { OverGap(text, a, m, i - 1); }
  }

  /** No word goes on at m. */
  ghost predicate Between(text: CString, a: nat, m: nat) {
    a < m < |text| ==> !WordChar(text[m]) || !WordChar(text[m - 1])
  }

  /** The words so far, up to m, with no angle after them. */
  ghost predicate Read(text: CString, a: nat, m: nat, argv: seq<Span>, rs: seq<Opening>) {
    WordsAt(text, a, m, argv, rs) && !Angle(LastBefore(text, a, m)) && Between(text, a, m)
  }

  lemma CoveredMore(text: CString, a: nat, m: nat, b: nat, argv: seq<Span>, rs: seq<Opening>, ws: seq<Span>, os: seq<Opening>)
    requires Covered(text, a, m, argv, rs) && Covered(text, m, b, ws, os)
    requires (forall w | w in argv :: w in ws) && (forall r | r in rs :: r in os)
    ensures Covered(text, a, b, ws, os)
  {
    forall k | a <= k < b ensures Explained(text, k, ws, os) {
      if k < m { assert Explained(text, k, argv, rs); }
    }
  }

  lemma AnglesMore(text: CString, a: nat, m: nat, b: nat)
    requires a <= m <= b <= |text| && Angles(text, a, m) && forall k | m <= k < b :: Followed(text, a, b, k)
    ensures Angles(text, a, b)
  {
    forall k | a <= k < b ensures Followed(text, a, b, k) {
      if k < m {
        assert Followed(text, a, m, k);
        if q :| k + 1 <= q < m && Gap(text, k + 1, q) && WordChar(text[q]) { assert WordNext(text, k + 1, b); }
      }
    }
  }

  lemma ReadGap(text: CString, a: nat, m: nat, b: nat, argv: seq<Span>, rs: seq<Opening>)
    requires Read(text, a, m, argv, rs) && Gap(text, m, b)
    ensures Read(text, a, b, argv, rs)
  {
    OverGap(text, a, m, b);
    CoveredMore(text, a, m, b, argv, rs, argv, rs);
    AnglesMore(text, a, m, b);
  }

  lemma MoreArguments(text: CString, a: nat, m: nat, w: Span, argv: seq<Span>)
    requires Arguments(text, a, m, argv) && a <= m <= |text| && !Angle(LastBefore(text, a, m)) && Between(text, a, m)
    requires m <= w.start && Gap(text, m, w.start) && IsWord(text, w)
    ensures Arguments(text, a, w.end, argv + [w])
  {
    OverGap(text, a, m, w.start);
  }

  lemma WordCovered(text: CString, m: nat, w: Span, argv: seq<Span>, rs: seq<Opening>)
    requires m <= w.start && Gap(text, m, w.start) && IsWord(text, w) && w in argv
    ensures Covered(text, m, w.end, argv, rs)
  {
    forall k | m <= k < w.end ensures Explained(text, k, argv, rs) {
      if w.start <= k { assert Within(k, w); }
    }
  }

  lemma ReadWord(text: CString, a: nat, m: nat, w: Span, argv: seq<Span>, rs: seq<Opening>)
    requires Read(text, a, m, argv, rs) && m <= w.start && Gap(text, m, w.start) && IsWord(text, w)
    ensures Read(text, a, w.end, argv + [w], rs)
  {
    var ws := argv + [w];
    MoreArguments(text, a, m, w, argv);
    assert Covered(text, a, w.end, ws, rs) by {
      assert w in ws && forall v | v in argv :: v in ws;
      WordCovered(text, m, w, ws, rs);
      CoveredMore(text, a, m, w.end, argv, rs, ws, rs);
    }
    assert Angles(text, a, w.end) by {
      forall k | m <= k < w.end ensures Followed(text, a, w.end, k) {
        assert Blank(text[k]) || WordChar(text[k]);
      }
      AnglesMore(text, a, m, w.end);
    }
    assert WordChar(text[w.end - 1]);
  }

  function OpeningOf(r: Redirect): (o: Opening) {
    if r.op.kind == '<' then Opening(Text(r.file), O_RDONLY, 0) else Opening(Text(r.file), O_WRONLY + O_CREATE, 1)
  }

  function OpeningsOf(rs: seq<Redirect>): (os: seq<Opening>)
    ensures |os| == |rs| && forall i | 0 <= i < |rs| :: os[i] == OpeningOf(rs[i])
  {
    seq(|rs|, i requires 0 <= i < |rs| => OpeningOf(rs[i]))
  }

  /** A redirection stands between m and the end of its file. */
  ghost predicate RedirectAt(text: CString, m: nat, r: Redirect) {
    && IsRedirect(r) && Spelled(text, r.op) && Spelled(text, r.file)
    && m <= r.op.q && Gap(text, m, r.op.q) && r.op.eq <= r.file.q && Gap(text, r.op.eq, r.file.q)
  }

  lemma MoreOpenings(text: CString, a: nat, m: nat, r: Redirect, rs: seq<Opening>)
    requires Openings(text, a, m, rs) && a <= m && RedirectAt(text, m, r)
    ensures Openings(text, a, r.file.eq, rs + [OpeningOf(r)])
  {
    OverGap(text, a, r.op.eq, r.file.q);
    assert LastBefore(text, a, r.op.eq) == Some(text[r.op.eq - 1]);
  }

  lemma RedirectCovered(text: CString, m: nat, r: Redirect, argv: seq<Span>, rs: seq<Opening>)
    requires RedirectAt(text, m, r) && OpeningOf(r) in rs
    ensures Covered(text, m, r.file.eq, argv, rs)
  {
    forall k | m <= k < r.file.eq ensures Explained(text, k, argv, rs) {
      if r.file.q <= k { assert Within(k, OpeningOf(r).file); }
    }
  }

  lemma RedirectAngles(text: CString, a: nat, m: nat, r: Redirect)
    requires a <= m <= |text| && Angles(text, a, m) && !Angle(LastBefore(text, a, m)) && RedirectAt(text, m, r)
    ensures Angles(text, a, r.file.eq)
  {
    var b := r.file.eq;
    assert WordNext(text, r.op.eq, b) by { assert Gap(text, r.op.eq, r.file.q) && WordChar(text[r.file.q]); }
    assert a < r.op.q ==> text[r.op.q - 1] != '>';
    forall k | m <= k < b ensures Followed(text, a, b, k) {
      if k < r.op.q || r.op.eq <= k {
        assert Blank(text[k]) || WordChar(text[k]);
      } else {
        assert k == r.op.q || (k == r.op.q + 1 && r.op.eq == k + 1);
      }
    }
    AnglesMore(text, a, m, b);
  }

  lemma ReadRedirect(text: CString, a: nat, m: nat, r: Redirect, argv: seq<Span>, rs: seq<Opening>)
    requires Read(text, a, m, argv, rs) && RedirectAt(text, m, r)
    ensures Read(text, a, r.file.eq, argv, rs + [OpeningOf(r)])
  {
    var os := rs + [OpeningOf(r)];
    MoreOpenings(text, a, m, r, rs);
    assert Covered(text, a, r.file.eq, argv, os) by {
      assert OpeningOf(r) in os && forall o | o in rs :: o in os;
      RedirectCovered(text, m, r, argv, os);
      CoveredMore(text, a, m, r.file.eq, argv, rs, argv, os);
    }
    assert Angles(text, a, r.file.eq) by { RedirectAngles(text, a, m, r); }
    assert WordChar(text[r.file.eq - 1]);
  }

  lemma FitRedirect(text: CString, redirs: seq<Redirect>, m: nat, b: nat)
    requires redirs != [] && AreRedirects(redirs) && Fit(text, RedirectTokens(redirs), m, b)
    ensures RedirectAt(text, m, redirs[0]) && Fit(text, RedirectTokens(redirs[1..]), redirs[0].file.eq, b)
  {
    var r, ts := redirs[0], RedirectTokens(redirs);
    assert r in redirs && ts[0] == r.op && ts[1..][0] == r.file && ts[1..][1..] == RedirectTokens(redirs[1..]);
  }

  lemma OpeningsSplit(redirs: seq<Redirect>, rs: seq<Opening>)
    requires redirs != []
    ensures rs + OpeningsOf(redirs) == rs + [OpeningOf(redirs[0])] + OpeningsOf(redirs[1..])
  {
  }

  lemma {:induction false} ReadRedirects(
    text: CString, a: nat, m: nat, b: nat, redirs: seq<Redirect>, argv: seq<Span>, rs: seq<Opening>, os: seq<Opening>)
    requires Read(text, a, m, argv, rs) && AreRedirects(redirs) && Fit(text, RedirectTokens(redirs), m, b)
    requires os == rs + OpeningsOf(redirs)
    ensures Read(text, a, b, argv, os)
    decreases |redirs|
  {
    if redirs == [] {
      assert os == rs;
      ReadGap(text, a, m, b, argv, rs);
    } else {
      var r := redirs[0];
      FitRedirect(text, redirs, m, b);
      OpeningsSplit(redirs, rs);
      assert AreRedirects(redirs[1..]) by { assert forall x | x in redirs[1..] :: x in redirs; }
      assert Read(text, a, r.file.eq, argv, rs + [OpeningOf(r)]) by { ReadRedirect(text, a, m, r, argv, rs); }
      ReadRedirects(text, a, r.file.eq, b, redirs[1..], argv, rs + [OpeningOf(r)], os);
    }
  }

  lemma RedirectsFront(args: seq<Argument>)
    requires args != []
    ensures Redirects(args) == args[0].redirs + Redirects(args[1..])
  {
    RedirectsConcat([args[0]], args[1..]);
    assert [args[0]] + args[1..] == args && [args[0]][..0] == [];
  }

  lemma FitArgument(text: CString, args: seq<Argument>, m: nat, b: nat) returns (e: nat)
    requires args != [] && Fit(text, ArgumentTokens(args), m, b)
    ensures var x := args[0];
            && m <= x.word.q && Gap(text, m, x.word.q) && Spelled(text, x.word)
            && Fit(text, RedirectTokens(x.redirs), x.word.eq, e) && Fit(text, ArgumentTokens(args[1..]), e, b)
  {
    var x, more := args[0], args[1..];
    var ts := ArgumentTokens(args);
    assert ts[0] == x.word && ts[1..] == RedirectTokens(x.redirs) + ArgumentTokens(more);
    e := FitSplit(text, RedirectTokens(x.redirs), ArgumentTokens(more), x.word.eq, b);
  }

  lemma ReadArgument(text: CString, a: nat, m: nat, e: nat, x: Argument, argv: seq<Span>, rs: seq<Opening>)
    requires Read(text, a, m, argv, rs) && IsArgument(x) && Spelled(text, x.word)
    requires m <= x.word.q && Gap(text, m, x.word.q) && Fit(text, RedirectTokens(x.redirs), x.word.eq, e)
    ensures Read(text, a, e, argv + [Text(x.word)], rs + OpeningsOf(x.redirs))
  {
    var w := Text(x.word);
    ReadWord(text, a, m, w, argv, rs);
    ReadRedirects(text, a, w.end, e, x.redirs, argv + [w], rs, rs + OpeningsOf(x.redirs));
  }

  lemma OpeningsConcat(xs: seq<Redirect>, ys: seq<Redirect>)
    ensures OpeningsOf(xs + ys) == OpeningsOf(xs) + OpeningsOf(ys)
  {
  }

  lemma Associate<T>(x: seq<T>, y: seq<T>, z: seq<T>)
    ensures x + (y + z) == x + y + z
  {
  }

  lemma ArgumentSplit(args: seq<Argument>, argv: seq<Span>, rs: seq<Opening>)
    requires args != []
    ensures argv + Words(args) == argv + [Text(args[0].word)] + Words(args[1..])
    ensures rs + OpeningsOf(Redirects(args)) == rs + OpeningsOf(args[0].redirs) + OpeningsOf(Redirects(args[1..]))
  {
    var x, more := args[0], args[1..];
    RedirectsFront(args);
    OpeningsConcat(x.redirs, Redirects(more));
    Associate(rs, OpeningsOf(x.redirs), OpeningsOf(Redirects(more)));
    assert Words(args) == [Text(x.word)] + Words(more);
    Associate(argv, [Text(x.word)], Words(more));
  }

  lemma {:induction false} ReadArguments(
    text: CString, a: nat, m: nat, b: nat, args: seq<Argument>, argv: seq<Span>, rs: seq<Opening>, ws: seq<Span>, os: seq<Opening>)
    requires Read(text, a, m, argv, rs) && (forall x | x in args :: IsArgument(x)) && Fit(text, ArgumentTokens(args), m, b)
    requires ws == argv + Words(args) && os == rs + OpeningsOf(Redirects(args))
    ensures Read(text, a, b, ws, os)
    decreases |args|
  {
    if args == [] {
      assert ws == argv && os == rs;
      ReadGap(text, a, m, b, argv, rs);
    } else {
      var x, more := args[0], args[1..];
      assert x in args && forall y | y in more :: y in args;
      var e := FitArgument(text, args, m, b);
      ReadArgument(text, a, m, e, x, argv, rs);
      ArgumentSplit(args, argv, rs);
      ReadArguments(text, a, e, b, more, argv + [Text(x.word)], rs + OpeningsOf(x.redirs), ws, os);
    }
  }

  lemma ReadNothing(text: CString, a: nat)
    requires a <= |text|
    ensures Read(text, a, a, [], [])
  {
  }

  lemma {:induction false} WrapOpens(d: Cmd, rs: seq<Redirect>)
    ensures Opens(Wrap(d, rs), d, OpeningsOf(rs))
  {
    if rs != [] {
      var n := |rs| - 1;
      WrapOpens(d, rs[..n]);
      assert OpeningsOf(rs)[..n] == OpeningsOf(rs[..n]);
    }
  }

  // ---- the tree of a derivation stands where its tokens do ----

  lemma LeadRead(text: CString, redirs: seq<Redirect>, a: nat, b: nat)
    requires AreRedirects(redirs) && Fit(text, RedirectTokens(redirs), a, b)
    ensures Read(text, a, b, [], OpeningsOf(redirs))
  {
    FitBounds(text, RedirectTokens(redirs), a, b);
    ReadNothing(text, a);
    ReadRedirects(text, a, a, b, redirs, [], [], OpeningsOf(redirs));
  }

  lemma SimpleReads(text: CString, lead: seq<Redirect>, args: seq<Argument>, a: nat, b: nat)
    requires AreRedirects(lead) && (forall x | x in args :: IsArgument(x)) && Fit(text, ExecTokens(Simple(lead, args)), a, b)
    ensures WordsAt(text, a, b, Words(args), OpeningsOf(lead + Redirects(args)))
  {
    FitBounds(text, ExecTokens(Simple(lead, args)), a, b);
    var m := FitSplit(text, RedirectTokens(lead), ArgumentTokens(args), a, b);
    var os := OpeningsOf(lead + Redirects(args));
    OpeningsConcat(lead, Redirects(args));
    assert Read(text, a, m, [], OpeningsOf(lead)) by { LeadRead(text, lead, a, m); }
    assert Read(text, a, b, Words(args), os) by {
      ReadArguments(text, a, m, b, args, [], OpeningsOf(lead), Words(args), os);
    }
  }

  lemma SimpleStands(text: CString, lead: seq<Redirect>, args: seq<Argument>, a: nat, b: nat)
    requires IsExec(Simple(lead, args)) && Fit(text, ExecTokens(Simple(lead, args)), a, b)
    ensures ExecAt(text, ExecTree(Simple(lead, args)), a, b)
  {
    var d, rs := ExecCmd(Words(args)), lead + Redirects(args);
    assert WordsAt(text, a, b, d.argv, OpeningsOf(rs)) by { SimpleReads(text, lead, args, a, b); }
    WrapOpens(d, rs);
    assert Opens(ExecTree(Simple(lead, args)), d, OpeningsOf(rs));
  }

  lemma FitBlock(text: CString, e: Exec, a: nat, b: nat)
    requires e.Block? && IsExec(e) && Fit(text, ExecTokens(e), a, b)
    ensures a <= e.open.q < e.close.q < b <= |text| && text[e.open.q] == '(' && text[e.close.q] == ')'
    ensures Gap(text, a, e.open.q) && Fit(text, LineTokens(e.line), e.open.q + 1, e.close.q)
    ensures Fit(text, RedirectTokens(e.redirs), e.close.q + 1, b)
  {
    var ls, rs := LineTokens(e.line), RedirectTokens(e.redirs);
    assert ExecTokens(e) == [] + [e.open] + (ls + [e.close] + rs);
    FitAround(text, [], e.open, ls + [e.close] + rs, a, b);
    FitAround(text, ls, e.close, rs, e.open.eq, b);
  }

  lemma {:induction false} BlockStands(text: CString, e: Exec, a: nat, b: nat)
    requires e.Block? && IsExec(e) && Fit(text, ExecTokens(e), a, b)
    ensures ExecAt(text, ExecTree(e), a, b)
    decreases e, 0
  {
    var d, os := LineTree(e.line), OpeningsOf(e.redirs);
    FitBlock(text, e, a, b);
    assert LineAt(text, d, e.open.q + 1, e.close.q) by { LineStands(text, e.line, e.open.q + 1, e.close.q); }
    assert WordsAt(text, e.close.q + 1, b, [], os) by { LeadRead(text, e.redirs, e.close.q + 1, b); }
    WrapOpens(d, e.redirs);
    assert BlockAt(text, d, os, a, b, e.open.q, e.close.q);
    assert Opens(ExecTree(e), d, os);
  }

  lemma {:induction false} ExecStands(text: CString, e: Exec, a: nat, b: nat)
    requires IsExec(e) && Fit(text, ExecTokens(e), a, b)
    ensures ExecAt(text, ExecTree(e), a, b)
    decreases e, 1
  {
    match e
    case Simple(lead, args) => SimpleStands(text, lead, args, a, b);
    case Block(_, _, _, _) => BlockStands(text, e, a, b);
  }

  lemma FitBar(text: CString, exec: Exec, bar: Token, rest: Pipe, a: nat, b: nat)
    requires bar.kind == '|' && Fit(text, PipeTokens(Bar(exec, bar, rest)), a, b)
    ensures a <= bar.q < b <= |text| && text[bar.q] == '|'
    ensures Fit(text, ExecTokens(exec), a, bar.q) && Fit(text, PipeTokens(rest), bar.q + 1, b)
  {
    FitAround(text, ExecTokens(exec), bar, PipeTokens(rest), a, b);
  }

  lemma {:induction false} BarStands(text: CString, p: Pipe, a: nat, b: nat)
    requires p.Bar? && IsPipe(p) && Fit(text, PipeTokens(p), a, b)
    ensures PipeAt(text, PipeCmd(ExecTree(p.exec), PipeTree(p.rest)), a, b)
    decreases p, 0
  {
    var k := p.bar.q;
    assert a <= k < b <= |text| && text[k] == '|' by { FitBar(text, p.exec, p.bar, p.rest, a, b); }
    assert ExecAt(text, ExecTree(p.exec), a, k) by {
      FitBar(text, p.exec, p.bar, p.rest, a, b);
      ExecStands(text, p.exec, a, k);
    }
    assert PipeAt(text, PipeTree(p.rest), k + 1, b) by {
      FitBar(text, p.exec, p.bar, p.rest, a, b);
      PipeStands(text, p.rest, k + 1, b);
    }
    assert BarAt(text, PipeCmd(ExecTree(p.exec), PipeTree(p.rest)), a, b, k);
  }

  lemma {:induction false} PipeStands(text: CString, p: Pipe, a: nat, b: nat)
    requires IsPipe(p) && Fit(text, PipeTokens(p), a, b)
    ensures PipeAt(text, PipeTree(p), a, b)
    decreases p, 1
  {
    if p.Bar? {
      BarStands(text, p, a, b);
    } else {
      ExecStands(text, p.exec, a, b);
    }
  }

  lemma {:induction false} BackStands(text: CString, p: Pipe, amps: seq<Token>, a: nat, b: nat)
    requires IsPipe(p) && (forall t | t in amps :: t.kind == '&') && Fit(text, PipeTokens(p) + amps, a, b)
    ensures BackAt(text, Backs(PipeTree(p), |amps|), a, b)
    decreases p, 2 + |amps|
  {
    if amps == [] {
      assert PipeTokens(p) + amps == PipeTokens(p);
      PipeStands(text, p, a, b);
    } else {
      var n := |amps| - 1;
      var t := amps[n];
      assert PipeTokens(p) + amps == PipeTokens(p) + amps[..n] + [t] + [];
      FitAround(text, PipeTokens(p) + amps[..n], t, [], a, b);
      BackStands(text, p, amps[..n], a, t.q);
      assert t in amps;
      assert AmpAt(text, Backs(PipeTree(p), |amps|), a, b, t.q);
    }
  }

  lemma {:induction false} LineStands(text: CString, l: Line, a: nat, b: nat)
    requires IsLine(l) && Fit(text, LineTokens(l), a, b)
    ensures LineAt(text, LineTree(l), a, b)
    decreases l
  {
    var ts := PipeTokens(l.pipe) + l.amps;
    match l.tail
    case End =>
      assert LineTokens(l) == ts;
      BackStands(text, l.pipe, l.amps, a, b);
    case Semi(semi, line) =>
      assert LineTokens(l) == ts + [semi] + LineTokens(line);
      FitAround(text, ts, semi, LineTokens(line), a, b);
      BackStands(text, l.pipe, l.amps, a, semi.q);
      LineStands(text, line, semi.q + 1, b);
      assert SemiAt(text, LineTree(l), a, b, semi.q);
  }

  // ---- what the parser reads ----

  /** Where the tokens that are left begin. */
  function Upto(text: CString, rest: seq<Token>): (b: nat) { if rest == [] then |text| else rest[0].q }

  lemma FitUpto(text: CString, i: nat, ts: seq<Token>, rest: seq<Token>)
    requires i <= |text| && Lex(text, i) == ts + rest
    ensures Fit(text, ts, i, Upto(text, rest))
  {
    LexFits(text, i);
    if rest == [] {
      assert ts + rest == ts;
    } else {
      assert ts + rest == ts + [rest[0]] + rest[1..];
      FitAround(text, ts, rest[0], rest[1..], i, |text|);
    }
  }

  lemma ExecRead(text: CString, i: nat)
    requires i <= |text|
    ensures var p := ParseExec(Lex(text, i)); p.Parsed? ==> ExecAt(text, ExecTree(p.tree), i, Upto(text, p.rest))
  {
    var p := ParseExec(Lex(text, i));
    if p.Parsed? {
      ExecSound(Lex(text, i));
      FitUpto(text, i, ExecTokens(p.tree), p.rest);
      ExecStands(text, p.tree, i, Upto(text, p.rest));
    }
  }

  lemma PipeRead(text: CString, i: nat)
    requires i <= |text|
    ensures var p := ParsePipe(Lex(text, i)); p.Parsed? ==> PipeAt(text, PipeTree(p.tree), i, Upto(text, p.rest))
  {
    var p := ParsePipe(Lex(text, i));
    if p.Parsed? {
      PipeSound(Lex(text, i));
      FitUpto(text, i, PipeTokens(p.tree), p.rest);
      PipeStands(text, p.tree, i, Upto(text, p.rest));
    }
  }

  lemma LineRead(text: CString, i: nat)
    requires i <= |text|
    ensures var p := ParseLine(Lex(text, i)); p.Parsed? ==> LineAt(text, LineTree(p.tree), i, Upto(text, p.rest))
  {
    var p := ParseLine(Lex(text, i));
    if p.Parsed? {
      LineSound(Lex(text, i));
      FitUpto(text, i, LineTokens(p.tree), p.rest);
      LineStands(text, p.tree, i, Upto(text, p.rest));
    }
  }
}
