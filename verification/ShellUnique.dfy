/** At most one command stands between two places of a text. */
module ShellUnique {
  import opened Common
  import opened ShellGrammar
  import opened ShellPlaces

  // ---- parentheses ----

  /** How many blocks are open before k. */
  function Depth(text: CString, a: nat, k: nat): (d: int)
    requires a <= k <= |text|
    decreases k
  {
    if k == a then 0
    else Depth(text, a, k - 1) + if text[k - 1] == '(' then 1 else if text[k - 1] == ')' then -1 else 0
  }

  lemma {:induction false} DepthAdds(text: CString, a: nat, m: nat, k: nat)
    requires a <= m <= k <= |text|
    ensures Depth(text, a, k) == Depth(text, a, m) + Depth(text, m, k)
    decreases k
  {
    if m < k { DepthAdds(text, a, m, k - 1); }
  }

  /** Every block of text[a..b] is opened there, and closed there. */
  ghost predicate Nested(text: CString, a: nat, b: nat) {
    && a <= b <= |text| && Depth(text, a, b) == 0
    && forall k | a <= k <= b :: Depth(text, a, k) >= 0
  }

  /** Outside of blocks text[a..b] has none of these. */
  ghost predicate Free(text: CString, a: nat, b: nat, seps: string) {
    a <= b <= |text| && forall k | a <= k < b && Depth(text, a, k) == 0 :: text[k] !in seps
  }

  /** text[a..b] is of neither parentheses nor separators. */
  ghost predicate Flat(text: CString, a: nat, b: nat) {
    a <= b <= |text| && forall k | a <= k < b :: text[k] !in "()|&;"
  }

  lemma {:induction false} FlatDepth(text: CString, a: nat, b: nat, k: nat)
    requires Flat(text, a, b) && a <= k <= b
    ensures Depth(text, a, k) == 0
    decreases k
  {
    if a < k {
      FlatDepth(text, a, b, k - 1);
      assert text[k - 1] !in "()|&;";
      assert "()|&;"[0] == '(' && "()|&;"[1] == ')';
    }
  }

  lemma FlatNested(text: CString, a: nat, b: nat)
    requires Flat(text, a, b)
    ensures Nested(text, a, b) && Free(text, a, b, "|&;")
  {
    forall k | a <= k <= b ensures Depth(text, a, k) == 0 { FlatDepth(text, a, b, k); }
  }

  lemma Joined(text: CString, a: nat, k: nat, b: nat, seps: string)
    requires Nested(text, a, k) && k < b && Nested(text, k + 1, b) && text[k] != '(' && text[k] != ')'
    requires Free(text, a, k, seps) && Free(text, k + 1, b, seps) && text[k] !in seps
    ensures Nested(text, a, b) && Free(text, a, b, seps)
  {
    forall j | k < j <= b ensures Depth(text, a, j) == Depth(text, k + 1, j) {
      DepthAdds(text, a, k + 1, j);
    }
  }

  lemma WordFlat(text: CString, k: nat, argv: seq<Span>, rs: seq<Opening>, a: nat, b: nat)
    requires WordsAt(text, a, b, argv, rs) && a <= k < b
    ensures text[k] !in "()|&;"
  {
    assert Explained(text, k, argv, rs);
    if exists w | w in argv :: Within(k, w) {
      assert WordChar(text[k]);
    } else if exists r | r in rs :: Within(k, r.file) {
      assert WordChar(text[k]);
    }
  }

  lemma WordsFlat(text: CString, a: nat, b: nat, argv: seq<Span>, rs: seq<Opening>)
    requires WordsAt(text, a, b, argv, rs)
    ensures Flat(text, a, b)
  {
    forall k | a <= k < b ensures text[k] !in "()|&;" { WordFlat(text, k, argv, rs, a, b); }
  }

  lemma GapFlat(text: CString, a: nat, b: nat)
    requires Gap(text, a, b)
    ensures Flat(text, a, b)
  {
  }

  lemma BlockDepth(text: CString, a: nat, i: nat, j: nat, b: nat, k: nat)
    requires a <= i < j < b <= |text| && text[i] == '(' && text[j] == ')'
    requires Flat(text, a, i) && Nested(text, i + 1, j) && Flat(text, j + 1, b) && a <= k <= b
    ensures Depth(text, a, k) == if k <= i then 0 else if k <= j then 1 + Depth(text, i + 1, k) else 0
  {
    FlatDepth(text, a, i, if k <= i then k else i);
    if i < k <= j {
      DepthAdds(text, a, i + 1, k);
    } else if j < k {
      DepthAdds(text, a, i + 1, j);
      DepthAdds(text, a, j + 1, k);
      FlatDepth(text, j + 1, b, k);
    }
  }

  lemma BlockNested(text: CString, a: nat, i: nat, j: nat, b: nat)
    requires a <= i < j < b <= |text| && text[i] == '(' && text[j] == ')'
    requires Flat(text, a, i) && Nested(text, i + 1, j) && Flat(text, j + 1, b)
    ensures Nested(text, a, b) && Free(text, a, b, "|&;")
  {
    forall k | a <= k <= b ensures Depth(text, a, k) >= 0 { BlockDepth(text, a, i, j, b, k); }
    BlockDepth(text, a, i, j, b, b);
    forall k | a <= k < b && Depth(text, a, k) == 0 ensures text[k] !in "|&;" {
      BlockDepth(text, a, i, j, b, k);
      assert k != i && k != j ==> text[k] !in "()|&;";
    }
  }

  lemma {:induction false} BlockAtNested(text: CString, d: Cmd, rs: seq<Opening>, a: nat, b: nat, i: nat, j: nat)
    requires BlockAt(text, d, rs, a, b, i, j)
    ensures Nested(text, a, b) && Free(text, a, b, "|&;")
    decreases b - a, 0
  {
    assert Nested(text, i + 1, j) by { LineNested(text, d, i + 1, j); }
    assert Flat(text, a, i) by { GapFlat(text, a, i); }
    assert Flat(text, j + 1, b) by { WordsFlat(text, j + 1, b, [], rs); }
    BlockNested(text, a, i, j, b);
  }

  lemma {:induction false} ExecNested(text: CString, c: Cmd, a: nat, b: nat)
    requires ExecAt(text, c, a, b)
    ensures Nested(text, a, b) && Free(text, a, b, "|&;")
    decreases b - a, 1
  {
    var d, rs :| Opens(c, d, rs)
      && ((d.ExecCmd? && |d.argv| < MAXARGS && WordsAt(text, a, b, d.argv, rs)) || (exists i, j :: BlockAt(text, d, rs, a, b, i, j)));
    if d.ExecCmd? && WordsAt(text, a, b, d.argv, rs) {
      WordsFlat(text, a, b, d.argv, rs);
      FlatNested(text, a, b);
    } else {
      var i: nat, j: nat :| BlockAt(text, d, rs, a, b, i, j);
      BlockAtNested(text, d, rs, a, b, i, j);
    }
  }

  lemma {:induction false} PipeNested(text: CString, c: Cmd, a: nat, b: nat)
    requires PipeAt(text, c, a, b)
    ensures Nested(text, a, b) && Free(text, a, b, "&;")
    decreases b - a, 2
  {
    if ExecAt(text, c, a, b) {
      ExecNested(text, c, a, b);
    } else {
      var k: nat :| BarAt(text, c, a, b, k);
      ExecNested(text, c.left, a, k);
      PipeNested(text, c.right, k + 1, b);
      Joined(text, a, k, b, "&;");
    }
  }

  lemma {:induction false} BackNested(text: CString, c: Cmd, a: nat, b: nat)
    requires BackAt(text, c, a, b)
    ensures Nested(text, a, b) && Free(text, a, b, ";")
    decreases b - a, 3
  {
    if PipeAt(text, c, a, b) {
      PipeNested(text, c, a, b);
    } else {
      var k: nat :| AmpAt(text, c, a, b, k);
      BackNested(text, c.cmd, a, k);
      GapFlat(text, k + 1, b);
      FlatNested(text, k + 1, b);
      Joined(text, a, k, b, ";");
    }
  }

  lemma {:induction false} LineNested(text: CString, c: Cmd, a: nat, b: nat)
    requires LineAt(text, c, a, b)
    ensures Nested(text, a, b)
    decreases b - a, 4
  {
    if BackAt(text, c, a, b) {
      BackNested(text, c, a, b);
    } else {
      var k: nat :| SemiAt(text, c, a, b, k);
      BackNested(text, c.left, a, k);
      LineNested(text, c.right, k + 1, b);
      Joined(text, a, k, b, "");
    }
  }

  // ---- words ----

  /** Two words that share a character are one. */
  lemma SameWord(text: CString, a: nat, v: Span, w: Span, k: nat)
    requires WholeWord(text, a, v) && WholeWord(text, a, w) && Within(k, v) && Within(k, w)
    ensures v == w
  {
    assert v.end == w.end;
    assert v.start == w.start;
  }

  /** Each word that stands there is an argument or a file. */
  lemma WordListed(text: CString, a: nat, b: nat, argv: seq<Span>, rs: seq<Opening>, w: Span)
    requires WordsAt(text, a, b, argv, rs) && WholeWord(text, a, w) && w.end <= b
    ensures w in argv || exists r :: r in rs && r.file == w
  {
    var k := w.start;
    assert WordChar(text[k]) && Explained(text, k, argv, rs);
    if v :| v in argv && Within(k, v) {
      SameWord(text, a, v, w, k);
    } else {
      var r :| r in rs && Within(k, r.file);
      SameWord(text, a, r.file, w, k);
    }
  }

  lemma SameArguments(text: CString, a: nat, b: nat, argv: seq<Span>, rs: seq<Opening>, ws: seq<Span>, os: seq<Opening>)
    requires WordsAt(text, a, b, argv, rs) && WordsAt(text, a, b, ws, os)
    ensures forall w | w in argv :: w in ws
  {
    forall w | w in argv ensures w in ws { WordListed(text, a, b, ws, os, w); }
  }

  lemma SameOpenings(text: CString, a: nat, b: nat, argv: seq<Span>, rs: seq<Opening>, ws: seq<Span>, os: seq<Opening>)
    requires WordsAt(text, a, b, argv, rs) && WordsAt(text, a, b, ws, os)
    ensures forall r | r in rs :: r in os
  {
    forall r | r in rs ensures r in os {
      WordListed(text, a, b, ws, os, r.file);
      if o :| o in os && o.file == r.file { assert o == r; }
    }
  }

  /** The spans stand one after the other. */
  ghost predicate InOrder(ws: seq<Span>) {
    (forall w | w in ws :: w.start < w.end) && forall i, j | 0 <= i < j < |ws| :: ws[i].end <= ws[j].start
  }

  lemma InOrderRest(ws: seq<Span>)
    requires InOrder(ws) && ws != []
    ensures InOrder(ws[1..]) && ws[0] !in ws[1..] && forall w | w in ws[1..] :: ws[0].end <= w.start
    ensures forall w :: w in ws <==> w == ws[0] || w in ws[1..]
  {
    var rest := ws[1..];
    forall i, j | 0 <= i < j < |rest| ensures rest[i].end <= rest[j].start {
      assert rest[i] == ws[i + 1] && rest[j] == ws[j + 1];
    }
    assert forall i | 0 <= i < |rest| :: rest[i] == ws[i + 1];
    assert ws[0] in ws && ws == [ws[0]] + rest;
  }

  lemma {:induction false} SameOrder(vs: seq<Span>, ws: seq<Span>)
    requires InOrder(vs) && InOrder(ws) && forall w :: w in vs <==> w in ws
    ensures vs == ws
    decreases |vs|
  {
    assert (vs != [] ==> vs[0] in vs) && (ws != [] ==> ws[0] in ws);
    if vs != [] {
      InOrderRest(vs);
      InOrderRest(ws);
      assert vs[0] in ws && ws[0] in vs;
      assert vs[0] == ws[0];
      SameOrder(vs[1..], ws[1..]);
      assert vs == [vs[0]] + vs[1..] && ws == [ws[0]] + ws[1..];
    }
  }

  function FilesOf(rs: seq<Opening>): (ws: seq<Span>)
    ensures |ws| == |rs| && forall i | 0 <= i < |rs| :: ws[i] == rs[i].file
  {
    seq(|rs|, i requires 0 <= i < |rs| => rs[i].file)
  }

  lemma FilesIn(rs: seq<Opening>, os: seq<Opening>)
    requires forall r | r in rs :: r in os
    ensures forall w | w in FilesOf(rs) :: w in FilesOf(os)
  {
    forall w | w in FilesOf(rs) ensures w in FilesOf(os) {
      var i :| 0 <= i < |rs| && FilesOf(rs)[i] == w;
      assert rs[i] in rs && rs[i] in os;
      var j :| 0 <= j < |os| && os[j] == rs[i];
      assert FilesOf(os)[j] == w;
    }
  }

  lemma FilesInOrder(text: CString, a: nat, b: nat, rs: seq<Opening>)
    requires Openings(text, a, b, rs)
    ensures InOrder(FilesOf(rs))
  {
    forall w | w in FilesOf(rs) ensures w.start < w.end {
      var i :| 0 <= i < |rs| && FilesOf(rs)[i] == w;
      assert rs[i] in rs;
    }
  }

  lemma WordsOnce(text: CString, a: nat, b: nat, argv: seq<Span>, rs: seq<Opening>, ws: seq<Span>, os: seq<Opening>)
    requires WordsAt(text, a, b, argv, rs) && WordsAt(text, a, b, ws, os)
    ensures argv == ws && rs == os
  {
    SameArguments(text, a, b, argv, rs, ws, os);
    SameArguments(text, a, b, ws, os, argv, rs);
    SameOrder(argv, ws);
    SameOpenings(text, a, b, argv, rs, ws, os);
    SameOpenings(text, a, b, ws, os, argv, rs);
    OpeningsOnce(text, a, b, rs, os);
  }

  lemma OpeningsOnce(text: CString, a: nat, b: nat, rs: seq<Opening>, os: seq<Opening>)
    requires Openings(text, a, b, rs) && Openings(text, a, b, os)
    requires (forall r | r in rs :: r in os) && (forall r | r in os :: r in rs)
    ensures rs == os
  {
    assert FilesOf(rs) == FilesOf(os) by {
      FilesIn(rs, os);
      FilesIn(os, rs);
      FilesInOrder(text, a, b, rs);
      FilesInOrder(text, a, b, os);
      SameOrder(FilesOf(rs), FilesOf(os));
    }
    forall i | 0 <= i < |rs| ensures rs[i] == os[i] {
      assert FilesOf(rs)[i] == FilesOf(os)[i];
      assert rs[i] in rs && os[i] in os;
    }
  }

  // ---- commands ----

  lemma {:induction false} OpensOnce(c: Cmd, e: Cmd, d: Cmd, rs: seq<Opening>)
    requires Opens(c, d, rs) && Opens(e, d, rs)
    ensures c == e
    decreases |rs|
  {
    if rs != [] { OpensOnce(c.cmd, e.cmd, d, rs[..|rs| - 1]); }
  }

  /** A block begins with a parenthesis, which no word is. */
  lemma BlockNotWords(text: CString, d: Cmd, rs: seq<Opening>, a: nat, b: nat, i: nat, j: nat, argv: seq<Span>, os: seq<Opening>)
    requires BlockAt(text, d, rs, a, b, i, j)
    ensures !WordsAt(text, a, b, argv, os)
  {
    assert "()|&;"[0] == '(';
    if WordsAt(text, a, b, argv, os) { WordFlat(text, i, argv, os, a, b); }
  }

  lemma CloseOnce(text: CString, a: nat, j: nat, n: nat)
    requires Nested(text, a, j) && Nested(text, a, n) && j < |text| && text[j] == ')'
    ensures n <= j
  {
    assert Depth(text, a, j + 1) == -1;
  }

  /** A block ends with the parenthesis that closes it. */
  lemma BlockOnce(text: CString, c: Cmd, e: Cmd, rs: seq<Opening>, os: seq<Opening>, a: nat, b: nat, i: nat, j: nat, m: nat, n: nat)
    requires BlockAt(text, c, rs, a, b, i, j) && BlockAt(text, e, os, a, b, m, n)
    ensures i == m && j == n && rs == os
  {
    assert i == m by { assert !Blank('('); }
    assert j == n by {
      LineNested(text, c, i + 1, j);
      LineNested(text, e, i + 1, n);
      CloseOnce(text, i + 1, j, n);
      CloseOnce(text, i + 1, n, j);
    }
    assert rs == os by { WordsOnce(text, j + 1, b, [], rs, [], os); }
  }

  lemma {:induction false} BlockSame(text: CString, c: Cmd, e: Cmd, rs: seq<Opening>, os: seq<Opening>, a: nat, b: nat)
    requires exists i, j :: BlockAt(text, c, rs, a, b, i, j)
    requires exists i, j :: BlockAt(text, e, os, a, b, i, j)
    ensures c == e && rs == os
    decreases b - a, 0
  {
    var i: nat, j: nat :| BlockAt(text, c, rs, a, b, i, j);
    var m: nat, n: nat :| BlockAt(text, e, os, a, b, m, n);
    BlockOnce(text, c, e, rs, os, a, b, i, j, m, n);
    LineOnce(text, c, e, i + 1, j);
  }

  lemma {:induction false} ExecOnce(text: CString, c: Cmd, e: Cmd, a: nat, b: nat)
    requires ExecAt(text, c, a, b) && ExecAt(text, e, a, b)
    ensures c == e
    decreases b - a, 1
  {
    var d, rs :| Opens(c, d, rs)
      && ((d.ExecCmd? && |d.argv| < MAXARGS && WordsAt(text, a, b, d.argv, rs)) || (exists i, j :: BlockAt(text, d, rs, a, b, i, j)));
    var f, os :| Opens(e, f, os)
      && ((f.ExecCmd? && |f.argv| < MAXARGS && WordsAt(text, a, b, f.argv, os)) || (exists i, j :: BlockAt(text, f, os, a, b, i, j)));
    if d.ExecCmd? && WordsAt(text, a, b, d.argv, rs) {
      if m: nat, n: nat :| BlockAt(text, f, os, a, b, m, n) { BlockNotWords(text, f, os, a, b, m, n, d.argv, rs); }
      WordsOnce(text, a, b, d.argv, rs, f.argv, os);
    } else {
      var i: nat, j: nat :| BlockAt(text, d, rs, a, b, i, j);
      if f.ExecCmd? { BlockNotWords(text, d, rs, a, b, i, j, f.argv, os); }
      BlockSame(text, d, f, rs, os, a, b);
    }
    OpensOnce(c, e, d, rs);
  }

  /** A pipeline is cut at its first '|' outside of blocks. */
  lemma BarNotExec(text: CString, c: Cmd, e: Cmd, a: nat, k: nat, b: nat)
    requires ExecAt(text, c, a, k) && k < b <= |text| && text[k] == '|'
    ensures !ExecAt(text, e, a, b)
  {
    assert "|&;"[0] == text[k];
    if ExecAt(text, e, a, b) {
      ExecNested(text, c, a, k);
      ExecNested(text, e, a, b);
    }
  }

  lemma {:induction false} PipeOnce(text: CString, c: Cmd, e: Cmd, a: nat, b: nat)
    requires PipeAt(text, c, a, b) && PipeAt(text, e, a, b)
    ensures c == e
    decreases b - a, 2
  {
    if k: nat :| BarAt(text, c, a, b, k) {
      BarNotExec(text, c.left, e, a, k, b);
      var m: nat :| BarAt(text, e, a, b, m);
      if k < m { BarNotExec(text, c.left, e.left, a, k, m); }
      if m < k { BarNotExec(text, e.left, c.left, a, m, k); }
      ExecOnce(text, c.left, e.left, a, k);
      PipeOnce(text, c.right, e.right, k + 1, b);
    } else {
      if m: nat :| BarAt(text, e, a, b, m) { BarNotExec(text, e.left, c, a, m, b); }
      ExecOnce(text, c, e, a, b);
    }
  }

  lemma AmpNotPipe(text: CString, c: Cmd, e: Cmd, a: nat, k: nat, b: nat)
    requires BackAt(text, c, a, k) && k < b <= |text| && text[k] == '&'
    ensures !PipeAt(text, e, a, b)
  {
    assert "&;"[0] == text[k];
    if PipeAt(text, e, a, b) {
      BackNested(text, c, a, k);
      PipeNested(text, e, a, b);
    }
  }

  lemma {:induction false} BackOnce(text: CString, c: Cmd, e: Cmd, a: nat, b: nat)
    requires BackAt(text, c, a, b) && BackAt(text, e, a, b)
    ensures c == e
    decreases b - a, 3
  {
    if k: nat :| AmpAt(text, c, a, b, k) {
      AmpNotPipe(text, c.cmd, e, a, k, b);
      var m: nat :| AmpAt(text, e, a, b, m);
      assert k == m by { assert !Blank('&'); }
      BackOnce(text, c.cmd, e.cmd, a, k);
    } else {
      if m: nat :| AmpAt(text, e, a, b, m) { AmpNotPipe(text, e.cmd, c, a, m, b); }
      PipeOnce(text, c, e, a, b);
    }
  }

  lemma SemiNotBack(text: CString, c: Cmd, e: Cmd, a: nat, k: nat, b: nat)
    requires BackAt(text, c, a, k) && k < b <= |text| && text[k] == ';'
    ensures !BackAt(text, e, a, b)
  {
    assert ";"[0] == text[k];
    if BackAt(text, e, a, b) {
      BackNested(text, c, a, k);
      BackNested(text, e, a, b);
    }
  }

  /** At most one command stands in text[a..b]. */
  lemma {:induction false} LineOnce(text: CString, c: Cmd, e: Cmd, a: nat, b: nat)
    requires LineAt(text, c, a, b) && LineAt(text, e, a, b)
    ensures c == e
    decreases b - a, 4
  {
    if k: nat :| SemiAt(text, c, a, b, k) {
      SemiNotBack(text, c.left, e, a, k, b);
      var m: nat :| SemiAt(text, e, a, b, m);
      if k < m { SemiNotBack(text, c.left, e.left, a, k, m); }
      if m < k { SemiNotBack(text, e.left, c.left, a, m, k); }
      BackOnce(text, c.left, e.left, a, k);
      LineOnce(text, c.right, e.right, k + 1, b);
    } else {
      if m: nat :| SemiAt(text, e, a, b, m) { SemiNotBack(text, e.left, c, a, m, b); }
      BackOnce(text, c, e, a, b);
    }
  }
}
