/** grep's regular expressions: what a pattern means, and the backtracking matcher. */
module Grep {
  import opened Common

  /** `s[i]` in C: the terminating NUL stands after the last character. */
  function At(s: CString, i: nat): (c: char)
    requires i <= |s|
    ensures c == '\0' <==> i == |s|
  {
    if i < |s| then assert s[i] in s; s[i] else '\0'
  }

  // ---- what patterns mean ----

  datatype Item = One(c: char) | Star(c: char) | End

  /** The pattern read from the left. A star belongs to the character before it, whatever that
      character is, also '$'; '$' is special only as the last character. */
  function Items(re: CString): (items: seq<Item>)
    decreases |re|
  {
    if re == [] then []
    else if 2 <= |re| && re[1] == '*' then [Star(re[0])] + Items(re[2..])
    else if re == "$" then [End]
    else [One(re[0])] + Items(re[1..])
  }

  function Render(items: seq<Item>): (re: string) {
    if items == [] then []
    else (match items[0] case One(c) => [c] case Star(c) => [c, '*'] case End => "$") + Render(items[1..])
  }

  /** Reading loses nothing, and End stands only in the last place. */
  lemma {:induction false} ItemsRender(re: CString)
    ensures Render(Items(re)) == re
    ensures forall i | 0 <= i < |Items(re)| - 1 :: Items(re)[i] != End
    decreases |re|
  {
    if re == [] {
    } else if 2 <= |re| && re[1] == '*' {
      ItemsRender(re[2..]);
      assert Items(re)[1..] == Items(re[2..]);
      assert re == [re[0], '*'] + re[2..];
    } else if re != "$" {
      ItemsRender(re[1..]);
      assert Items(re)[1..] == Items(re[1..]);
    } else {
      assert Items(re)[1..] == [];
    }
  }

  /** What an item begins with in the pattern. */
  function First(x: Item): (c: char) { if x == End then '$' else x.c }

  /** These items are how re is to be read: they spell it, a character before a star is starred, and
      '$' is the end of the text where it is the last character and nowhere else. */
  ghost predicate Reads(items: seq<Item>, re: string) {
    && Render(items) == re
    && (forall i | 0 <= i < |items| - 1 :: items[i] != End && (items[i].One? ==> First(items[i + 1]) != '*'))
    && (items != [] ==> items[|items| - 1] != One('$'))
  }

  lemma ReadsRest(x: Item, rest: seq<Item>, re: string)
    requires Reads([x] + rest, re)
    ensures var k := if x.Star? then 2 else 1;
            k <= |re| && re[0] == First(x) && (x.Star? ==> re[1] == '*') && Reads(rest, re[k..])
    ensures x.One? && |re| > 1 ==> re[1] != '*'
    ensures x == End ==> rest == [] && re == "$"
    ensures x.One? ==> re != "$"
  {
    var items := [x] + rest;
    assert items[1..] == rest;
    forall i | 0 <= i < |rest| - 1
      ensures rest[i] != End && (rest[i].One? ==> First(rest[i + 1]) != '*')
    {
      assert items[i + 1] == rest[i] && items[i + 2] == rest[i + 1];
    }
    if rest != [] {
      assert items[0] != End && items[1] == rest[0] && items[|rest|] == rest[|rest| - 1];
      assert Render(rest)[0] == First(rest[0]);
    }
  }

  /** There is one way to read a pattern. */
  lemma {:induction false} ReadingForced(items: seq<Item>, re: CString)
    requires Reads(items, re)
    ensures items == Items(re)
    decreases |re|
  {
    if items != [] {
      var x, rest := items[0], items[1..];
      assert items == [x] + rest;
      ReadsRest(x, rest, re);
      ReadingForced(rest, re[if x.Star? then 2 else 1..]);
    }
  }

  lemma {:induction false} ItemsRead(re: CString)
    ensures Reads(Items(re), re)
    decreases |re|
  {
    ItemsRender(re);
    var items := Items(re);
    if 2 <= |re| && re[1] == '*' {
      ItemsRead(re[2..]);
      ReadsMore(Star(re[0]), Items(re[2..]), re, re[2..]);
    } else if re != [] && re != "$" {
      ItemsRead(re[1..]);
      ReadsMore(One(re[0]), Items(re[1..]), re, re[1..]);
    }
  }

  lemma ReadsMore(x: Item, rest: seq<Item>, re: string, tail: string)
    requires Reads(rest, tail) && Render([x] + rest) == re && x != End
    requires x.One? ==> (tail != [] ==> tail[0] != '*') && !(tail == [] && x.c == '$')
    ensures Reads([x] + rest, re)
  {
    var items := [x] + rest;
    forall i | 0 <= i < |items| - 1
      ensures items[i] != End && (items[i].One? ==> First(items[i + 1]) != '*')
    {
      if i == 0 {
        assert items[1] == rest[0] && Render(rest)[0] == First(rest[0]);
      } else {
        assert items[i] == rest[i - 1] && items[i + 1] == rest[i];
      }
    }
    if rest != [] { assert items[|rest|] == rest[|rest| - 1]; }
  }

  predicate Accepts(c: char, x: char) { c == '.' || c == x }

  /** The words of one item. */
  predicate Fits(item: Item, w: string) {
    match item
    case One(c) => |w| == 1 && Accepts(c, w[0])
    case Star(c) => forall i | 0 <= i < |w| :: Accepts(c, w[i])
    case End => w == []
  }

  function Concat(ws: seq<string>): (w: string) {
    if ws == [] then [] else ws[0] + Concat(ws[1..])
  }

  /** A word of a pattern is made of one word for each item. */
  ghost predicate Factors(items: seq<Item>, ws: seq<string>) {
    |ws| == |items| && forall i | 0 <= i < |items| :: Fits(items[i], ws[i])
  }

  ghost predicate Language(items: seq<Item>, w: string) {
    exists ws :: Factors(items, ws) && Concat(ws) == w
  }

  predicate AtEnd(items: seq<Item>) { items != [] && items[|items| - 1] == End }

  /** Some prefix of the text is a word of the pattern, and all of the text is if the pattern ends in '$'. */
  ghost predicate Prefix(items: seq<Item>, text: string) {
    exists n | 0 <= n <= |text| :: Language(items, text[..n]) && (AtEnd(items) ==> n == |text|)
  }

  /** Some substring of the text, or prefix if the pattern begins with '^'. */
  ghost predicate Contains(re: CString, text: string) {
    if re != [] && re[0] == '^' then Prefix(Items(re[1..]), text)
    else exists i | 0 <= i <= |text| :: Prefix(Items(re), text[i..])
  }

  // ---- one item at a time ----

  lemma LanguageCons(x: Item, rest: seq<Item>, u: string, v: string)
    requires Fits(x, u) && Language(rest, v)
    ensures Language([x] + rest, u + v)
  {
    var ws :| Factors(rest, ws) && Concat(ws) == v;
    assert ([u] + ws)[1..] == ws;
    assert Factors([x] + rest, [u] + ws) && Concat([u] + ws) == u + v;
  }

  lemma LanguageUncons(x: Item, rest: seq<Item>, w: string) returns (k: nat)
    requires Language([x] + rest, w)
    ensures k <= |w| && Fits(x, w[..k]) && Language(rest, w[k..])
  {
    var ws :| Factors([x] + rest, ws) && Concat(ws) == w;
    k := |ws[0]|;
    assert w[..k] == ws[0] && w[k..] == Concat(ws[1..]);
    assert ([x] + rest)[0] == x && forall i | 0 <= i < |rest| :: ([x] + rest)[i + 1] == rest[i];
    assert Factors(rest, ws[1..]);
  }

  /** A prefix of an item followed by others: the item takes the first k characters, for some k. */
  lemma PrefixCons(x: Item, rest: seq<Item>, text: string, k: nat)
    requires k <= |text| && Fits(x, text[..k]) && Prefix(rest, text[k..])
    requires x == End ==> k == |text|
    ensures Prefix([x] + rest, text)
  {
    var n :| 0 <= n <= |text| - k && Language(rest, text[k..][..n]) && (AtEnd(rest) ==> n == |text| - k);
    LanguageCons(x, rest, text[..k], text[k..][..n]);
    assert text[..k] + text[k..][..n] == text[..k + n];
    assert rest != [] ==> ([x] + rest)[|rest|] == rest[|rest| - 1];
  }

  lemma PrefixUncons(x: Item, rest: seq<Item>, text: string) returns (k: nat)
    requires Prefix([x] + rest, text)
    ensures k <= |text| && Fits(x, text[..k]) && Prefix(rest, text[k..])
    ensures x == End && rest == [] ==> text == []
  {
    var items := [x] + rest;
    var n :| 0 <= n <= |text| && Language(items, text[..n]) && (AtEnd(items) ==> n == |text|);
    k := LanguageUncons(x, rest, text[..n]);
    assert text[..n][..k] == text[..k] && text[..n][k..] == text[k..][..n - k];
    assert rest != [] ==> items[|rest|] == rest[|rest| - 1];
    if x == End && rest == [] {
      assert items[0] == End;
      var ws :| Factors(rest, ws) && Concat(ws) == text[..n][k..];
    }
  }

  lemma PrefixNil(text: string)
    ensures Prefix([], text)
  {
    assert Factors([], []) && Concat([]) == text[..0];
  }

  lemma OneReading(re: CString)
    ensures forall items | Reads(items, re) :: items == Items(re)
  {
    forall items | Reads(items, re) ensures items == Items(re) {
      ReadingForced(items, re);
    }
  }

  // ---- the matcher ----

  /** matchhere: does some prefix of the text match? */
  method MatchHere(re: CString, text: CString) returns (found: bool)
    ensures found <==> Prefix(Items(re), text)
    ensures forall items | Reads(items, re) :: found <==> Prefix(items, text)
    decreases |re|, 0
  {
    OneReading(re);
    if At(re, 0) == '\0' {
      PrefixNil(text);
      return true;
    }
    if At(re, 1) == '*' {
      found := MatchStar(re[0], re[2..], text);
      return;
    }
    if re[0] == '$' && At(re, 1) == '\0' {
      found := At(text, 0) == '\0';
      if found {
        PrefixNil(text);
        assert text[0..] == text;
        PrefixCons(End, [], text, 0);
        assert [End] + [] == Items(re);
      } else if Prefix([End], text) {
        assert [End] + [] == [End];
        var k := PrefixUncons(End, [], text);
      }
      return;
    }
    if At(text, 0) != '\0' && (re[0] == '.' || re[0] == text[0]) {
      found := MatchHere(re[1..], text[1..]);
      if found {
        PrefixCons(One(re[0]), Items(re[1..]), text, 1);
      } else if Prefix(Items(re), text) {
        var k := PrefixUncons(One(re[0]), Items(re[1..]), text);
      }
      return;
    }
    if Prefix(Items(re), text) {
      var k := PrefixUncons(One(re[0]), Items(re[1..]), text);
    }
    return false;
  }

  /** matchstar: does some prefix of the text match c* followed by re? */
  method MatchStar(c: char, re: CString, text: CString) returns (found: bool)
    ensures found <==> Prefix([Star(c)] + Items(re), text)
    decreases |re|, 1
  {
    var i := 0;
    while true
      invariant 0 <= i <= |text|
      invariant forall j | 0 <= j < i :: Accepts(c, text[j]) && !Prefix(Items(re), text[j..])
      decreases |text| - i
    {
      found := MatchHere(re, text[i..]);
      if found {
        PrefixCons(Star(c), Items(re), text, i);
        return;
      }
      if !(At(text, i) != '\0' && (text[i] == c || c == '.')) {
        break;
      }
      i := i + 1;
    }
    if Prefix([Star(c)] + Items(re), text) {
      var k := PrefixUncons(Star(c), Items(re), text);
    }
    return false;
  }

  /** match: does the text contain a match? */
  method Match(re: CString, text: CString) returns (found: bool)
    ensures found <==> Contains(re, text)
  {
    if At(re, 0) == '^' {
      found := MatchHere(re[1..], text);
      return;
    }
    var i := 0;
    while true
      invariant 0 <= i <= |text|
      invariant forall j | 0 <= j < i :: !Prefix(Items(re), text[j..])
      decreases |text| - i
    {
      found := MatchHere(re, text[i..]);
      if found {
        return;
      }
      if At(text, i) == '\0' {
        break;
      }
      i := i + 1;
    }
    return false;
  }
}
