/** Writing a JSON value as a text, and what the tokenizer makes of that text. */
module JsonPrint {
  import opened JsonTree
  import opened Jsmn
  import opened JsonInput
  import opened JsonText
  import opened JsonDoc
  import opened JsonEqual

  // ---- Values that have a text ----

  predicate GoodString(x: string) {
    StringText(x + "\"", 0, |x|)
  }

  predicate GoodWord(strict: bool, x: string) {
    && x != [] && WordStart(x[0])
    && forall i :: 0 <= i < |x| ==> !WordEnd(strict, x[i]) && 32 <= x[i] as int < 127
  }

  /** Strings and words are made of the characters that may stand in one. */
  predicate Good(strict: bool, d: Doc) {
    match d
    case Word(x) => GoodWord(strict, x)
    case Str(x) => GoodString(x)
    case Arr(items) => forall i :: 0 <= i < |items| ==> Good(strict, items[i])
    case Obj(members) => forall i :: 0 <= i < |members| ==> GoodMember(strict, members[i])
  }

  predicate GoodMember(strict: bool, m: Member) {
    GoodString(m.key) && Good(strict, m.value)
  }

  function Quoted(x: string): string {
    "\"" + (x + "\"")
  }

  function Print(d: Doc): string
    decreases d, 0
  {
    match d
    case Word(x) => x
    case Str(x) => Quoted(x)
    case Arr(items) => "[" + PrintItems(items) + "]"
    case Obj(members) => "{" + PrintMembers(members) + "}"
  }

  function PrintItems(ds: seq<Doc>): string
    decreases ds, 1
  {
    if ds == [] then [] else if |ds| == 1 then Print(ds[0]) else Print(ds[0]) + "," + PrintItems(ds[1..])
  }

  function PrintMember(m: Member): string
    decreases m, 1
  {
    Quoted(m.key) + ":" + Print(m.value)
  }

  function PrintMembers(ms: seq<Member>): string
    decreases ms, 1
  {
    if ms == [] then [] else if |ms| == 1 then PrintMember(ms[0]) else PrintMember(ms[0]) + "," + PrintMembers(ms[1..])
  }

  /** The tokens of a printed value that starts at p. */
  function Layout(d: Doc, p: nat): Tree
    decreases d, 0
  {
    match d
    case Word(x) => Tree(Tok(Primitive, p, p + |x|, 0), [])
    case Str(x) => Tree(Tok(String, p + 1, p + 1 + |x|, 0), [])
    case Arr(items) => Tree(Tok(Array, p, p + |Print(d)|, |items|), LayoutItems(items, p + 1))
    case Obj(members) => Tree(Tok(Object, p, p + |Print(d)|, |members|), LayoutMembers(members, p + 1))
  }

  function LayoutItems(ds: seq<Doc>, p: nat): (ts: seq<Tree>)
    ensures |ts| == |ds|
    decreases ds, 1
  {
    if ds == [] then [] else [Layout(ds[0], p)] + LayoutItems(ds[1..], p + |Print(ds[0])| + 1)
  }

  function LayoutMember(m: Member, p: nat): Tree
    decreases m, 1
  {
    Tree(Tok(String, p + 1, p + 1 + |m.key|, 1), [Layout(m.value, p + |m.key| + 3)])
  }

  function LayoutMembers(ms: seq<Member>, p: nat): (ts: seq<Tree>)
    ensures |ts| == |ms|
    decreases ms, 1
  {
    if ms == [] then [] else [LayoutMember(ms[0], p)] + LayoutMembers(ms[1..], p + |PrintMember(ms[0])| + 1)
  }

  // ---- Texts inside a text ----

  ghost predicate At(js: string, p: nat, x: string) {
    p + |x| <= |js| && js[p..p + |x|] == x
  }

  lemma AtParts(js: string, p: nat, x: string, y: string)
    requires At(js, p, x + y)
    ensures At(js, p, x) && At(js, p + |x|, y) && p + |x| + |y| <= |js|
  {
    assert js[p..p + |x|] == js[p..p + |x + y|][..|x|];
    assert js[p + |x|..p + |x| + |y|] == js[p..p + |x + y|][|x|..];
  }

  lemma AtChar(js: string, p: nat, x: string, i: nat)
    requires At(js, p, x) && i < |x|
    ensures p + i < |js| && js[p + i] == x[i]
  {
    assert js[p..p + |x|][i] == x[i];
  }

  lemma Unskipped(js: string, p: nat)
    requires p < |js| && !IsBlank(js[p])
    ensures SkipBlanks(js, p) == p
  {
  }

  /** The condition on a string's characters does not depend on where it stands. */
  lemma {:induction false} StringMoves(js: string, js': string, a: nat, a': nat, b: nat, b': nat)
    requires b < |js| && b' < |js'| && a <= b && b - a == b' - a'
    requires js[a..b + 1] == js'[a'..b' + 1]
    requires StringText(js, a, b)
    ensures StringText(js', a', b')
    decreases b - a
  {
    assert forall i :: a <= i <= b ==> js[i] == js[a..b + 1][i - a] == js'[i - a + a'];
    if a < b {
      var n := if js[a] != '\\' then 1 else if js[a + 1] == 'u' then 6 else 2;
      assert StringText(js, a + n, b);
      assert a + n <= b;
      assert js[a + n..b + 1] == js[a..b + 1][n..] == js'[a' + n..b' + 1];
      StringMoves(js, js', a + n, a' + n, b, b');
    }
  }

  lemma PrintedString(js: string, p: nat, x: string)
    requires At(js, p, Quoted(x)) && GoodString(x)
    ensures p + |x| + 1 < |js| && js[p] == '"' && StringText(js, p + 1, p + 1 + |x|) && js[p + 1..p + 1 + |x|] == x
  {
    hide StringText, At, GoodString;
    QuotedParts(js, p, x);
    GoodStringAt(js, p + 1, x);
    AtIs(js, p + 1, x);
  }

  lemma QuotedParts(js: string, p: nat, x: string)
    requires At(js, p, Quoted(x))
    ensures p < |js| && js[p] == '"' && At(js, p + 1, x + "\"") && At(js, p + 1, x)
  {
    hide At;
    AtParts(js, p, "\"", x + "\"");
    AtParts(js, p + 1, x, "\"");
    AtChar(js, p, "\"", 0);
  }

  lemma AtIs(js: string, p: nat, x: string)
    requires At(js, p, x)
    ensures p + |x| <= |js| && js[p..p + |x|] == x
  {
  }

  lemma GoodStringAt(js: string, p: nat, x: string)
    requires At(js, p, x + "\"") && GoodString(x)
    ensures p + |x| < |js| && StringText(js, p, p + |x|)
  {
    hide StringText;
    var y := x + "\"";
    assert y[0..|x| + 1] == y;
    StringMoves(y, js, 0, p, |x|, p + |x|);
  }

  lemma PrintedWord(strict: bool, js: string, p: nat, x: string)
    requires At(js, p, x) && GoodWord(strict, x) && Stops(strict, js, p + |x|)
    ensures p + |x| <= |js| && WordText(strict, js, p, p + |x|) && js[p..p + |x|] == x
  {
    forall i | p <= i < p + |x| ensures js[i] == x[i - p] { AtChar(js, p, x, i - p); }
  }

  /** A word may stop here. */
  predicate Stops(strict: bool, js: string, q: nat)
    requires q <= |js|
  {
    if q == |js| then !strict else WordEnd(strict, js[q])
  }

  /** No text starts with white space. */
  lemma FirstChar(strict: bool, d: Doc)
    requires Good(strict, d)
    ensures Print(d) != [] && !IsBlank(Print(d)[0])
  {
  }

  // ---- Printing spells ----

  /** Wherever the text of a value stands, it spells the value's layout. */
  lemma {:induction false} Printed(strict: bool, js: string, p: nat, d: Doc)
    requires Good(strict, d) && At(js, p, Print(d)) && (d.Word? ==> Stops(strict, js, p + |Print(d)|))
    ensures Spelled(strict, js, Layout(d, p), false) && DocOf(js, Layout(d, p)) == d
    ensures Lo(Layout(d, p)) == p && Hi(Layout(d, p)) == p + |Print(d)|
    decreases d, 2
  {
    hide At;
    match d
    case Word(x) => PrintedWord(strict, js, p, x);
    case Str(x) => PrintedString(js, p, x);
    case Arr(items) => PrintedArray(strict, js, p, items);
    case Obj(members) => PrintedObject(strict, js, p, members);
  }

  lemma BracketsPrinted(js: string, p: nat, open: string, x: string, close: string)
    requires At(js, p, open + x + close) && |open| == |close| == 1
    ensures At(js, p + 1, x) && p + |x| + 2 <= |js| && js[p] == open[0] && js[p + 1 + |x|] == close[0]
  {
    hide At;
    AtParts(js, p, open + x, close);
    AtParts(js, p, open, x);
    AtChar(js, p, open, 0);
    AtChar(js, p + 1 + |x|, close, 0);
  }

  lemma SplitAtComma(js: string, p: nat, x: string, y: string)
    requires At(js, p, x + "," + y)
    ensures At(js, p, x) && p + |x| < |js| && js[p + |x|] == ',' && At(js, p + |x| + 1, y)
  {
    hide At;
    AtParts(js, p, x + ",", y);
    AtParts(js, p, x, ",");
    AtChar(js, p + |x|, ",", 0);
  }

  lemma {:induction false} PrintedArray(strict: bool, js: string, p: nat, items: seq<Doc>)
    requires Good(strict, Arr(items)) && At(js, p, Print(Arr(items)))
    ensures Spelled(strict, js, Layout(Arr(items), p), false) && DocOf(js, Layout(Arr(items), p)) == Arr(items)
    decreases items, 3
  {
    hide Print, PrintItems, LayoutItems, Layout, Good, At, Spelled, DocOf, SpelledKids;
    ArrayParts(strict, items, p);
    BracketsPrinted(js, p, "[", PrintItems(items), "]");
    PrintedItems(strict, js, p + 1, items);
    ArraySpelled(strict, js, Layout(Arr(items), p));
  }

  lemma ArrayParts(strict: bool, items: seq<Doc>, p: nat)
    requires Good(strict, Arr(items))
    ensures Print(Arr(items)) == "[" + PrintItems(items) + "]"
    ensures forall i :: 0 <= i < |items| ==> Good(strict, items[i])
    ensures Layout(Arr(items), p) ==
      Tree(Tok(Array, p, p + |PrintItems(items)| + 2, |items|), LayoutItems(items, p + 1))
  {
  }

  lemma ArraySpelled(strict: bool, js: string, t: Tree)
    requires t.tok.kind == Array && t.tok.size == |t.kids| && Bracketed(js, t.tok, '[', ']')
    requires SpelledKids(strict, js, t.tok.start + 1, t.tok.end - 1, t.kids, false)
    ensures Spelled(strict, js, t, false) && DocOf(js, t) == Arr(DocsOf(js, t.kids))
  {
  }

  lemma {:induction false} PrintedItems(strict: bool, js: string, p: nat, ds: seq<Doc>)
    requires (forall i :: 0 <= i < |ds| ==> Good(strict, ds[i])) && At(js, p, PrintItems(ds))
    requires p + |PrintItems(ds)| < |js| && js[p + |PrintItems(ds)|] == ']'
    ensures SpelledKids(strict, js, p, p + |PrintItems(ds)|, LayoutItems(ds, p), false)
    ensures DocsOf(js, LayoutItems(ds, p)) == ds
    decreases ds, 2
  {
    hide At, Print, PrintItems, Layout, LayoutItems, SpelledKids, Good, Spelled, SkipBlanks, Hi, Lo, DocOf, DocsOf;
    var q := p + |PrintItems(ds)|;
    Unskipped(js, q);
    if ds == [] {
      NoItems(strict, js, q);
    } else {
      var d, m := ds[0], p + |Print(ds[0])|;
      ItemsSplit(js, p, ds);
      FirstChar(strict, d);
      AtChar(js, p, Print(d), 0);
      Unskipped(js, p);
      Printed(strict, js, p, d);
      Unskipped(js, m);
      if |ds| > 1 {
        PrintedItems(strict, js, m + 1, ds[1..]);
      }
      JoinItems(strict, js, p, ds);
    }
  }

  lemma ItemsSplit(js: string, p: nat, ds: seq<Doc>)
    requires ds != [] && At(js, p, PrintItems(ds))
    ensures var x, y := Print(ds[0]), PrintItems(ds[1..]);
      && At(js, p, x)
      && (|ds| == 1 ==> |PrintItems(ds)| == |x|)
      && (|ds| > 1 ==> p + |x| < |js| && js[p + |x|] == ',' && At(js, p + |x| + 1, y))
      && (|ds| > 1 ==> |PrintItems(ds)| == |x| + 1 + |y|)
  {
    hide At, Print;
    if |ds| > 1 {
      var x, y := Print(ds[0]), PrintItems(ds[1..]);
      assert PrintItems(ds) == x + "," + y;
      hide PrintItems;
      SplitAtComma(js, p, x, y);
    }
  }

  lemma NoItems(strict: bool, js: string, q: nat)
    requires SkipBlanks(js, q) == q
    ensures PrintItems([]) == [] && SpelledKids(strict, js, q, q, LayoutItems([], q), false)
    ensures DocsOf(js, LayoutItems([], q)) == []
  {
  }

  lemma JoinItems(strict: bool, js: string, p: nat, ds: seq<Doc>)
    requires ds != [] && SkipBlanks(js, p) == p == Lo(Layout(ds[0], p)) && Spelled(strict, js, Layout(ds[0], p), false)
    requires var m, q := p + |Print(ds[0])|, p + |PrintItems(ds)|;
      && Hi(Layout(ds[0], p)) == m == SkipBlanks(js, m) && DocOf(js, Layout(ds[0], p)) == ds[0]
      && if |ds| == 1 then m == q else
        && m < |js| && js[m] == ',' && SpelledKids(strict, js, m + 1, q, LayoutItems(ds[1..], m + 1), false)
        && DocsOf(js, LayoutItems(ds[1..], m + 1)) == ds[1..]
    ensures SpelledKids(strict, js, p, p + |PrintItems(ds)|, LayoutItems(ds, p), false)
    ensures DocsOf(js, LayoutItems(ds, p)) == ds
  {
    hide Print, PrintItems, Layout, Spelled, DocOf, SkipBlanks, Hi, Lo;
    var m := p + |Print(ds[0])|;
    var ts, rest := LayoutItems(ds, p), LayoutItems(ds[1..], m + 1);
    assert ts == [Layout(ds[0], p)] + rest && ts[1..] == rest;
    assert DocsOf(js, ts) == [ds[0]] + DocsOf(js, rest);
    assert |ds| == 1 ==> ds[1..] == [];
    assert ds == [ds[0]] + ds[1..];
  }

  lemma {:induction false} PrintedObject(strict: bool, js: string, p: nat, members: seq<Member>)
    requires Good(strict, Obj(members)) && At(js, p, Print(Obj(members)))
    ensures Spelled(strict, js, Layout(Obj(members), p), false) && DocOf(js, Layout(Obj(members), p)) == Obj(members)
    decreases members, 3
  {
    hide Print, PrintMembers, LayoutMembers, Layout, Good, At, Spelled, DocOf, SpelledKids;
    ObjectParts(strict, members, p);
    BracketsPrinted(js, p, "{", PrintMembers(members), "}");
    PrintedMembers(strict, js, p + 1, members);
    ObjectSpelled(strict, js, Layout(Obj(members), p));
  }

  lemma ObjectParts(strict: bool, members: seq<Member>, p: nat)
    requires Good(strict, Obj(members))
    ensures Print(Obj(members)) == "{" + PrintMembers(members) + "}"
    ensures forall i :: 0 <= i < |members| ==> GoodMember(strict, members[i])
    ensures Layout(Obj(members), p) ==
      Tree(Tok(Object, p, p + |PrintMembers(members)| + 2, |members|), LayoutMembers(members, p + 1))
  {
  }

  lemma ObjectSpelled(strict: bool, js: string, t: Tree)
    requires t.tok.kind == Object && t.tok.size == |t.kids| && Bracketed(js, t.tok, '{', '}')
    requires SpelledKids(strict, js, t.tok.start + 1, t.tok.end - 1, t.kids, true)
    ensures Spelled(strict, js, t, false) && DocOf(js, t) == Obj(MembersOf(js, t.kids))
  {
  }

  lemma {:induction false} PrintedMembers(strict: bool, js: string, p: nat, ms: seq<Member>)
    requires (forall i :: 0 <= i < |ms| ==> GoodMember(strict, ms[i])) && At(js, p, PrintMembers(ms))
    requires p + |PrintMembers(ms)| < |js| && js[p + |PrintMembers(ms)|] == '}'
    ensures SpelledKids(strict, js, p, p + |PrintMembers(ms)|, LayoutMembers(ms, p), true)
    ensures MembersOf(js, LayoutMembers(ms, p)) == ms
    decreases ms, 2
  {
    hide At, PrintMember, PrintMembers, LayoutMember, LayoutMembers, SpelledKids, GoodMember, Spelled, SkipBlanks, Hi,
         Lo,
         MemberOf, MembersOf;
    var q := p + |PrintMembers(ms)|;
    Unskipped(js, q);
    if ms == [] {
      NoMembers(strict, js, q);
    } else {
      var d, m := ms[0], p + |PrintMember(ms[0])|;
      MembersSplit(js, p, ms);
      FirstQuote(d);
      AtChar(js, p, PrintMember(d), 0);
      Unskipped(js, p);
      PrintedMember(strict, js, p, d);
      Unskipped(js, m);
      if |ms| > 1 {
        PrintedMembers(strict, js, m + 1, ms[1..]);
      }
      JoinMembers(strict, js, p, ms);
    }
  }

  lemma MembersSplit(js: string, p: nat, ms: seq<Member>)
    requires ms != [] && At(js, p, PrintMembers(ms))
    ensures var x, y := PrintMember(ms[0]), PrintMembers(ms[1..]);
      && At(js, p, x)
      && (|ms| == 1 ==> |PrintMembers(ms)| == |x|)
      && (|ms| > 1 ==> p + |x| < |js| && js[p + |x|] == ',' && At(js, p + |x| + 1, y))
      && (|ms| > 1 ==> |PrintMembers(ms)| == |x| + 1 + |y|)
  {
    hide At, PrintMember;
    if |ms| > 1 {
      var x, y := PrintMember(ms[0]), PrintMembers(ms[1..]);
      assert PrintMembers(ms) == x + "," + y;
      hide PrintMembers;
      SplitAtComma(js, p, x, y);
    }
  }

  lemma NoMembers(strict: bool, js: string, q: nat)
    requires SkipBlanks(js, q) == q
    ensures PrintMembers([]) == []
    ensures SpelledKids(strict, js, q, q, LayoutMembers([], q), true) && MembersOf(js, LayoutMembers([], q)) == []
  {
  }

  lemma FirstQuote(m: Member)
    ensures PrintMember(m) != [] && PrintMember(m)[0] == '"'
  {
  }

  lemma JoinMembers(strict: bool, js: string, p: nat, ms: seq<Member>)
    requires ms != [] && SkipBlanks(js, p) == p == Lo(LayoutMember(ms[0], p))
    requires Spelled(strict, js, LayoutMember(ms[0], p), true)
    requires var m, q := p + |PrintMember(ms[0])|, p + |PrintMembers(ms)|;
      && Hi(LayoutMember(ms[0], p)) == m == SkipBlanks(js, m) && MemberOf(js, LayoutMember(ms[0], p)) == ms[0]
      && if |ms| == 1 then m == q else
        && m < |js| && js[m] == ',' && SpelledKids(strict, js, m + 1, q, LayoutMembers(ms[1..], m + 1), true)
        && MembersOf(js, LayoutMembers(ms[1..], m + 1)) == ms[1..]
    ensures SpelledKids(strict, js, p, p + |PrintMembers(ms)|, LayoutMembers(ms, p), true)
    ensures MembersOf(js, LayoutMembers(ms, p)) == ms
  {
    hide PrintMember, PrintMembers, LayoutMember, Spelled, MemberOf, SkipBlanks, Hi, Lo;
    var m := p + |PrintMember(ms[0])|;
    var ts, rest := LayoutMembers(ms, p), LayoutMembers(ms[1..], m + 1);
    assert ts == [LayoutMember(ms[0], p)] + rest && ts[1..] == rest;
    assert MembersOf(js, ts) == [ms[0]] + MembersOf(js, rest);
    assert |ms| == 1 ==> ms[1..] == [];
    assert ms == [ms[0]] + ms[1..];
  }

  lemma {:induction false} PrintedMember(strict: bool, js: string, p: nat, m: Member)
    requires GoodMember(strict, m) && At(js, p, PrintMember(m)) && Stops(strict, js, p + |PrintMember(m)|)
    ensures Spelled(strict, js, LayoutMember(m, p), true) && MemberOf(js, LayoutMember(m, p)) == m
    ensures Lo(LayoutMember(m, p)) == p && Hi(LayoutMember(m, p)) == p + |PrintMember(m)|
    decreases m, 3
  {
    var key, value := Quoted(m.key), Print(m.value);
    var c := p + |key|;
    hide StringText, Print, Good, GoodString, Spelled, At, SkipBlanks;
    AtParts(js, p, key + ":", value);
    AtParts(js, p, key, ":");
    AtChar(js, c, ":", 0);
    PrintedString(js, p, m.key);
    FirstChar(strict, m.value);
    AtChar(js, c + 1, value, 0);
    Unskipped(js, c);
    Unskipped(js, c + 1);
    Printed(strict, js, c + 1, m.value);
    MemberSpelled(strict, js, LayoutMember(m, p));
  }

  lemma MemberSpelled(strict: bool, js: string, t: Tree)
    requires t.tok.kind == String && 0 <= Lo(t) && t.tok.start <= t.tok.end < |js| && t.tok.size == 1 == |t.kids|
    requires js[Lo(t)] == '"' && StringText(js, t.tok.start, t.tok.end) && KeySpelled(js, t)
    requires Spelled(strict, js, t.kids[0], false)
    ensures Spelled(strict, js, t, true)
  {
  }

  // ---- Round trip ----

  /** The text of any JSON value is tokenized to a tree that stands for that value. */
  lemma PrintThenTokenize(strict: bool, d: Doc, cap: nat)
    requires Good(strict, d) && |Flat(Layout(d, 0))| <= cap
    ensures var js, t := Print(d) + " ", Layout(d, 0);
      && Document(strict, js, t) && DocOf(js, t) == d
      && Run(strict, cap, js, INIT) == Advance(Parser(|js|, Flat(t), -1))
  {
    PrintIsDocument(strict, d, " ");
    hide Run, Print, Document, Good, Layout, DocOf;
    DocumentIsTokenized(strict, cap, Print(d) + " ", Layout(d, 0));
  }

  lemma PrintIsDocument(strict: bool, d: Doc, tail: string)
    requires Good(strict, d) && (forall i :: 0 <= i < |tail| ==> IsBlank(tail[i])) && (strict && d.Word? ==> tail != [])
    ensures Document(strict, Print(d) + tail, Layout(d, 0)) && DocOf(Print(d) + tail, Layout(d, 0)) == d
  {
    hide Print, Spelled, Good, Layout, DocOf;
    var js := Print(d) + tail;
    FirstChar(strict, d);
    Unskipped(js, 0);
    BlanksToEnd(js, |Print(d)|);
    assert At(js, 0, Print(d)) by { assert js[0..0 + |Print(d)|] == Print(d); }
    Printed(strict, js, 0, d);
  }

  lemma {:induction false} BlanksToEnd(js: string, p: nat)
    requires p <= |js| && forall i :: p <= i < |js| ==> IsBlank(js[i])
    ensures SkipBlanks(js, p) == |js|
    decreases |js| - p
  {
    if p < |js| { BlanksToEnd(js, p + 1); }
  }

  // ---- Every text is one of a good value ----

  lemma {:induction false} SpelledIsGood(strict: bool, js: string, t: Tree)
    requires Spelled(strict, js, t, false)
    ensures Good(strict, DocOf(js, t))
    decreases t, 0
  {
    match t.tok.kind
    case Primitive =>
    case String => SpelledString(js, t.tok.start, t.tok.end);
    case Array =>
      forall i | 0 <= i < |t.kids| ensures Good(strict, DocsOf(js, t.kids)[i]) {
        SpelledKid(strict, js, t.tok.start + 1, t.tok.end - 1, t.kids, false, i);
        SpelledIsGood(strict, js, t.kids[i]);
        DocsAt(js, t.kids, i);
      }
    case Object =>
      forall i | 0 <= i < |t.kids| ensures GoodMember(strict, MembersOf(js, t.kids)[i]) {
        SpelledKid(strict, js, t.tok.start + 1, t.tok.end - 1, t.kids, true, i);
        SpelledMember(strict, js, t.kids[i]);
        MembersAt(js, t.kids, i);
      }
  }

  lemma {:induction false} SpelledMember(strict: bool, js: string, t: Tree)
    requires Spelled(strict, js, t, true)
    ensures GoodMember(strict, MemberOf(js, t))
    decreases t, 1
  {
    SpelledKey(strict, js, t);
    SpelledString(js, t.tok.start, t.tok.end);
    SpelledIsGood(strict, js, t.kids[0]);
  }

  lemma SpelledString(js: string, a: nat, b: nat)
    requires a <= b < |js| && StringText(js, a, b)
    ensures GoodString(js[a..b])
  {
    LastQuote(js, a, b);
    hide StringText;
    var y := js[a..b] + "\"";
    assert y == js[a..b + 1] == y[0..b - a + 1];
    StringMoves(js, y, a, 0, b, b - a);
  }

  lemma {:induction false} LastQuote(js: string, a: nat, b: nat)
    requires b < |js| && StringText(js, a, b)
    ensures js[b] == '"'
    decreases |js| - a
  {
    if a < b {
      LastQuote(js, if js[a] != '\\' then a + 1 else if js[a + 1] == 'u' then a + 6 else a + 2, b);
    }
  }

  // ---- json_equal between texts ----

  lemma {:induction false} LowIsGood(strict: bool, d: Doc)
    requires Good(strict, d)
    ensures Good(strict, Low(d)) && Good(strict, High(d))
    decreases d
  {
    match d
    case Word(_) =>
    case Str(_) =>
    case Arr(items) =>
      forall i | 0 <= i < |items| ensures Good(strict, Low(items[i])) && Good(strict, High(items[i])) {
        LowIsGood(strict, items[i]);
      }
    case Obj(members) =>
      if members != [] {
        assert GoodMember(strict, members[0]);
        LowIsGood(strict, members[0].value);
        assert GoodString("a") && GoodString("b") by { PlainKeys(); }
      }
  }

  lemma PlainKeys()
    ensures GoodString("a") && GoodString("b")
  {
    assert StringText("a" + "\"", 1, 1) && StringText("b" + "\"", 1, 1);
  }

  /** json_equal compares d with every JSON text alike in both directions. */
  ghost predicate ComparesBothWays(strict: bool, d: Doc) {
    forall js, t :: Document(strict, js, t) ==> (Equal(d, DocOf(js, t)) <==> Equal(DocOf(js, t), d))
  }

  lemma GoodSymmetric(strict: bool, d: Doc)
    requires Good(strict, d)
    ensures ComparesBothWays(strict, d) <==> Slim(d)
  {
    hide Document, Good, Print, Layout, DocOf, Equal, Slim, Low, High;
    if Slim(d) {
      forall js, t | Document(strict, js, t) ensures Equal(d, DocOf(js, t)) <==> Equal(DocOf(js, t), d) {
        SlimIsSymmetric(d, DocOf(js, t));
      }
    } else {
      Asymmetric(d);
      LowIsGood(strict, d);
      PrintIsDocument(strict, Low(d), " ");
      PrintIsDocument(strict, High(d), " ");
    }
  }

  /** It does so with what js says exactly when no object in that has two members. */
  lemma SymmetricTexts(strict: bool, js: string, t: Tree)
    requires Document(strict, js, t)
    ensures ComparesBothWays(strict, DocOf(js, t)) <==> Slim(DocOf(js, t))
  {
    hide Spelled, Good, DocOf, ComparesBothWays, Slim;
    SpelledIsGood(strict, js, t);
    GoodSymmetric(strict, DocOf(js, t));
  }

  /** The smallest such pair, of the same length: one repeats a key. */
  const TWICE: string := "{\"a\":1,\"a\":1}"
  const ONCE: string := "{\"a\":1,\"b\":1}"

  function PairTree(): Tree {
    Tree(Tok(Object, 0, 13, 2), [
      Tree(Tok(String, 2, 3, 1), [Tree(Tok(Primitive, 5, 6, 0), [])]),
      Tree(Tok(String, 8, 9, 1), [Tree(Tok(Primitive, 11, 12, 0), [])])])
  }

  function Pair(key1: string, key2: string): Doc {
    Obj([Member(key1, Word("1")), Member(key2, Word("1"))])
  }

  lemma PairPrinted(key2: string)
    requires |key2| == 1
    ensures Print(Pair("a", key2)) == "{\"a\":1,\"" + key2 + "\":1}" && Layout(Pair("a", key2), 0) == PairTree()
  {
    var m1, m2 := Member("a", Word("1")), Member(key2, Word("1"));
    assert [m1, m2][1..] == [m2];
    assert PrintMember(m1) == "\"a\":1" && PrintMember(m2) == "\"" + key2 + "\":1";
    assert PrintMembers([m1, m2]) == PrintMember(m1) + "," + PrintMember(m2);
    assert LayoutMembers([m2], 7) == [LayoutMember(m2, 7)];
    assert LayoutMembers([m1, m2], 1) == [LayoutMember(m1, 1), LayoutMember(m2, 7)];
  }

  /** With a repeated key on either side json_equal is not symmetric. */
  lemma RepeatedKeysBreakSymmetry(strict: bool)
    ensures Document(strict, TWICE, PairTree()) && Document(strict, ONCE, PairTree())
    ensures Equal(DocOf(TWICE, PairTree()), DocOf(ONCE, PairTree()))
    ensures !Equal(DocOf(ONCE, PairTree()), DocOf(TWICE, PairTree()))
    ensures !Regular(DocOf(TWICE, PairTree())) && Regular(DocOf(ONCE, PairTree()))
  {
    hide Document, DocOf, Equal, PairTree, Pair, GoodString, Regular;
    PlainKeys();
    PairDocument(strict, "a", TWICE);
    PairDocument(strict, "b", ONCE);
    PairCompared();
  }

  lemma PairDocument(strict: bool, key2: string, js: string)
    requires |key2| == 1 && GoodString("a") && GoodString(key2) && js == "{\"a\":1,\"" + key2 + "\":1}"
    ensures Document(strict, js, PairTree()) && DocOf(js, PairTree()) == Pair("a", key2)
  {
    PairPrinted(key2);
    PairGood(strict, key2);
    hide Print, Layout, Document, DocOf, Good, PairTree;
    PrintIsDocument(strict, Pair("a", key2), "");
    assert js + "" == js;
  }

  lemma PairGood(strict: bool, key2: string)
    requires GoodString("a") && GoodString(key2)
    ensures Good(strict, Pair("a", key2))
  {
    hide GoodString;
    assert GoodWord(strict, "1") && Good(strict, Word("1"));
    assert GoodMember(strict, Member("a", Word("1"))) && GoodMember(strict, Member(key2, Word("1")));
  }

  lemma PairCompared()
    ensures Equal(Pair("a", "a"), Pair("a", "b")) && !Equal(Pair("a", "b"), Pair("a", "a"))
    ensures !Regular(Pair("a", "a")) && Regular(Pair("a", "b"))
  {
    var m1, m2 := Pair("a", "a").members, Pair("a", "b").members;
    assert MemberEqual(m1[0], m2) && MemberEqual(m1[1], m2);
    assert m2[1].key == "b" && !MemberEqual(m2[1], m1);
  }

  // ---- From texts to json_equal ----

  lemma {:induction false} SpelledIsDefined(strict: bool, js: string, t: Tree, key: bool)
    requires Spelled(strict, js, t, key)
    ensures AllDefined(t)
    decreases t
  {
    forall i | 0 <= i < |t.kids| ensures AllDefined(t.kids[i]) {
      if t.tok.kind != String {
        SpelledKid(strict, js, t.tok.start + 1, t.tok.end - 1, t.kids, t.tok.kind == Object, i);
      }
      SpelledIsDefined(strict, js, t.kids[i], t.tok.kind == Object);
    }
  }

  /** The tokens of a text hold its value, whatever follows them. */
  lemma DocumentAt(strict: bool, utf8: Utf8, js: string, t: Tree, toks: seq<Tok>)
    requires Document(strict, js, t) && Utf8Strings(utf8, t) && toks == Flat(t) + [TERMINATOR]
    ensures DatumAt(toks, 0, |toks|) && DocAt(js, toks, 0, |toks|) == DocOf(js, t)
  {
    hide Spelled, Build, Flat, Wf, IsDatum, AllDefined, DocOf;
    SpelledIsDatum(strict, utf8, js, t, false);
    AnyTextDatum(utf8, t, false);
    SpelledIsDefined(strict, js, t, false);
    assert toks[0..0 + |Flat(t)|] == Flat(t);
    FlatIsBuilt(toks, 0, |toks|, t);
  }

  /** Two JSON texts, parsed and compared. */
  method CompareTexts(strict: bool, utf8: string -> Utf8, js1: string, js2: string, count0: nat, ghost t1: Tree,
                      ghost t2: Tree)
      returns (r: bool)
    requires count0 >= 2 && Document(strict, js1, t1) && Document(strict, js2, t2)
    requires Utf8Strings(utf8(js1), t1) && Utf8Strings(utf8(js2), t2)
    ensures r <==> Equal(DocOf(js1, t1), DocOf(js2, t2))
  {
    hide Document, Utf8Strings, DatumAt, DocAt, DocOf, Flat, Equal;
    var p1 := ParseDocument(strict, utf8(js1), js1, count0, t1);
    var p2 := ParseDocument(strict, utf8(js2), js2, count0, t2);
    DocumentAt(strict, utf8(js1), js1, t1, p1.toks);
    DocumentAt(strict, utf8(js2), js2, t2, p2.toks);
    r := JsonEqual.JsonEqual(js1, p1.toks, 0, |p1.toks|, js2, p2.toks, 0, |p2.toks|);
  }
}
