/** JSON texts: the grammar that a token tree lays out over a text, and the tokenizer of
    external/jsmn/jsmn.h on such texts. */
module JsonText {
  import opened Wrappers
  import opened JsonTree
  import opened Jsmn
  import opened JsonInput

  predicate IsBlank(c: char) {
    c in {'\t', '\r', '\n', ' '}
  }

  predicate HexDigit(c: char) {
    '0' <= c <= '9' || 'A' <= c <= 'F' || 'a' <= c <= 'f'
  }

  /** What a number, true, false or null starts with. */
  predicate WordStart(c: char) {
    c == '-' || '0' <= c <= '9' || c == 't' || c == 'f' || c == 'n'
  }

  /** What may follow a word; a colon only where words may be keys. */
  predicate WordEnd(strict: bool, c: char) {
    IsBlank(c) || c == ',' || c == ']' || c == '}' || (!strict && c == ':')
  }

  /** The first position at or after p that holds no white space. */
  function SkipBlanks(js: string, p: nat): (q: nat)
    ensures p <= q && (q == p || q <= |js|)
    decreases |js| - p
  {
    if p < |js| && IsBlank(js[p]) then SkipBlanks(js, p + 1) else p
  }

  /** Where a token's text starts and where the text of its tree ends, quotes included. */
  function Lo(t: Tree): int {
    if t.tok.kind == String then t.tok.start - 1 else t.tok.start
  }

  function Hi(t: Tree): int {
    if t.tok.kind != String then t.tok.end else if t.kids == [] then t.tok.end + 1 else Hi(t.kids[0])
  }

  /** js[a..b] stands between quotes: no bare quote or zero byte, and whole escapes. */
  predicate StringText(js: string, a: nat, b: nat)
    requires b < |js|
    decreases |js| - a
  {
    if a >= b then a == b && js[b] == '"'
    else if js[a] == '\\' then
      if js[a + 1] in {'"', '/', '\\', 'b', 'f', 'r', 'n', 't'} then StringText(js, a + 2, b)
      else
        && js[a + 1] == 'u' && a + 6 <= b
        && HexDigit(js[a + 2]) && HexDigit(js[a + 3]) && HexDigit(js[a + 4]) && HexDigit(js[a + 5])
        && StringText(js, a + 6, b)
    else js[a] != '"' && js[a] != '\0' && StringText(js, a + 1, b)
  }

  /** js[a..b] is an unquoted word that stops there: a number, a boolean or null. */
  predicate WordText(strict: bool, js: string, a: nat, b: nat)
    requires b <= |js|
  {
    && a < b && WordStart(js[a])
    && (forall i :: a <= i < b ==> !WordEnd(strict, js[i]) && 32 <= js[i] as int < 127)
    && if b == |js| then !strict else WordEnd(strict, js[b])
  }

  /** The tokens of t lie where the text of a JSON value (or of a key with its value) has them. */
  predicate Spelled(strict: bool, js: string, t: Tree, key: bool)
    decreases t, 0
  {
    && 0 <= Lo(t) && t.tok.start <= t.tok.end && t.tok.size == |t.kids|
    && match t.tok.kind
       case Primitive => !key && t.kids == [] && t.tok.end <= |js| && WordText(strict, js, t.tok.start, t.tok.end)
       case String =>
         && t.tok.end < |js| && js[Lo(t)] == '"' && StringText(js, t.tok.start, t.tok.end)
         && if key then |t.kids| == 1 && KeySpelled(js, t) && Spelled(strict, js, t.kids[0], false) else t.kids == []
       case Array =>
         && !key && Bracketed(js, t.tok, '[', ']')
         && SpelledKids(strict, js, t.tok.start + 1, t.tok.end - 1, t.kids, false)
       case Object =>
         && !key && Bracketed(js, t.tok, '{', '}')
         && SpelledKids(strict, js, t.tok.start + 1, t.tok.end - 1, t.kids, true)
       case Undefined => false
       case Other => false
  }

  predicate Bracketed(js: string, tok: Tok, open: char, close: char) {
    0 <= tok.start < tok.end - 1 && tok.end <= |js| && js[tok.start] == open && js[tok.end - 1] == close
  }

  /** A colon stands between the key and its value. */
  predicate KeySpelled(js: string, t: Tree)
    requires |t.kids| == 1 && 0 <= t.tok.end
  {
    var c := SkipBlanks(js, t.tok.end + 1);
    c < |js| && js[c] == ':' && SkipBlanks(js, c + 1) == Lo(t.kids[0])
  }

  /** js[p..q] holds ts with commas between them. */
  predicate SpelledKids(strict: bool, js: string, p: nat, q: nat, ts: seq<Tree>, key: bool)
    decreases ts, 1
  {
    if ts == [] then SkipBlanks(js, p) == q
    else
      && SkipBlanks(js, p) == Lo(ts[0]) && Spelled(strict, js, ts[0], key) && 0 <= Hi(ts[0])
      && var c := SkipBlanks(js, Hi(ts[0]));
      if |ts| == 1 then c == q
      else c < |js| && js[c] == ',' && SpelledKids(strict, js, c + 1, q, ts[1..], key)
  }

  /** js is the text of one JSON value with the tokens of t. */
  predicate Document(strict: bool, js: string, t: Tree) {
    SkipBlanks(js, 0) == Lo(t) && Spelled(strict, js, t, false) && 0 <= Hi(t) && SkipBlanks(js, Hi(t)) == |js|
  }

  // ---- Scanning ----

  lemma {:induction false} StringIsScanned(js: string, a: nat, b: nat)
    requires b < |js| && StringText(js, a, b)
    ensures ScanString(js, a) == Found(b)
    decreases |js| - a
  {
    if a < b {
      if js[a] != '\\' { StringIsScanned(js, a + 1, b); }
      else if js[a + 1] != 'u' { StringIsScanned(js, a + 2, b); }
      else {
        StringIsScanned(js, a + 6, b);
        HexIsScanned(js, a + 2);
      }
    }
  }

  lemma HexIsScanned(js: string, p: nat)
    requires p + 4 <= |js| && HexDigit(js[p]) && HexDigit(js[p + 1]) && HexDigit(js[p + 2]) && HexDigit(js[p + 3])
    ensures ScanHex(js, p, 4) == Some(p + 4)
  {
    assert ScanHex(js, p + 3, 1) == ScanHex(js, p + 4, 0);
    assert ScanHex(js, p + 1, 3) == ScanHex(js, p + 2, 2) == ScanHex(js, p + 3, 1);
  }

  lemma {:induction false} WordIsScanned(strict: bool, js: string, a: nat, p: nat, b: nat)
    requires a <= p <= b <= |js| && WordText(strict, js, a, b)
    ensures ScanPrimitive(strict, js, p) == Found(b)
    decreases b - p
  {
    if p < b { WordIsScanned(strict, js, a, p + 1, b); }
  }

  lemma {:induction false} RunBlanks(strict: bool, cap: nat, js: string, s: Parser)
    requires Sane(s)
    ensures Run(strict, cap, js, s) == Run(strict, cap, js, s.(pos := SkipBlanks(js, s.pos)))
    decreases |js| - s.pos
  {
    if s.pos < |js| && IsBlank(js[s.pos]) {
      RunBlanks(strict, cap, js, s.(pos := s.pos + 1));
      assert Step(strict, cap, js, s) == Advance(s.(pos := s.pos + 1));
      hide Step;
    }
  }

  // ---- Open and closed tokens ----

  ghost predicate AllClosed(toks: seq<Tok>) {
    forall i :: 0 <= i < |toks| ==> toks[i].end != -1
  }

  lemma LastOpenOf(toks: seq<Tok>, o: int)
    requires -1 <= o < |toks| && (o >= 0 ==> IsOpen(toks[o]) && IsContainer(toks[o]))
    requires forall k :: o < k < |toks| ==> !IsOpen(toks[k])
    ensures LastOpen(toks, |toks|) == o && LastOpenContainer(toks, |toks|) == o
  {
  }

  /** All tokens of a value are closed. */
  lemma {:induction false} FlatClosed(strict: bool, js: string, t: Tree, key: bool)
    requires Spelled(strict, js, t, key)
    ensures AllClosed(Flat(t))
    decreases t, 0
  {
    assert t.tok.end != -1;
    if t.kids != [] {
      if t.tok.kind == String {
        FlatClosed(strict, js, t.kids[0], false);
        assert FlatAll(t.kids) == Flat(t.kids[0]) + FlatAll(t.kids[1..]);
        assert t.kids[1..] == [];
      } else {
        FlatAllClosed(strict, js, t.tok.start + 1, t.tok.end - 1, t.kids, t.tok.kind == Object);
      }
    }
  }

  lemma {:induction false} FlatAllClosed(strict: bool, js: string, p: nat, q: nat, ts: seq<Tree>, key: bool)
    requires SpelledKids(strict, js, p, q, ts, key)
    ensures AllClosed(FlatAll(ts))
    decreases ts, 1
  {
    if ts != [] {
      FlatClosed(strict, js, ts[0], key);
      if |ts| > 1 {
        FlatAllClosed(strict, js, SkipBlanks(js, Hi(ts[0])) + 1, q, ts[1..], key);
      } else {
        assert ts[1..] == [];
      }
    }
  }

  // ---- Running over a value ----

  /** A value may come next: at the top, in an array, or behind a key. */
  predicate Ready(s: Parser) {
    && Sane(s)
    && (s.super == -1 || s.toks[s.super].kind == Array || (s.toks[s.super].kind == String && s.toks[s.super].size == 0))
  }

  /** The parser after a value: its tokens are there, and its parent counts it. */
  function After(s: Parser, t: Tree, super: int): Parser
    requires Sane(s) && 0 <= Hi(t)
  {
    Parser(Hi(t), Counted(s.toks, s.super) + Flat(t), super)
  }

  lemma CountedFirst(toks: seq<Tok>, super: int, tok: Tok)
    requires -1 <= super < |toks|
    ensures Counted(toks + [tok], super) == Counted(toks, super) + [tok]
  {
  }

  /** A string or a word is one step. */
  lemma StepLeaf(strict: bool, cap: nat, js: string, s: Parser, tok: Tok)
    requires Sane(s) && s.pos == Lo(Tree(tok, [])) && |s.toks| < cap && tok.size == 0
    requires 0 <= tok.start <= tok.end <= |js|
    requires tok.kind == Primitive ==> Ready(s) && WordText(strict, js, tok.start, tok.end)
    requires tok.kind == String ==> tok.end < |js| && js[s.pos] == '"' && StringText(js, tok.start, tok.end)
    requires tok.kind == Primitive || tok.kind == String
    ensures Here(js, s.pos)
    ensures Step(strict, cap, js, s) ==
      Advance(Parser(Hi(Tree(tok, [])), Counted(s.toks, s.super) + [tok], s.super))
  {
    CountedFirst(s.toks, s.super, tok);
    if tok.kind == String {
      hide Counted, ScanString, ScanPrimitive, StringText, LastOpen, LastOpenContainer;
      StringIsScanned(js, tok.start, tok.end);
    } else {
      WordIsScanned(strict, js, tok.start, tok.start, tok.end);
      WordFirst(strict, js, tok.start, tok.end);
      hide Counted, ScanString, ScanPrimitive, StringText, WordText, LastOpen, LastOpenContainer;
    }
  }

  lemma WordFirst(strict: bool, js: string, a: nat, b: nat)
    requires b <= |js| && WordText(strict, js, a, b)
    ensures a < b && StartsPrimitive(strict, js[a]) && js[a] != '\0'
    ensures js[a] !in {'{', '[', '}', ']', '"', ':', ',', '\t', '\r', '\n', ' '}
  {
  }

  /** An opening bracket. */
  lemma StepOpen(strict: bool, cap: nat, js: string, s: Parser, kind: Kind)
    requires Ready(s) && |s.toks| < cap && s.pos < |js| && (kind == Array || kind == Object)
    requires js[s.pos] == if kind == Object then '{' else '['
    ensures Here(js, s.pos)
    ensures Step(strict, cap, js, s) ==
      Advance(Parser(s.pos + 1, Counted(s.toks, s.super) + [Tok(kind, s.pos, -1, 0)], |s.toks|))
  {
    CountedFirst(s.toks, s.super, Tok(kind, s.pos, -1, 0));
    hide Counted;
  }

  /** A closing bracket closes the last open token. */
  lemma StepClose(strict: bool, cap: nat, js: string, s: Parser, base: seq<Tok>, head: Tok, rest: seq<Tok>)
    requires Sane(s) && s.toks == base + [head] + rest && s.pos < |js|
    requires IsOpen(head) && IsContainer(head) && AllClosed(rest)
    requires js[s.pos] == if head.kind == Object then '}' else ']'
    ensures Here(js, s.pos)
    ensures Step(strict, cap, js, s) ==
      Advance(Parser(s.pos + 1, base + [head.(end := s.pos + 1)] + rest, LastOpen(base, |base|)))
  {
    hide Step, LastOpen, LastOpenContainer, AllClosed;
    InHand(base, head, rest);
    Replaced(base, head, rest, head.(end := s.pos + 1));
    LastOpenPrefix(base, base + [head.(end := s.pos + 1)] + rest);
    StepCloses(strict, cap, js, s, |base|);
  }

  lemma Replaced(base: seq<Tok>, tok: Tok, rest: seq<Tok>, tok': Tok)
    ensures (base + [tok] + rest)[|base| := tok'] == base + [tok'] + rest
    ensures (base + [tok'] + rest)[..|base|] == base
  {
  }

  lemma StepCloses(strict: bool, cap: nat, js: string, s: Parser, o: nat)
    requires Sane(s) && LastOpen(s.toks, |s.toks|) == o && s.pos < |js| && IsContainer(s.toks[o])
    requires js[s.pos] == if s.toks[o].kind == Object then '}' else ']'
    ensures Here(js, s.pos)
    ensures var toks := s.toks[o := s.toks[o].(end := s.pos + 1)];
      Step(strict, cap, js, s) == Advance(Parser(s.pos + 1, toks, LastOpen(toks, o)))
  {
    hide LastOpen;
  }

  /** With closed tokens behind it, an open bracket is the last open token. */
  lemma InHand(base: seq<Tok>, head: Tok, rest: seq<Tok>)
    requires IsOpen(head) && IsContainer(head) && AllClosed(rest)
    ensures var toks := base + [head] + rest;
      LastOpen(toks, |toks|) == |base| && LastOpenContainer(toks, |toks|) == |base| && toks[|base|] == head
  {
    var toks := base + [head] + rest;
    assert forall k :: |base| < k < |toks| ==> toks[k] == rest[k - |base| - 1];
    LastOpenOf(toks, |base|);
  }

  lemma {:induction false} LastOpenBelow(a: seq<Tok>, b: seq<Tok>, n: nat)
    requires n <= |a| && n <= |b| && a[..n] == b[..n]
    ensures LastOpen(a, n) == LastOpen(b, n)
  {
    if n > 0 {
      assert a[n - 1] == a[..n][n - 1] == b[n - 1];
      assert a[..n - 1] == a[..n][..n - 1] == b[..n - 1];
      LastOpenBelow(a, b, n - 1);
    }
  }

  lemma LastOpenPrefix(base: seq<Tok>, toks: seq<Tok>)
    requires |base| <= |toks| && toks[..|base|] == base
    ensures LastOpen(toks, |base|) == LastOpen(base, |base|)
  {
    LastOpenBelow(toks, base, |base|);
  }

  /** Counting a child opens and closes nothing. */
  lemma {:induction false} LastOpenCounted(toks: seq<Tok>, super: int, n: nat)
    requires -1 <= super < |toks| && n <= |toks|
    ensures LastOpen(Counted(toks, super), n) == LastOpen(toks, n)
  {
    if n > 0 { LastOpenCounted(toks, super, n - 1); }
  }

  /** A step that does not fail is taken. */
  lemma RunStep(strict: bool, cap: nat, js: string, s: Parser, s': Parser)
    requires Sane(s) && Here(js, s.pos) && Step(strict, cap, js, s) == Advance(s')
    ensures Sane(s') && Run(strict, cap, js, s) == Run(strict, cap, js, s')
  {
    hide Step;
  }

  /** A comma makes the bracket in hand the parent again. */
  lemma StepComma(strict: bool, cap: nat, js: string, s: Parser, o: nat)
    requires Sane(s) && LastOpenContainer(s.toks, |s.toks|) == o && s.pos < |js| && js[s.pos] == ','
    requires s.super == o || (s.super != -1 && !IsContainer(s.toks[s.super]))
    ensures Here(js, s.pos) && Step(strict, cap, js, s) == Advance(Parser(s.pos + 1, s.toks, o))
  {
    hide LastOpenContainer;
  }

  lemma {:induction false} SpelledBounds(strict: bool, js: string, t: Tree, key: bool)
    requires Spelled(strict, js, t, key)
    ensures 0 <= Lo(t) < Hi(t) <= |js|
    decreases t
  {
    if t.tok.kind == String && key { SpelledBounds(strict, js, t.kids[0], false); }
  }

  /** The parent after a value: a bracket that closes goes back to the last open one. */
  function SuperAfter(s: Parser, t: Tree): int {
    if IsContainer(t.tok) then LastOpen(s.toks, |s.toks|) else s.super
  }

  /** The tokenizer takes a value whole, and its tokens are those of its tree. */
  lemma {:induction false} RunValue(strict: bool, cap: nat, js: string, s: Parser, t: Tree)
    requires Ready(s) && s.pos == Lo(t) && Spelled(strict, js, t, false) && |s.toks| + |Flat(t)| <= cap
    ensures 0 <= Hi(t) && Sane(After(s, t, SuperAfter(s, t)))
    ensures Run(strict, cap, js, s) == Run(strict, cap, js, After(s, t, SuperAfter(s, t)))
    decreases t, 2
  {
    SpelledBounds(strict, js, t, false);
    if IsContainer(t.tok) {
      RunBrackets(strict, cap, js, s, t);
    } else {
      hide Step, Run;
      assert t.kids == [] && FlatAll([]) == [] && t == Tree(t.tok, []);
      StepLeaf(strict, cap, js, s, t.tok);
      RunStep(strict, cap, js, s, After(s, t, s.super));
    }
  }

  lemma {:induction false} RunBrackets(strict: bool, cap: nat, js: string, s: Parser, t: Tree)
    requires Ready(s) && s.pos == Lo(t) && Spelled(strict, js, t, false) && |s.toks| + |Flat(t)| <= cap
    requires IsContainer(t.tok) && 0 <= Hi(t)
    ensures Sane(After(s, t, SuperAfter(s, t)))
    ensures Run(strict, cap, js, s) == Run(strict, cap, js, After(s, t, SuperAfter(s, t)))
    decreases t, 1
  {
    var base, head := Counted(s.toks, s.super), Tok(t.tok.kind, t.tok.start, -1, 0);
    assert |Flat(t)| == 1 + |FlatAll(t.kids)|;
    hide Run, Counted, SpelledKids, LastOpen, Flat, FlatAll;
    RunOpen(strict, cap, js, s, t);
    var s1 := Parser(t.tok.start + 1, base + [head] + [], |s.toks|);
    var sup := RunKids(strict, cap, js, s1, base, head, [], t.kids, t.tok.end - 1, t.tok.kind == Object);
    assert [] + FlatAll(t.kids) == FlatAll(t.kids);
    RunClose(strict, cap, js, s, t, sup);
  }

  lemma RunOpen(strict: bool, cap: nat, js: string, s: Parser, t: Tree)
    requires Ready(s) && s.pos == Lo(t) && Spelled(strict, js, t, false) && |s.toks| < cap && IsContainer(t.tok)
    ensures var toks := Counted(s.toks, s.super) + [Tok(t.tok.kind, t.tok.start, -1, 0)] + [];
      Run(strict, cap, js, s) == Run(strict, cap, js, Parser(t.tok.start + 1, toks, |s.toks|))
  {
    var toks := Counted(s.toks, s.super) + [Tok(t.tok.kind, t.tok.start, -1, 0)];
    assert toks + [] == toks;
    hide Step, Counted, SpelledKids, Run;
    StepOpen(strict, cap, js, s, t.tok.kind);
    RunStep(strict, cap, js, s, Parser(t.tok.start + 1, toks, |s.toks|));
  }

  lemma RunClose(strict: bool, cap: nat, js: string, s: Parser, t: Tree, sup: int)
    requires Sane(s) && Spelled(strict, js, t, false) && IsContainer(t.tok) && -1 <= sup < |s.toks| + |Flat(t)|
    ensures Sane(After(s, t, SuperAfter(s, t)))
    ensures var full := Tok(t.tok.kind, t.tok.start, -1, |t.kids|);
      var s2 := Parser(t.tok.end - 1, Counted(s.toks, s.super) + [full] + FlatAll(t.kids), sup);
      Sane(s2) && Run(strict, cap, js, s2) == Run(strict, cap, js, After(s, t, SuperAfter(s, t)))
  {
    var base, full, q := Counted(s.toks, s.super), Tok(t.tok.kind, t.tok.start, -1, |t.kids|), t.tok.end - 1;
    FlatAllClosed(strict, js, t.tok.start + 1, q, t.kids, t.tok.kind == Object);
    LastOpenCounted(s.toks, s.super, |s.toks|);
    assert full.(end := q + 1) == t.tok;
    assert base + [t.tok] + FlatAll(t.kids) == base + Flat(t);
    hide Step, Run, Counted, SpelledKids, LastOpen, AllClosed, Flat, FlatAll;
    var s2 := Parser(q, base + [full] + FlatAll(t.kids), sup);
    StepClose(strict, cap, js, s2, base, full, FlatAll(t.kids));
    RunStep(strict, cap, js, s2, After(s, t, SuperAfter(s, t)));
  }

  /** A key, its colon and its value. */
  lemma {:induction false} RunKey(strict: bool, cap: nat, js: string, s: Parser, t: Tree) returns (sup: int)
    requires Sane(s) && s.pos == Lo(t) && Spelled(strict, js, t, true) && |s.toks| + |Flat(t)| <= cap
    ensures 0 <= Hi(t) && Sane(After(s, t, sup))
    ensures Run(strict, cap, js, s) == Run(strict, cap, js, After(s, t, sup))
    ensures sup == LastOpen(s.toks, |s.toks|) || sup == |s.toks|
    decreases t, 1
  {
    hide Run, Flat, FlatAll, Counted, StringText, LastOpen, Spelled, After, Hi, Lo, Ready, SkipBlanks;
    SpelledKey(strict, js, t);
    var v, c := t.kids[0], SkipBlanks(js, t.tok.end + 1);
    SpelledBounds(strict, js, v, false);
    var s1 := Parser(Lo(v), Counted(s.toks, s.super) + [t.tok.(size := 0)], |s.toks|);
    KeyLayout(s, t, s1);
    RunColon(strict, cap, js, s, t.tok, s1.toks, c);
    RunValue(strict, cap, js, s1, v);
    sup := SuperAfter(s1, v);
    assert After(s1, v, sup) == After(s, t, sup);
  }

  /** From the opening quote of a key to its value. */
  lemma RunColon(strict: bool, cap: nat, js: string, s: Parser, tok: Tok, toks: seq<Tok>, c: nat)
    requires Sane(s) && |s.toks| < cap && tok.kind == String && s.pos == tok.start - 1
    requires tok.start <= tok.end < |js| && js[s.pos] == '"' && StringText(js, tok.start, tok.end)
    requires toks == Counted(s.toks, s.super) + [tok.(size := 0)]
    requires c == SkipBlanks(js, tok.end + 1) && c < |js| && js[c] == ':'
    ensures Run(strict, cap, js, s) == Run(strict, cap, js, Parser(SkipBlanks(js, c + 1), toks, |s.toks|))
  {
    hide Step, Run, Counted, StringText, SkipBlanks;
    RunName(strict, cap, js, s, tok);
    AfterName(strict, cap, js, Parser(c, toks, s.super));
  }

  lemma AfterName(strict: bool, cap: nat, js: string, s: Parser)
    requires Sane(s) && s.pos < |js| && js[s.pos] == ':'
    ensures Run(strict, cap, js, s) == Run(strict, cap, js, Parser(SkipBlanks(js, s.pos + 1), s.toks, |s.toks| - 1))
  {
    hide Step, Run, SkipBlanks;
    var s' := Parser(s.pos + 1, s.toks, |s.toks| - 1);
    StepColon(strict, cap, js, s);
    RunStep(strict, cap, js, s, s');
    RunBlanks(strict, cap, js, s');
  }

  lemma StepColon(strict: bool, cap: nat, js: string, s: Parser)
    requires Sane(s) && s.pos < |js| && js[s.pos] == ':'
    ensures Here(js, s.pos) && Step(strict, cap, js, s) == Advance(Parser(s.pos + 1, s.toks, |s.toks| - 1))
  {
  }

  /** The name itself and the white space behind it. */
  lemma RunName(strict: bool, cap: nat, js: string, s: Parser, tok: Tok)
    requires Sane(s) && |s.toks| < cap && tok.kind == String && s.pos == tok.start - 1
    requires tok.start <= tok.end < |js| && js[s.pos] == '"' && StringText(js, tok.start, tok.end)
    ensures var s' := Parser(SkipBlanks(js, tok.end + 1), Counted(s.toks, s.super) + [tok.(size := 0)], s.super);
      Run(strict, cap, js, s) == Run(strict, cap, js, s')
  {
    hide Step, Run, Counted, StringText, SkipBlanks;
    var s1 := Parser(tok.end + 1, Counted(s.toks, s.super) + [tok.(size := 0)], s.super);
    StepLeaf(strict, cap, js, s, tok.(size := 0));
    RunStep(strict, cap, js, s, s1);
    RunBlanks(strict, cap, js, s1);
  }

  lemma SpelledKey(strict: bool, js: string, t: Tree)
    requires Spelled(strict, js, t, true)
    ensures t.tok.kind == String && 0 <= Lo(t) == t.tok.start - 1 && t.tok.start <= t.tok.end < |js| && js[Lo(t)] == '"'
    ensures StringText(js, t.tok.start, t.tok.end) && t.tok.size == |t.kids| == 1
    ensures KeySpelled(js, t) && Spelled(strict, js, t.kids[0], false) && Hi(t) == Hi(t.kids[0])
  {
  }

  /** The tokens before, at and behind a key once it has its value. */
  lemma KeyLayout(s: Parser, t: Tree, s': Parser)
    requires Sane(s) && |t.kids| == 1 == t.tok.size && t.tok.kind == String && t.tok.end != -1 && 0 <= Hi(t.kids[0])
    requires s'.toks == Counted(s.toks, s.super) + [t.tok.(size := 0)] && s'.super == |s.toks|
    ensures |Flat(t)| == 1 + |Flat(t.kids[0])| && Hi(t) == Hi(t.kids[0]) && Ready(s')
    ensures forall sup :: After(s', t.kids[0], sup) == After(s, t, sup)
    ensures LastOpen(s'.toks, |s'.toks|) == LastOpen(s.toks, |s.toks|)
  {
    hide Flat, FlatAll, LastOpen;
    var base, tok := Counted(s.toks, s.super), t.tok.(size := 0);
    FlatKey(t);
    KeyCounted(base, tok, Flat(t.kids[0]));
    ClosedBehind(s.toks, s.super, tok);
    hide Counted;
  }

  lemma FlatKey(t: Tree)
    requires |t.kids| == 1
    ensures Flat(t) == [t.tok] + Flat(t.kids[0])
  {
    var v := t.kids[0];
    assert t.kids[1..] == [] && FlatAll([]) == [];
    assert FlatAll(t.kids) == Flat(v) + FlatAll(t.kids[1..]);
    assert Flat(v) + [] == Flat(v);
  }

  lemma KeyCounted(base: seq<Tok>, tok: Tok, rest: seq<Tok>)
    ensures var tok' := tok.(size := tok.size + 1);
      Counted(base + [tok], |base|) + rest == base + ([tok'] + rest) && (base + ([tok'] + rest))[|base|] == tok'
  {
    var tok' := tok.(size := tok.size + 1);
    assert Counted(base + [tok], |base|) == base + [tok'];
    hide Counted;
    assert base + [tok'] + rest == base + ([tok'] + rest);
  }

  lemma ClosedBehind(toks: seq<Tok>, super: int, tok: Tok)
    requires -1 <= super < |toks| && !IsOpen(tok)
    ensures LastOpen(Counted(toks, super) + [tok], |toks| + 1) == LastOpen(toks, |toks|)
  {
    var base := Counted(toks, super);
    LastOpenCounted(toks, super, |toks|);
    hide Counted;
    LastOpenPrefix(base, base + [tok]);
  }

  /** What stands between two brackets. */
  lemma {:induction false} RunKids(strict: bool, cap: nat, js: string, s: Parser, base: seq<Tok>, head: Tok,
                                   done: seq<Tok>,
                                   ts: seq<Tree>, q: nat, key: bool) returns (sup: int)
    requires s.toks == base + [head] + done && s.super == |base|
    requires IsOpen(head) && head.kind == (if key then Object else Array) && AllClosed(done)
    requires SpelledKids(strict, js, s.pos, q, ts, key) && |s.toks| + |FlatAll(ts)| <= cap
    ensures var s' := Parser(q, base + [head.(size := head.size + |ts|)] + (done + FlatAll(ts)), sup);
      Sane(s') && Run(strict, cap, js, s) == Run(strict, cap, js, s')
    decreases ts, 0
  {
    hide Step, Run, LastOpen, LastOpenContainer, Spelled, Lo, Hi, SkipBlanks, Flat;
    RunBlanks(strict, cap, js, s);
    if ts == [] {
      assert done + FlatAll(ts) == done;
      sup := s.super;
    } else {
      var t, s1 := ts[0], s.(pos := Lo(ts[0]));
      var done1, head1 := done + Flat(t), head.(size := head.size + 1);
      sup := RunKid(strict, cap, js, s1, base, head, done, t, key);
      var s2 := Parser(Hi(t), base + [head1] + done1, sup);
      RunBlanks(strict, cap, js, s2);
      assert done1 + FlatAll(ts[1..]) == done + FlatAll(ts) by { FlatStep(done, ts); }
      if |ts| == 1 {
        assert done1 == done + FlatAll(ts) by { assert ts[1..] == []; }
      } else {
        FlatClosed(strict, js, t, key);
        var c := SkipBlanks(js, Hi(t));
        AfterComma(strict, cap, js, s2.(pos := c), base, head1, done1);
        sup := RunKids(strict, cap, js, Parser(c + 1, s2.toks, |base|), base, head1, done1, ts[1..], q, key);
      }
    }
  }

  lemma FlatStep(done: seq<Tok>, ts: seq<Tree>)
    requires ts != []
    ensures done + Flat(ts[0]) + FlatAll(ts[1..]) == done + FlatAll(ts)
    ensures |FlatAll(ts)| == |Flat(ts[0])| + |FlatAll(ts[1..])|
  {
    assert FlatAll(ts) == Flat(ts[0]) + FlatAll(ts[1..]);
    hide Flat, FlatAll;
    Grouped(done, Flat(ts[0]), FlatAll(ts[1..]));
  }

  lemma Grouped(a: seq<Tok>, b: seq<Tok>, c: seq<Tok>)
    ensures a + b + c == a + (b + c)
  {
  }

  lemma AfterComma(strict: bool, cap: nat, js: string, s: Parser, base: seq<Tok>, head: Tok, done: seq<Tok>)
    requires Sane(s) && s.toks == base + [head] + done && s.pos < |js| && js[s.pos] == ','
    requires IsOpen(head) && IsContainer(head) && AllClosed(done)
    requires s.super == |base| || (s.super != -1 && !IsContainer(s.toks[s.super]))
    ensures Run(strict, cap, js, s) == Run(strict, cap, js, Parser(s.pos + 1, s.toks, |base|))
  {
    hide Step, LastOpen, LastOpenContainer;
    InHand(base, head, done);
    StepComma(strict, cap, js, s, |base|);
  }

  lemma {:induction false} RunKid(strict: bool, cap: nat, js: string, s: Parser, base: seq<Tok>, head: Tok,
                                  done: seq<Tok>,
                                  t: Tree, key: bool) returns (sup: int)
    requires s.toks == base + [head] + done && s.super == |base|
    requires IsOpen(head) && head.kind == (if key then Object else Array) && AllClosed(done)
    requires s.pos == Lo(t) && Spelled(strict, js, t, key) && |s.toks| + |Flat(t)| <= cap
    ensures 0 <= Hi(t)
    ensures var s' := Parser(Hi(t), base + [head.(size := head.size + 1)] + (done + Flat(t)), sup);
      && Sane(s') && Run(strict, cap, js, s) == Run(strict, cap, js, s')
      && (sup == |base| || (sup != -1 && !IsContainer(s'.toks[sup])))
    decreases t, 3
  {
    hide Step, Run, Spelled, LastOpen, LastOpenContainer;
    InHand(base, head, done);
    assert Counted(s.toks, |base|) == base + [head.(size := head.size + 1)] + done;
    assert Counted(s.toks, |base|) + Flat(t) == base + [head.(size := head.size + 1)] + (done + Flat(t));
    if key {
      SpelledKey(strict, js, t);
      sup := RunKey(strict, cap, js, s, t);
    } else {
      RunValue(strict, cap, js, s, t);
      sup := SuperAfter(s, t);
    }
  }

  /** A text that spells a tree is tokenized to exactly that tree. */
  lemma DocumentIsTokenized(strict: bool, cap: nat, js: string, t: Tree)
    requires Document(strict, js, t) && |Flat(t)| <= cap
    ensures Run(strict, cap, js, INIT) == Advance(Parser(|js|, Flat(t), -1))
  {
    RunBlanks(strict, cap, js, INIT);
    var s := INIT.(pos := Lo(t));
    RunValue(strict, cap, js, s, t);
    assert SuperAfter(s, t) == -1;
    var s1 := Parser(Hi(t), Flat(t), -1);
    assert After(s, t, -1) == s1 by { assert [] + Flat(t) == Flat(t); }
    RunBlanks(strict, cap, js, s1);
    FlatClosed(strict, js, t, false);
    LastOpenOf(Flat(t), -1);
  }

  // ---- json_parse_input on such texts ----

  lemma {:induction false} SpelledKid(strict: bool, js: string, p: nat, q: nat, ts: seq<Tree>, key: bool, i: nat)
    requires SpelledKids(strict, js, p, q, ts, key) && i < |ts|
    ensures Spelled(strict, js, ts[i], key)
    decreases ts
  {
    hide Spelled, SkipBlanks;
    if i > 0 { SpelledKid(strict, js, SkipBlanks(js, Hi(ts[0])) + 1, q, ts[1..], key, i - 1); }
  }

  /** The strings of t are well-formed UTF-8. */
  ghost predicate Utf8Strings(utf8: Utf8, t: Tree) {
    (t.tok.kind == String ==> utf8(t.tok)) && forall i :: 0 <= i < |t.kids| ==> Utf8Strings(utf8, t.kids[i])
  }

  /** What a text spells is a datum. */
  lemma {:induction false} SpelledIsDatum(strict: bool, utf8: Utf8, js: string, t: Tree, key: bool)
    requires Spelled(strict, js, t, key) && Utf8Strings(utf8, t)
    ensures Wf(t) && IsKid(utf8, t, key)
    decreases t
  {
    forall i | 0 <= i < |t.kids| ensures Wf(t.kids[i]) && IsKid(utf8, t.kids[i], t.tok.kind == Object) {
      if t.tok.kind != String {
        SpelledKid(strict, js, t.tok.start + 1, t.tok.end - 1, t.kids, t.tok.kind == Object, i);
      }
      SpelledIsDatum(strict, utf8, js, t.kids[i], t.tok.kind == Object);
    }
    if t.tok.kind == Object {
      forall i | 0 <= i < |t.kids| ensures IsKeyvalue(utf8, t.kids[i]) { assert IsKid(utf8, t.kids[i], true); }
    } else if t.tok.kind == Array {
      forall i | 0 <= i < |t.kids| ensures IsDatum(utf8, t.kids[i]) { assert IsKid(utf8, t.kids[i], false); }
    } else if t.tok.kind == String && key {
      assert IsKid(utf8, t.kids[0], false);
    }
  }

  /** json_parse_input completes on every JSON text, with exactly the tokens it spells. */
  method ParseDocument(strict: bool, utf8: Utf8, js: string, count0: nat, ghost t: Tree) returns (r: Parsed)
    requires count0 >= 2 && Document(strict, js, t) && Utf8Strings(utf8, t)
    ensures r == Complete(Flat(t) + [TERMINATOR])
  {
    hide Run, Build, Holds, Document, Flat, Wf, IsDatum;
    DocumentHolds(strict, utf8, js, t);
    r := ParseInput(strict, utf8, js, count0);
    ghost var root :| Wf(root) && IsDatum(utf8, root) && r.toks == Flat(root) + [TERMINATOR];
    SamePrefix(Flat(t), root, |r.toks| - 1);
    FlatUnique(t, root, |r.toks| - 1);
  }

  lemma SamePrefix(toks: seq<Tok>, root: Tree, n: nat)
    requires n <= |toks| && n == |Flat(root)| && (Flat(root) + [TERMINATOR])[..n] == toks[..n]
    ensures toks[..n] == Flat(root)
  {
  }

  lemma FlatUnique(t: Tree, root: Tree, n: nat)
    requires Wf(t) && Wf(root) && n <= |Flat(t)| && Flat(t)[..n] == Flat(root)
    ensures t == root
  {
    var toks := Flat(t);
    assert toks[0..0 + |toks|] == toks && toks[0..0 + n] == toks[..n];
    hide Flat, Wf, Build;
    FlatIsBuilt(toks, 0, |toks|, t);
    FlatIsBuilt(toks, 0, |toks|, root);
  }

  lemma DocumentHolds(strict: bool, utf8: Utf8, js: string, t: Tree)
    requires Document(strict, js, t) && Utf8Strings(utf8, t)
    ensures Wf(t) && Run(strict, |js|, js, INIT) == Advance(Parser(|js|, Flat(t), -1))
    ensures Flat(t)[0].end != -1 && Holds(utf8, Flat(t), 0, |Flat(t)|, false)
  {
    hide Run, Build, Spelled, Wf, IsDatum;
    SpelledIsDatum(strict, utf8, js, t, false);
    FlatClosed(strict, js, t, false);
    var room := |js| + |Flat(t)|;
    DocumentIsTokenized(strict, room, js, t);
    AnyRoom(strict, js, INIT);
    assert Run(strict, |js|, js, INIT) == Run(strict, room, js, INIT);
    var toks := Flat(t);
    assert toks[0..0 + |toks|] == toks;
    FlatIsBuilt(toks, 0, |toks|, t);
  }
}
