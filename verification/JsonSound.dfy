/** The tokenizer of external/jsmn/jsmn.h on texts of every kind: JSON texts that are cut off, and what
    tokens tell of any text that is not rejected. */
module JsonSound {
  import opened Wrappers
  import opened JsonTree
  import opened Jsmn
  import opened JsonInput
  import opened JsonText

  // ---- Texts that are cut off ----

  lemma {:induction false} SkipPrefix(js: string, k: nat, p: nat)
    requires p <= k <= |js|
    ensures SkipBlanks(js[..k], p) == if SkipBlanks(js, p) < k then SkipBlanks(js, p) else k
    decreases k - p
  {
    if p < k { SkipPrefix(js, k, p + 1); }
  }

  /** A JSON text cut off before its end is incomplete, wherever that is: inside a string, an escape,
      a word or between tokens.  Only a lone word looks complete without JSMN_STRICT. */
  lemma PrefixIncomplete(strict: bool, js: string, t: Tree, k: nat)
    requires Document(strict, js, t) && k < Hi(t) && (strict || t.tok.kind != Primitive)
    ensures k <= |js| && var run := Run(strict, k, js[..k], INIT);
      !RootClosed(run.s) && if k <= Lo(t) then run.Advance? else run.Fail? && run.error == Part
  {
    hide Run, Spelled, Step;
    SpelledBounds(strict, js, t, false);
    var pre, lo, room := js[..k], Lo(t), |js| + |Flat(t)|;
    AnyRoom(strict, pre, INIT);
    assert Run(strict, k, pre, INIT) == Run(strict, room, pre, INIT);
    RunBlanks(strict, room, pre, INIT);
    SkipPrefix(js, k, 0);
    if k <= lo {
      NothingRead(strict, room, pre, k);
    } else if IsContainer(t.tok) {
      CutInBrackets(strict, room, js, t, k);
    } else {
      CutInLeaf(strict, room, js, t, k);
    }
  }

  lemma NothingRead(strict: bool, cap: nat, js: string, k: nat)
    requires k == |js|
    ensures Run(strict, cap, js, Parser(k, [], -1)) == Advance(Parser(k, [], -1))
  {
  }

  lemma CutInBrackets(strict: bool, cap: nat, js: string, t: Tree, k: nat)
    requires Document(strict, js, t) && IsContainer(t.tok) && 0 <= Lo(t) < k < Hi(t) <= |js| && |js| + |Flat(t)| <= cap
    ensures var run := Run(strict, cap, js[..k], Parser(Lo(t), [], -1));
      !RootClosed(run.s) && run.Fail? && run.error == Part
  {
    hide Run, Step, SpelledKids, LastOpen;
    var s := Parser(Lo(t), [], -1);
    var s1 := Parser(Lo(t) + 1, [Tok(t.tok.kind, Lo(t), -1, 0)], 0);
    assert Counted([], -1) + s1.toks == s1.toks;
    StepOpen(strict, cap, js, s, t.tok.kind);
    StepOpen(strict, cap, js[..k], s, t.tok.kind);
    RunStep(strict, cap, js, s, s1);
    RunStep(strict, cap, js[..k], s, s1);
    RunBlanks(strict, cap, js, INIT);
    DocumentIsTokenized(strict, cap, js, t);
    EnoughRoom(strict, cap, js[..k], s1);
    RunPrefix(strict, cap, js, k, s1);
    AdvanceMeansClosed(strict, cap, js[..k], s1);
    RootStays(strict, cap, js[..k], s1);
  }

  /** The first token stays where it starts. */
  lemma {:induction false} RootStays(strict: bool, cap: nat, js: string, s: Parser)
    requires Sane(s) && s.toks != []
    ensures var r := Run(strict, cap, js, s); r.s.toks != [] && r.s.toks[0].start == s.toks[0].start
    decreases |js| - s.pos
  {
    hide Step, LastOpen;
    if Here(js, s.pos) {
      RootStaysPut(strict, cap, js, s);
      var r := Step(strict, cap, js, s);
      if r.Advance? { RootStays(strict, cap, js, r.s); }
    }
  }

  lemma RootStaysPut(strict: bool, cap: nat, js: string, s: Parser)
    requires Sane(s) && Here(js, s.pos) && s.toks != []
    ensures var r := Step(strict, cap, js, s); r.s.toks != [] && r.s.toks[0].start == s.toks[0].start
  {
    hide ScanString, ScanPrimitive, LastOpen, LastOpenContainer;
  }

  lemma CutInLeaf(strict: bool, cap: nat, js: string, t: Tree, k: nat)
    requires Spelled(strict, js, t, false) && !IsContainer(t.tok) && 0 <= Lo(t) < k < Hi(t) <= |js|
    requires strict || t.tok.kind != Primitive
    ensures Run(strict, cap, js[..k], Parser(Lo(t), [], -1)) == Fail(Part, Parser(Lo(t), [], -1))
  {
    var pre, s := js[..k], Parser(Lo(t), [], -1);
    assert Here(pre, s.pos) && pre[s.pos] == js[s.pos];
    if t.tok.kind == String {
      StringIsScanned(js, t.tok.start, t.tok.end);
      StringPrefix(js, k, t.tok.start);
    } else {
      WordIsScanned(strict, js, t.tok.start, t.tok.start, t.tok.end);
      WordPrefix(strict, js, k, t.tok.start);
    }
    hide ScanString, ScanPrimitive, StringText;
    assert Step(strict, cap, pre, s) == Fail(Part, s);
    hide Step;
  }

  /** json_parse_input on a JSON text that has not been read whole. */
  method ParseCutOff(strict: bool, utf8: Utf8, js: string, k: nat, count0: nat, ghost t: Tree) returns (r: Parsed)
    requires count0 >= 2 && Document(strict, js, t) && k < Hi(t) && (strict || t.tok.kind != Primitive)
    ensures r.Incomplete?
  {
    hide Run, Document, Hi;
    PrefixIncomplete(strict, js, t, k);
    r := ParseInput(strict, utf8, js[..k], count0);
  }

  // ---- What tokens mark ----

  /** The text that a token marks is one of its kind: brackets that match, quotes with a whole string
      between them, or a whole word; only brackets may still be open. */
  ghost predicate Marks(strict: bool, js: string, tok: Tok) {
    && 0 <= tok.start < |js|
    && match tok.kind
       case Array => js[tok.start] == '[' && (tok.end == -1 || Bracketed(js, tok, '[', ']'))
       case Object => js[tok.start] == '{' && (tok.end == -1 || Bracketed(js, tok, '{', '}'))
       case String =>
         && 1 <= tok.start <= tok.end < |js| && js[tok.start - 1] == '"' && StringText(js, tok.start, tok.end)
       case Primitive => tok.start < tok.end <= |js| && AnyWord(strict, js, tok.start, tok.end)
       case Undefined => false
       case Other => false
  }

  /** A word; without JSMN_STRICT it may start with anything that starts nothing else. */
  ghost predicate AnyWord(strict: bool, js: string, a: nat, b: nat)
    requires a < b <= |js|
  {
    && (strict ==> WordStart(js[a]))
    && js[a] !in {'{', '[', '}', ']', '"', ':', ',', '\t', '\r', '\n', ' '}
    && (forall i :: a <= i < b ==> !WordEnd(strict, js[i]) && 32 <= js[i] as int < 127)
    && if b == |js| then !strict else WordEnd(strict, js[b]) || (!strict && js[b] == '\0')
  }

  ghost predicate AllMark(strict: bool, js: string, s: Parser) {
    forall i :: 0 <= i < |s.toks| ==> Marks(strict, js, s.toks[i]) && s.toks[i].start < s.pos
  }

  lemma {:induction false} ScannedIsString(js: string, a: nat)
    requires ScanString(js, a).Found?
    ensures ScanString(js, a).end < |js| && StringText(js, a, ScanString(js, a).end)
    decreases |js| - a
  {
    if js[a] != '"' {
      if js[a] != '\\' || a + 1 >= |js| { ScannedIsString(js, a + 1); }
      else if js[a + 1] == 'u' {
        ScannedIsString(js, ScanHex(js, a + 2, 4).value);
        ScannedHex(js, a + 2);
      } else { ScannedIsString(js, a + 2); }
    }
  }

  lemma ScannedHex(js: string, p: nat)
    requires ScanHex(js, p, 4).Some? && Here(js, ScanHex(js, p, 4).value)
    ensures ScanHex(js, p, 4) == Some(p + 4) && p + 4 < |js|
    ensures HexDigit(js[p]) && HexDigit(js[p + 1]) && HexDigit(js[p + 2]) && HexDigit(js[p + 3])
  {
    assert ScanHex(js, p + 4, 0) == Some(p + 4);
    assert Here(js, p) && ScanHex(js, p, 4) == ScanHex(js, p + 1, 3);
    assert Here(js, p + 1) && ScanHex(js, p + 1, 3) == ScanHex(js, p + 2, 2);
    assert Here(js, p + 2) && ScanHex(js, p + 2, 2) == ScanHex(js, p + 3, 1);
  }

  lemma {:induction false} ScannedIsWord(strict: bool, js: string, p: nat)
    requires ScanPrimitive(strict, js, p).Found? && p <= |js|
    ensures var e := ScanPrimitive(strict, js, p).end;
      && p <= e <= |js|
      && (forall i :: p <= i < e ==> !WordEnd(strict, js[i]) && 32 <= js[i] as int < 127)
      && if e == |js| then !strict else WordEnd(strict, js[e]) || (!strict && js[e] == '\0')
    decreases |js| - p
  {
    if Here(js, p) && !WordEnd(strict, js[p]) { ScannedIsWord(strict, js, p + 1); }
  }

  lemma AppendMarks(strict: bool, js: string, s: Parser, tok: Tok, s': Parser)
    requires Sane(s) && AllMark(strict, js, s) && Marks(strict, js, tok) && s.pos <= s'.pos && tok.start < s'.pos
    requires s'.toks == Counted(s.toks + [tok], s.super)
    ensures AllMark(strict, js, s')
  {
    forall i | 0 <= i < |s'.toks| ensures Marks(strict, js, s'.toks[i]) && s'.toks[i].start < s'.pos {
      var was := (s.toks + [tok])[i];
      assert was == tok || was == s.toks[i];
      SizeUnmarked(strict, js, was, s'.toks[i].size);
      assert s'.toks[i] == was.(size := s'.toks[i].size);
    }
  }

  lemma SizeUnmarked(strict: bool, js: string, tok: Tok, size: nat)
    requires Marks(strict, js, tok)
    ensures Marks(strict, js, tok.(size := size))
  {
  }

  lemma CloseMarks(strict: bool, js: string, s: Parser, i: nat, s': Parser)
    requires AllMark(strict, js, s) && i < |s.toks| && IsOpen(s.toks[i]) && s.pos < |js| && s'.pos == s.pos + 1
    requires IsContainer(s.toks[i]) && js[s.pos] == if s.toks[i].kind == Object then '}' else ']'
    requires s'.toks == s.toks[i := s.toks[i].(end := s.pos + 1)]
    ensures AllMark(strict, js, s')
  {
    assert Marks(strict, js, s.toks[i]);
    assert Marks(strict, js, s'.toks[i]);
    hide Marks;
  }

  lemma MoveOnMarks(strict: bool, js: string, s: Parser, s': Parser)
    requires AllMark(strict, js, s) && s'.toks == s.toks && s.pos <= s'.pos
    ensures AllMark(strict, js, s')
  {
    hide Marks;
  }

  /** What a round appends, and what it marks. */
  lemma NewMarks(strict: bool, cap: nat, js: string, s: Parser) returns (tok: Tok)
    requires Sane(s) && Here(js, s.pos)
    requires Step(strict, cap, js, s).Advance? && |Step(strict, cap, js, s).s.toks| > |s.toks|
    ensures var s' := Step(strict, cap, js, s).s;
      s'.toks == Counted(s.toks + [tok], s.super) && Marks(strict, js, tok) && tok.start < s'.pos
  {
    if ScanString(js, s.pos + 1).Found? { ScannedIsString(js, s.pos + 1); }
    if ScanPrimitive(strict, js, s.pos).Found? {
      ScannedIsWord(strict, js, s.pos);
      PrimitiveAdvances(strict, js, s.pos);
    }
    hide ScanString, ScanPrimitive, StringText, LastOpen, LastOpenContainer;
    var c := js[s.pos];
    tok :=
      if c == '{' then Tok(Object, s.pos, -1, 0)
      else if c == '[' then Tok(Array, s.pos, -1, 0)
      else if c == '"' then Tok(String, s.pos + 1, ScanString(js, s.pos + 1).end, 0)
      else Tok(Primitive, s.pos, ScanPrimitive(strict, js, s.pos).end, 0);
  }

  lemma StepCloseOf(strict: bool, cap: nat, js: string, s: Parser)
    requires Sane(s) && Here(js, s.pos) && (js[s.pos] == '}' || js[s.pos] == ']') && Step(strict, cap, js, s).Advance?
    ensures var i, s' := LastOpen(s.toks, |s.toks|), Step(strict, cap, js, s).s;
      && i >= 0 && s.toks[i].kind == (if js[s.pos] == '}' then Object else Array)
      && s'.pos == s.pos + 1 && s'.toks == s.toks[i := s.toks[i].(end := s.pos + 1)]
  {
    hide LastOpen;
  }

  lemma StepKeepsToks(strict: bool, cap: nat, js: string, s: Parser)
    requires Sane(s) && Here(js, s.pos) && js[s.pos] != '}' && js[s.pos] != ']'
    requires Step(strict, cap, js, s).Advance? && |Step(strict, cap, js, s).s.toks| <= |s.toks|
    ensures Step(strict, cap, js, s).s.toks == s.toks
  {
    hide LastOpenContainer, ScanString, ScanPrimitive;
  }

  /** Every token that a round leaves marks what it says. */
  lemma StepMarks(strict: bool, cap: nat, js: string, s: Parser)
    requires Sane(s) && Here(js, s.pos) && AllMark(strict, js, s)
    ensures Step(strict, cap, js, s).Advance? ==> AllMark(strict, js, Step(strict, cap, js, s).s)
  {
    hide Step, AllMark, Marks, LastOpen;
    var r := Step(strict, cap, js, s);
    if r.Advance? {
      if js[s.pos] == '}' || js[s.pos] == ']' {
        StepCloseOf(strict, cap, js, s);
        CloseMarks(strict, js, s, LastOpen(s.toks, |s.toks|), r.s);
      } else if |r.s.toks| > |s.toks| {
        var tok := NewMarks(strict, cap, js, s);
        AppendMarks(strict, js, s, tok, r.s);
      } else {
        StepKeepsToks(strict, cap, js, s);
        MoveOnMarks(strict, js, s, r.s);
      }
    }
  }

  /** So does a whole run, on any text at all. */
  lemma {:induction false} RunMarks(strict: bool, cap: nat, js: string, s: Parser)
    requires Sane(s) && AllMark(strict, js, s)
    ensures var r := Run(strict, cap, js, s); !Rejected(r) ==> AllMark(strict, js, r.s)
    decreases |js| - s.pos
  {
    hide Step, AllMark, LastOpen;
    if Here(js, s.pos) {
      StepMarks(strict, cap, js, s);
      FailKeeps(strict, cap, js, s);
      var r := Step(strict, cap, js, s);
      if r.Advance? { RunMarks(strict, cap, js, r.s); }
    }
  }

  // ---- Nothing is skipped ----

  /** The character at p belongs to the token. */
  predicate Covers(tok: Tok, p: nat) {
    match tok.kind
    case Array => p == tok.start || p == tok.end - 1
    case Object => p == tok.start || p == tok.end - 1
    case String => tok.start - 1 <= p <= tok.end
    case Primitive => tok.start <= p < tok.end
    case Undefined => false
    case Other => false
  }

  /** A character is white space, a colon, a comma, or part of a token. */
  ghost predicate Accounted(js: string, toks: seq<Tok>, p: nat)
    requires p < |js|
  {
    IsBlank(js[p]) || js[p] == ':' || js[p] == ',' || exists i :: 0 <= i < |toks| && Covers(toks[i], p)
  }

  ghost predicate AllAccounted(js: string, s: Parser) {
    forall p: nat :: p < s.pos && p < |js| ==> Accounted(js, s.toks, p)
  }

  lemma CountedCovers(toks: seq<Tok>, super: int, i: nat, p: nat)
    requires -1 <= super < |toks| && i < |toks|
    ensures Covers(Counted(toks, super)[i], p) <==> Covers(toks[i], p)
  {
  }

  lemma AppendAccounts(js: string, s: Parser, tok: Tok, s': Parser)
    requires Sane(s) && AllAccounted(js, s) && s'.toks == Counted(s.toks + [tok], s.super)
    requires forall p: nat :: s.pos <= p < s'.pos && p < |js| ==> Covers(tok, p)
    ensures AllAccounted(js, s')
  {
    hide Covers;
    var n := |s.toks|;
    forall p: nat | p < s'.pos && p < |js| ensures Accounted(js, s'.toks, p) {
      if p >= s.pos {
        CountedCovers(s.toks + [tok], s.super, n, p);
        assert Covers(s'.toks[n], p);
      } else {
        assert Accounted(js, s.toks, p);
        if i :| 0 <= i < n && Covers(s.toks[i], p) {
          CountedCovers(s.toks + [tok], s.super, i, p);
          assert Covers(s'.toks[i], p);
        }
      }
    }
  }

  lemma CloseAccounts(js: string, s: Parser, o: nat, s': Parser)
    requires AllAccounted(js, s) && o < |s.toks| && IsOpen(s.toks[o]) && IsContainer(s.toks[o])
    requires s'.pos == s.pos + 1 && s'.toks == s.toks[o := s.toks[o].(end := s.pos + 1)]
    ensures AllAccounted(js, s')
  {
    forall p: nat | p < s'.pos && p < |js| ensures Accounted(js, s'.toks, p) {
      if p == s.pos {
        assert Covers(s'.toks[o], p);
      } else {
        assert Accounted(js, s.toks, p);
        if i :| 0 <= i < |s.toks| && Covers(s.toks[i], p) { assert Covers(s'.toks[i], p); }
      }
    }
  }

  lemma MoveOnAccounts(js: string, s: Parser, s': Parser)
    requires AllAccounted(js, s) && s'.toks == s.toks && s'.pos == s.pos + 1 && s.pos < |js|
    requires IsBlank(js[s.pos]) || js[s.pos] == ':' || js[s.pos] == ','
    ensures AllAccounted(js, s')
  {
    hide Covers;
  }

  lemma NewCovers(strict: bool, cap: nat, js: string, s: Parser) returns (tok: Tok)
    requires Sane(s) && Here(js, s.pos)
    requires Step(strict, cap, js, s).Advance? && |Step(strict, cap, js, s).s.toks| > |s.toks|
    ensures var s' := Step(strict, cap, js, s).s;
      s'.toks == Counted(s.toks + [tok], s.super) && forall p: nat :: s.pos <= p < s'.pos ==> Covers(tok, p)
  {
    hide ScanString, ScanPrimitive, LastOpen, LastOpenContainer;
    var c := js[s.pos];
    tok :=
      if c == '{' then Tok(Object, s.pos, -1, 0)
      else if c == '[' then Tok(Array, s.pos, -1, 0)
      else if c == '"' then Tok(String, s.pos + 1, ScanString(js, s.pos + 1).end, 0)
      else Tok(Primitive, s.pos, ScanPrimitive(strict, js, s.pos).end, 0);
  }

  lemma StepMovesOn(strict: bool, cap: nat, js: string, s: Parser)
    requires Sane(s) && Here(js, s.pos) && js[s.pos] != '}' && js[s.pos] != ']'
    requires Step(strict, cap, js, s).Advance? && |Step(strict, cap, js, s).s.toks| <= |s.toks|
    ensures Step(strict, cap, js, s).s.pos == s.pos + 1
    ensures IsBlank(js[s.pos]) || js[s.pos] == ':' || js[s.pos] == ','
  {
    hide LastOpenContainer, ScanString, ScanPrimitive;
  }

  lemma StepAccounts(strict: bool, cap: nat, js: string, s: Parser)
    requires Sane(s) && Here(js, s.pos) && AllMark(strict, js, s) && AllAccounted(js, s)
    ensures Step(strict, cap, js, s).Advance? ==> AllAccounted(js, Step(strict, cap, js, s).s)
  {
    hide Step, AllAccounted, Covers, LastOpen;
    var r := Step(strict, cap, js, s);
    if r.Advance? {
      if js[s.pos] == '}' || js[s.pos] == ']' {
        StepCloseOf(strict, cap, js, s);
        CloseAccounts(js, s, LastOpen(s.toks, |s.toks|), r.s);
      } else if |r.s.toks| > |s.toks| {
        var tok := NewCovers(strict, cap, js, s);
        AppendAccounts(js, s, tok, r.s);
      } else {
        StepMovesOn(strict, cap, js, s);
        StepKeepsToks(strict, cap, js, s);
        MoveOnAccounts(js, s, r.s);
      }
    }
  }

  /** Whatever is not rejected is accounted for, character by character: no stray character or
      bracket is passed over, on any text at all. */
  lemma {:induction false} RunAccounts(strict: bool, cap: nat, js: string, s: Parser)
    requires Sane(s) && AllMark(strict, js, s) && AllAccounted(js, s)
    ensures var r := Run(strict, cap, js, s); !Rejected(r) ==> AllAccounted(js, r.s)
    decreases |js| - s.pos
  {
    hide Step, AllMark, AllAccounted, LastOpen;
    if Here(js, s.pos) {
      StepMarks(strict, cap, js, s);
      StepAccounts(strict, cap, js, s);
      FailKeeps(strict, cap, js, s);
      var r := Step(strict, cap, js, s);
      if r.Advance? { RunAccounts(strict, cap, js, r.s); }
    }
  }
}
