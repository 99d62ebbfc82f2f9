/** json_parse_input of common/json.c: the tokenizer called on what has been read so far, again with
    more room or more text until a message is there. */
module JsonInput {
  import opened Wrappers
  import opened JsonTree
  import opened Jsmn

  /** The token put behind the last, with type -1. */
  const TERMINATOR: Tok := Tok(Other, 0, 0, 0)

  datatype Parsed = Invalid | Incomplete(s: Parser) | Complete(toks: seq<Tok>)

  /** The tokens from p up to end are complete JSON data one after another. */
  ghost predicate AllData(utf8: Utf8, toks: seq<Tok>, p: nat, end: nat)
    requires p <= end <= |toks|
    decreases end - p
  {
    p == end || (Holds(utf8, toks, p, end, false) && AllData(utf8, toks, Build(toks, p, end).value.next, end))
  }

  /** validate_jsmn_parse_output. */
  method ValidateOutput(utf8: Utf8, toks: seq<Tok>, end: nat) returns (valid: bool)
    requires end <= |toks|
    ensures valid <==> AllData(utf8, toks, 0, end)
  {
    hide Build;
    var p: nat := 0;
    valid := true;
    while p < end && valid
      invariant valid ==> p <= end && (AllData(utf8, toks, 0, end) <==> AllData(utf8, toks, p, end))
      invariant !valid ==> !AllData(utf8, toks, 0, end)
      decreases valid, end - p
    {
      ghost var q := p;
      valid, p := ValidateDatum(utf8, toks, p, end);
      if valid { BuiltBounds(utf8, toks, q, end, false); }
    }
  }

  /** One complete tree up to end is data exactly when it is a datum. */
  lemma OneDatum(utf8: Utf8, toks: seq<Tok>, end: nat)
    requires 0 < end <= |toks| && Build(toks, 0, end).Some? && Build(toks, 0, end).value.next == end
    ensures AllData(utf8, toks, 0, end) <==> Holds(utf8, toks, 0, end, false)
  {
    assert AllData(utf8, toks, end, end);
    hide Build;
  }

  ghost predicate Rejected(run: Outcome) {
    run.Fail? && run.error == Inval
  }

  /** The first token is there and closed. */
  ghost predicate RootClosed(s: Parser) {
    s.toks != [] && s.toks[0].end != -1
  }

  /** What json_parse_input says of a run over all that has been read: complete exactly when the
      tokens start with one valid JSON datum that is closed, and then that datum's tokens with a
      terminator behind them. */
  ghost predicate Answers(r: Parsed, utf8: Utf8, run: Outcome) {
    && (r.Incomplete? <==> !Rejected(run) && !RootClosed(run.s))
    && (r.Complete? <==> !Rejected(run) && RootClosed(run.s) && Holds(utf8, run.s.toks, 0, |run.s.toks|, false))
    && (r.Incomplete? ==> r.s == run.s)
    && (r.Complete? ==>
          && 0 < |r.toks| <= |run.s.toks| + 1 && r.toks[..|r.toks| - 1] == run.s.toks[..|r.toks| - 1]
          && exists root :: Wf(root) && IsDatum(utf8, root) && r.toks == Flat(root) + [TERMINATOR])
  }

  /** The parser stands where running over js from the start leads past. */
  ghost predicate Underway(strict: bool, js: string, s: Parser) {
    && Sane(s) && |s.toks| <= |js|
    && forall room: nat :: room >= 2 * |js| ==> Run(strict, room, js, s) == Run(strict, room, js, INIT)
  }

  /** json_parse_input with a parser that is underway. */
  method ParseMore(parser: Tokenizer, strict: bool, utf8: Utf8, js: string, count0: nat) returns (r: Parsed)
    requires count0 >= 2 && Underway(strict, js, parser.State())
    modifies parser
    ensures var run := Run(strict, |js|, js, INIT);
      Answers(r, utf8, run) && parser.State() == run.s
  {
    hide Run, Build, Holds, AllData, Underway;
    WholeRun(strict, js, parser.State());
    var out, count := ParseGrowing(parser, strict, js, count0);
    assert out == Run(strict, 2 * |js|, js, INIT) == Run(strict, |js|, js, INIT);
    ghost var ts := FreshShaped(strict, js);
    if out.Fail? && out.error == Inval { return Invalid; }
    if out.s.toks == [] || out.s.toks[0].end == -1 { return Incomplete(out.s); }
    ShapedIsBuilt(out.s, ts);
    var ret := Next(out.s.toks, 0, |out.s.toks|);
    CutAtNext(utf8, out.s.toks, |out.s.toks|);
    OneDatum(utf8, out.s.toks, ret);
    var valid := ValidateOutput(utf8, out.s.toks, ret);
    if !valid { return Invalid; }
    CompleteTree(utf8, out.s.toks, ret);
    return Complete(out.s.toks[..ret] + [TERMINATOR]);
  }

  lemma WholeRun(strict: bool, js: string, s: Parser)
    requires Underway(strict, js, s)
    ensures Sane(s) && |s.toks| + |js| <= 2 * |js|
    ensures Run(strict, 2 * |js|, js, s) == Run(strict, 2 * |js|, js, INIT) == Run(strict, |js|, js, INIT)
  {
    hide Run;
    AnyRoom(strict, js, INIT);
  }

  /** ...and with a fresh one. */
  method ParseInput(strict: bool, utf8: Utf8, js: string, count0: nat) returns (r: Parsed)
    requires count0 >= 2
    ensures Answers(r, utf8, Run(strict, |js|, js, INIT))
  {
    hide Run, Answers;
    var parser := new Tokenizer();
    r := ParseMore(parser, strict, utf8, js, count0);
  }

  lemma FreshShaped(strict: bool, js: string) returns (ts: seq<Shape>)
    ensures var r := Run(strict, |js|, js, INIT); !(r.Fail? && r.error == Inval) ==> Shaped(r.s, ts)
  {
    assert Shaped(INIT, []) by { assert SizesOf([]) == Sizes([]); }
    hide Shaped, Run;
    ts := RunShaped(strict, |js|, js, INIT, []);
  }

  /** A tree ends where it ends, however much may follow. */
  lemma CutAtNext(utf8: Utf8, toks: seq<Tok>, end: nat)
    requires 0 < end <= |toks| && Build(toks, 0, end).Some?
    ensures var q := Build(toks, 0, end).value.next;
      && 0 < q <= end && Build(toks, 0, q) == Build(toks, 0, end)
      && (Holds(utf8, toks, 0, q, false) <==> Holds(utf8, toks, 0, end, false))
  {
    BuildIsFlat(toks, 0, end);
    var b := Build(toks, 0, end).value;
    hide Build;
    FlatIsBuilt(toks, 0, b.next, b.value);
  }

  lemma CompleteTree(utf8: Utf8, toks: seq<Tok>, q: nat)
    requires 0 < q <= |toks| && Holds(utf8, toks, 0, q, false) && Build(toks, 0, q).Some?
    requires Build(toks, 0, q).value.next == q
    ensures exists root :: Wf(root) && IsDatum(utf8, root) && toks[..q] == Flat(root)
  {
    BuildIsFlat(toks, 0, q);
    var root := Build(toks, 0, q).value.value;
    assert toks[0..q] == toks[..q];
    assert Wf(root) && IsDatum(utf8, root) && toks[..q] == Flat(root);
  }

  // ---- Texts that are cut off ----

  /** Scanning what is read so far finds what scanning all would find, or comes to the end. */
  lemma {:induction false} HexPrefix(js: string, k: nat, p: nat, n: nat)
    requires p <= k <= |js|
    ensures var h, h' := ScanHex(js, p, n), ScanHex(js[..k], p, n); h' == h || h' == Some(k)
    ensures ScanHex(js[..k], p, n).Some? ==> ScanHex(js[..k], p, n).value <= k
    decreases n
  {
    if n > 0 && p < k { HexPrefix(js, k, p + 1, n - 1); }
  }

  lemma {:induction false} StringPrefix(js: string, k: nat, p: nat)
    requires p <= k <= |js|
    ensures var e, e' := ScanString(js, p), ScanString(js[..k], p); e' == e || e' == ScanFails(Part)
    ensures ScanString(js[..k], p).Found? ==> ScanString(js[..k], p).end < k
    decreases k - p
  {
    var pre := js[..k];
    if Here(pre, p) && pre[p] != '"' {
      if pre[p] == '\\' && p + 1 < k {
        if pre[p + 1] == 'u' {
          HexPrefix(js, k, p + 2, 4);
          var h := ScanHex(pre, p + 2, 4);
          if h.Some? { StringPrefix(js, k, h.value); }
        } else if pre[p + 1] in {'"', '/', '\\', 'b', 'f', 'r', 'n', 't'} {
          StringPrefix(js, k, p + 2);
        }
      } else {
        StringPrefix(js, k, p + 1);
      }
    }
  }

  lemma {:induction false} WordPrefix(strict: bool, js: string, k: nat, p: nat)
    requires p <= k <= |js|
    ensures var e, e' := ScanPrimitive(strict, js, p), ScanPrimitive(strict, js[..k], p);
      e' == e || e' == if strict then ScanFails(Part) else Found(k)
    ensures ScanPrimitive(strict, js[..k], p).Found? ==>
      ScanPrimitive(strict, js[..k], p).end <= k && (strict ==> ScanPrimitive(strict, js[..k], p).end < k)
    decreases k - p
  {
    if p < k { WordPrefix(strict, js, k, p + 1); }
  }

  /** A token that ends with what is read so far, where a word may go on. */
  ghost predicate Truncated(s: Parser, s': Parser, k: nat)
    requires Sane(s)
  {
    s' == Parser(k, Counted(s.toks + [Tok(Primitive, s.pos, k, 0)], s.super), s.super)
  }

  /** A round does the same on what is read so far, or does nothing for want of more; without
      JSMN_STRICT it may also take a word for ended. */
  lemma StepPrefix(strict: bool, cap: nat, js: string, k: nat, s: Parser)
    requires Sane(s) && s.pos < k <= |js| && Here(js[..k], s.pos)
    ensures Here(js, s.pos)
    ensures var r, r' := Step(strict, cap, js, s), Step(strict, cap, js[..k], s);
      && (|| r' == r || r' == Fail(Part, s)
          || (!strict && (r' == Fail(NoMem, s) || (r'.Advance? && Truncated(s, r'.s, k)))))
      && (r'.Advance? ==> r'.s.pos <= k)
  {
    StringPrefix(js, k, s.pos + 1);
    WordPrefix(strict, js, k, s.pos);
    hide ScanString, ScanPrimitive, LastOpen, LastOpenContainer, Counted;
  }

  /** Under JSMN_STRICT, going on with more text is as good as starting over with it. */
  lemma {:induction false} Continue(cap: nat, js: string, k: nat, s: Parser)
    requires Sane(s) && s.pos <= k <= |js|
    requires var r := Run(true, cap, js[..k], s); r.Fail? ==> r.error == Part
    ensures Run(true, cap, js, Run(true, cap, js[..k], s).s) == Run(true, cap, js, s)
    decreases k - s.pos
  {
    hide Step, LastOpen;
    if Here(js[..k], s.pos) {
      StepPrefix(true, cap, js, k, s);
      FailKeeps(true, cap, js[..k], s);
      var r := Step(true, cap, js[..k], s);
      if r.Advance? { Continue(cap, js, k, r.s); }
    }
  }

  /** A closed token keeps its end. */
  lemma StepKeepsClosed(strict: bool, cap: nat, js: string, s: Parser)
    requires Sane(s) && Here(js, s.pos) && RootClosed(s)
    ensures var r := Step(strict, cap, js, s); RootClosed(r.s) && r.s.toks[0].end == s.toks[0].end
  {
    hide ScanString, ScanPrimitive, LastOpenContainer;
  }

  lemma {:induction false} RunKeepsClosed(strict: bool, cap: nat, js: string, s: Parser)
    requires Sane(s) && RootClosed(s)
    ensures var r := Run(strict, cap, js, s); RootClosed(r.s) && r.s.toks[0].end == s.toks[0].end
    decreases |js| - s.pos
  {
    hide Step, LastOpen;
    if Here(js, s.pos) {
      StepKeepsClosed(strict, cap, js, s);
      var r := Step(strict, cap, js, s);
      if r.Advance? { RunKeepsClosed(strict, cap, js, r.s); }
    }
  }

  /** A round that closes the first token does so at the place it has come to. */
  lemma StepCloses(strict: bool, cap: nat, js: string, s: Parser)
    requires Sane(s) && Here(js, s.pos) && s.toks != [] && s.toks[0].end == -1
    ensures var r := Step(strict, cap, js, s);
      r.s.toks != [] && (r.s.toks[0].end == -1 || (r.Advance? && r.s.toks[0].end == r.s.pos))
  {
    hide ScanString, ScanPrimitive, LastOpenContainer;
  }

  /** On what is read so far: nothing is rejected that is not rejected in the end, and the first
      token is closed only where it is closed in the end. */
  lemma {:induction false} RunPrefix(strict: bool, cap: nat, js: string, k: nat, s: Parser)
    requires Sane(s) && s.pos <= k <= |js| && s.toks != [] && (s.toks[0].end == -1 || s.toks[0].end <= k)
    requires !RanOut(Run(strict, cap, js[..k], s))
    ensures var r, r' := Run(strict, cap, js, s), Run(strict, cap, js[..k], s);
      && (Rejected(r') ==> Rejected(r))
      && (RootClosed(r'.s) && !Rejected(r') ==> RootClosed(r.s) && r.s.toks[0].end == r'.s.toks[0].end <= k)
    decreases k - s.pos
  {
    hide Step, LastOpen;
    var pre := js[..k];
    if RootClosed(s) {
      RunKeepsClosed(strict, cap, js, s);
      RunKeepsClosed(strict, cap, pre, s);
    }
    if Here(pre, s.pos) {
      StepPrefix(strict, cap, js, k, s);
      FailKeeps(strict, cap, pre, s);
      var r := Step(strict, cap, pre, s);
      if r.Advance? {
        if RootClosed(s) { StepKeepsClosed(strict, cap, pre, s); } else { StepCloses(strict, cap, pre, s); }
        if r == Step(strict, cap, js, s) {
          RunPrefix(strict, cap, js, k, r.s);
        } else {
          TruncatedKeeps(s, r.s, k);
          assert !Here(pre, r.s.pos);
        }
      }
    }
  }

  lemma TruncatedKeeps(s: Parser, s': Parser, k: nat)
    requires Sane(s) && s.toks != [] && Truncated(s, s', k)
    ensures s'.toks != [] && s'.toks[0].end == s.toks[0].end && s'.pos == k
  {
  }

  // ---- Reading in pieces ----

  /** A run takes at most one token for each character it passes. */
  lemma {:induction false} RunAllocates(strict: bool, cap: nat, js: string, s: Parser)
    requires Sane(s) && s.pos <= |js|
    ensures var r := Run(strict, cap, js, s);
      !Rejected(r) ==> |r.s.toks| + s.pos <= |s.toks| + r.s.pos && r.s.pos <= |js|
    decreases |js| - s.pos
  {
    hide Step, LastOpen;
    if Here(js, s.pos) {
      assert js[..|js|] == js;
      StepPrefix(strict, cap, js, |js|, s);
      StepAllocates(strict, cap, js, s);
      FailKeeps(strict, cap, js, s);
      var r := Step(strict, cap, js, s);
      if r.Advance? { RunAllocates(strict, cap, js, r.s); }
    }
  }

  /** After reading k characters without an error, a parser is underway in the whole text. */
  lemma StillUnderway(js: string, k: nat)
    requires k <= |js| && !Rejected(Run(true, k, js[..k], INIT))
    ensures Underway(true, js, Run(true, k, js[..k], INIT).s)
  {
    hide Run;
    var s := Run(true, k, js[..k], INIT).s;
    RunAllocates(true, k, js[..k], INIT);
    forall room: nat | room >= 2 * |js| ensures Run(true, room, js, s) == Run(true, room, js, INIT) {
      AnyRoom(true, js[..k], INIT);
      EnoughRoom(true, room, js[..k], INIT);
      assert Run(true, room, js[..k], INIT) == Run(true, k, js[..k], INIT);
      Continue(room, js, k, INIT);
    }
  }

  /** The callers in plugins/libplugin.c: json_parse_input with the same parser after each read, until
      a message is complete or wrong.  Each answer is that of one call on all read so far. */
  method ReadPieces(utf8: Utf8, js: string, got: seq<nat>, count0: nat) returns (r: Parsed, n: nat)
    requires count0 >= 2 && got != []
    requires forall i, j :: 0 <= i < j < |got| ==> got[i] <= got[j]
    requires forall i :: 0 <= i < |got| ==> got[i] <= |js|
    ensures n < |got| && Answers(r, utf8, Run(true, got[n], js[..got[n]], INIT))
    ensures r.Incomplete? ==> n == |got| - 1
    ensures forall i :: 0 <= i < n ==> var run := Run(true, got[i], js[..got[i]], INIT);
      !Rejected(run) && !RootClosed(run.s)
  {
    hide Run, Holds;
    var parser := new Tokenizer();
    n := 0;
    FreshUnderway(js[..got[0]]);
    while true
      invariant n < |got| && Underway(true, js[..got[n]], parser.State())
      invariant forall i :: 0 <= i < n ==> var run := Run(true, got[i], js[..got[i]], INIT);
        !Rejected(run) && !RootClosed(run.s)
      decreases |got| - n
    {
      r := ParseMore(parser, true, utf8, js[..got[n]], count0);
      if !r.Incomplete? || n == |got| - 1 { return; }
      assert js[..got[n + 1]][..got[n]] == js[..got[n]];
      StillUnderway(js[..got[n + 1]], got[n]);
      n := n + 1;
    }
  }

  lemma FreshUnderway(js: string)
    ensures Underway(true, js, INIT)
  {
  }
}
