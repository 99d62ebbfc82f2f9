/** The tokenizer of external/jsmn/jsmn.h, in strict mode and not, as steps over its input, and
    what growing the token array and calling it again does (common/json.c). */
module Jsmn {
  import opened Wrappers
  import opened JsonTree

  /** jsmn_parser with the tokens allocated so far; super is toksuper. */
  datatype Parser = Parser(pos: nat, toks: seq<Tok>, super: int)

  const INIT: Parser := Parser(0, [], -1)

  datatype Error = NoMem | Inval | Part

  predicate Here(js: string, pos: nat) {
    pos < |js| && js[pos] != '\0'
  }

  predicate IsOpen(t: Tok) {
    t.start != -1 && t.end == -1
  }

  /** The last open token before n, or -1. */
  function LastOpen(toks: seq<Tok>, n: nat): (i: int)
    requires n <= |toks|
    ensures -1 <= i < n && (i >= 0 ==> IsOpen(toks[i]))
    ensures forall k :: i < k < n ==> !IsOpen(toks[k])
  {
    if n == 0 then -1 else if IsOpen(toks[n - 1]) then n - 1 else LastOpen(toks, n - 1)
  }

  predicate IsContainer(t: Tok) {
    t.kind == Array || t.kind == Object
  }

  /** The last open array or object, or -1. */
  function LastOpenContainer(toks: seq<Tok>, n: nat): (i: int)
    requires n <= |toks|
    ensures -1 <= i < n && (i >= 0 ==> IsOpen(toks[i]) && IsContainer(toks[i]))
    ensures forall k :: i < k < n ==> !(IsOpen(toks[k]) && IsContainer(toks[k]))
  {
    if n == 0 then -1
    else if IsContainer(toks[n - 1]) && IsOpen(toks[n - 1]) then n - 1
    else LastOpenContainer(toks, n - 1)
  }

  // ---- Scanning strings and primitives ----

  /** Where a scan ends: the position after which the token stops, or an error. */
  datatype Scan = Found(end: nat) | ScanFails(error: Error)

  predicate EndsPrimitive(strict: bool, c: char) {
    c in {'\t', '\r', '\n', ' ', ',', ']', '}'} || (!strict && c == ':')
  }

  /** The loop of jsmn_parse_primitive from pos on. */
  function ScanPrimitive(strict: bool, js: string, pos: nat): (r: Scan)
    ensures r.Found? ==> pos <= r.end
    ensures r.ScanFails? ==> r.error != NoMem
    decreases |js| - pos
  {
    if !Here(js, pos) then if strict then ScanFails(Part) else Found(pos)
    else if EndsPrimitive(strict, js[pos]) then Found(pos)
    else if js[pos] as int < 32 || js[pos] as int >= 127 then ScanFails(Inval)
    else ScanPrimitive(strict, js, pos + 1)
  }

  predicate IsHex(c: char) {
    '0' <= c <= '9' || 'A' <= c <= 'F' || 'a' <= c <= 'f'
  }

  /** Up to n hex digits of an escape: the position after them. */
  function ScanHex(js: string, pos: nat, n: nat): (r: Option<nat>)
    ensures r.Some? ==> r.value >= pos
    decreases n
  {
    if n == 0 || !Here(js, pos) then Some(pos)
    else if !IsHex(js[pos]) then None
    else ScanHex(js, pos + 1, n - 1)
  }

  /** The loop of jsmn_parse_string from pos on: the position of the closing quote. */
  function ScanString(js: string, pos: nat): (r: Scan)
    ensures r.Found? ==> pos <= r.end
    ensures r.ScanFails? ==> r.error != NoMem
    decreases |js| - pos
  {
    if !Here(js, pos) then ScanFails(Part)
    else if js[pos] == '"' then Found(pos)
    else if js[pos] == '\\' && pos + 1 < |js| then
      if js[pos + 1] in {'"', '/', '\\', 'b', 'f', 'r', 'n', 't'} then ScanString(js, pos + 2)
      else if js[pos + 1] == 'u' then
        var h := ScanHex(js, pos + 2, 4);
        if h.None? then ScanFails(Inval) else ScanString(js, h.value)
      else ScanFails(Inval)
    else ScanString(js, pos + 1)
  }

  // ---- One character of jsmn_parse ----

  /** Count a child of the token at super. */
  function Counted(toks: seq<Tok>, super: int): (r: seq<Tok>)
    requires -1 <= super < |toks|
    ensures |r| == |toks|
  {
    if super == -1 then toks else toks[super := toks[super].(size := toks[super].size + 1)]
  }

  datatype Outcome = Advance(s: Parser) | Fail(error: Error, s: Parser)

  predicate Sane(s: Parser) {
    -1 <= s.super < |s.toks|
  }

  predicate StartsPrimitive(strict: bool, c: char) {
    !strict || c in {'-', '0', '1', '2', '3', '4', '5', '6', '7', '8', '9', 't', 'f', 'n'}
  }

  /** In strict mode nothing but a string may be a key, and a key has one value. */
  predicate NoPrimitive(parent: Tok) {
    parent.kind == Object || (parent.kind == String && parent.size != 0)
  }

  /** jsmn_parse_string or jsmn_parse_primitive found a token. */
  function Leaf(cap: nat, s: Parser, kind: Kind, start: nat, end: nat, next: nat): Outcome
    requires Sane(s)
  {
    if |s.toks| >= cap then Fail(NoMem, s)
    else Advance(Parser(next, Counted(s.toks + [Tok(kind, start, end, 0)], s.super), s.super))
  }

  /** One round of jsmn_parse's loop with room for cap tokens. */
  function Step(strict: bool, cap: nat, js: string, s: Parser): (r: Outcome)
    requires Sane(s) && Here(js, s.pos)
    ensures Sane(r.s) && (r.Advance? ==> r.s.pos > s.pos)
  {
    var c := js[s.pos];
    if c == '{' || c == '[' then
      if |s.toks| >= cap then Fail(NoMem, s)
      else if strict && s.super != -1 && s.toks[s.super].kind == Object then
        Fail(Inval, s.(toks := s.toks + [Tok(Undefined, -1, -1, 0)]))
      else
        var toks := Counted(s.toks + [Tok(if c == '{' then Object else Array, s.pos, -1, 0)], s.super);
        Advance(Parser(s.pos + 1, toks, |s.toks|))
    else if c == '}' || c == ']' then
      var i := LastOpen(s.toks, |s.toks|);
      if i == -1 || s.toks[i].kind != (if c == '}' then Object else Array) then Fail(Inval, s)
      else
        var toks := s.toks[i := s.toks[i].(end := s.pos + 1)];
        Advance(Parser(s.pos + 1, toks, LastOpen(toks, i)))
    else if c == '"' then
      var e := ScanString(js, s.pos + 1);
      if e.ScanFails? then Fail(e.error, s) else Leaf(cap, s, String, s.pos + 1, e.end, e.end + 1)
    else if c in {'\t', '\r', '\n', ' '} then Advance(s.(pos := s.pos + 1))
    else if c == ':' then Advance(Parser(s.pos + 1, s.toks, |s.toks| - 1))
    else if c == ',' then
      if s.super != -1 && !IsContainer(s.toks[s.super]) then
        var i := LastOpenContainer(s.toks, |s.toks|);
        Advance(Parser(s.pos + 1, s.toks, if i == -1 then s.super else i))
      else Advance(s.(pos := s.pos + 1))
    else if !StartsPrimitive(strict, c) then Fail(Inval, s)
    else if strict && s.super != -1 && NoPrimitive(s.toks[s.super])
    then Fail(Inval, s)
    else
      var e := ScanPrimitive(strict, js, s.pos);
      if e.ScanFails? then Fail(e.error, s)
      else
        PrimitiveAdvances(strict, js, s.pos);
        Leaf(cap, s, Primitive, s.pos, e.end, e.end)
  }

  /** A primitive has at least one character, since those that end one are dealt with before. */
  lemma PrimitiveAdvances(strict: bool, js: string, pos: nat)
    requires Here(js, pos) && js[pos] !in {'\t', '\r', '\n', ' ', ',', ']', '}', ':'}
    ensures ScanPrimitive(strict, js, pos).Found? ==> ScanPrimitive(strict, js, pos).end > pos
  {
  }

  /** jsmn_parse: the rest of the input from s on. */
  function Run(strict: bool, cap: nat, js: string, s: Parser): (r: Outcome)
    requires Sane(s)
    ensures Sane(r.s)
    decreases |js| - s.pos
  {
    if !Here(js, s.pos) then
      if LastOpen(s.toks, |s.toks|) != -1 then Fail(Part, s) else Advance(s)
    else
      var r := Step(strict, cap, js, s);
      if r.Fail? then r else Run(strict, cap, js, r.s)
  }

  // ---- The parser as an object ----

  /** jsmn_parser and its token array; what the functions above compute, done in place. */
  class Tokenizer {
    var pos: nat
    var toks: seq<Tok>
    var super: int

    function State(): Parser
      reads this
    {
      Parser(pos, toks, super)
    }

    /** jsmn_init. */
    constructor ()
      ensures State() == INIT
    {
      pos, toks, super := 0, [], -1;
    }

    /** jsmn_alloc_token and jsmn_fill_token. */
    method Alloc(cap: nat, tok: Tok) returns (ok: bool)
      modifies this`toks
      ensures ok == (|old(toks)| < cap) && toks == if ok then old(toks) + [tok] else old(toks)
    {
      ok := |toks| < cap;
      if ok { toks := toks + [tok]; }
    }

    /** jsmn_parse_primitive: leaves pos on the last character of the token. */
    method ParsePrimitive(strict: bool, js: string, cap: nat) returns (err: Option<Error>)
      requires Here(js, pos)
      modifies this`pos, this`toks
      ensures var e := ScanPrimitive(strict, js, old(pos));
        if e.ScanFails? then err == Some(e.error) && State() == old(State())
        else if |old(toks)| >= cap then err == Some(NoMem) && State() == old(State())
        else
          && err == None
          && pos == (if e.end == 0 then 0 else e.end - 1) && super == old(super)
          && toks == old(toks) + [Tok(Primitive, old(pos), e.end, 0)]
    {
      var start := pos;
      while Here(js, pos) && !EndsPrimitive(strict, js[pos])
        invariant start <= pos && toks == old(toks)
        invariant ScanPrimitive(strict, js, pos) == ScanPrimitive(strict, js, start)
        decreases |js| - pos
      {
        if js[pos] as int < 32 || js[pos] as int >= 127 {
          pos := start;
          return Some(Inval);
        }
        pos := pos + 1;
      }
      if strict && !Here(js, pos) {
        pos := start;
        return Some(Part);
      }
      var ok := Alloc(cap, Tok(Primitive, start, pos, 0));
      if !ok {
        pos := start;
        return Some(NoMem);
      }
      if pos > 0 { pos := pos - 1; }
      return None;
    }

    /** jsmn_parse_string: leaves pos on the closing quote. */
    method ParseString(js: string, cap: nat) returns (err: Option<Error>)
      requires Here(js, pos)
      modifies this`pos, this`toks
      ensures var e := ScanString(js, old(pos) + 1);
        if e.ScanFails? then err == Some(e.error) && State() == old(State())
        else if |old(toks)| >= cap then err == Some(NoMem) && State() == old(State())
        else err == None && State() == Parser(e.end, old(toks) + [Tok(String, old(pos) + 1, e.end, 0)], super)
    {
      var start := pos;
      pos := pos + 1;
      while Here(js, pos)
        invariant start < pos && toks == old(toks)
        invariant ScanString(js, pos) == ScanString(js, start + 1)
        decreases |js| - pos
      {
        if js[pos] == '"' {
          var ok := Alloc(cap, Tok(String, start + 1, pos, 0));
          if !ok {
            pos := start;
            return Some(NoMem);
          }
          return None;
        }
        if js[pos] == '\\' && pos + 1 < |js| {
          pos := pos + 1;
          if js[pos] == 'u' {
            var h := SkipHex(js, pos + 1);
            if h.None? {
              pos := start;
              return Some(Inval);
            }
            pos := h.value - 1;
          } else if js[pos] !in {'"', '/', '\\', 'b', 'f', 'r', 'n', 't'} {
            pos := start;
            return Some(Inval);
          }
        }
        pos := pos + 1;
      }
      pos := start;
      return Some(Part);
    }

    /** The cases of an opening bracket. */
    method OpenBracket(strict: bool, cap: nat, c: char) returns (err: Option<Error>)
      requires Sane(State()) && (c == '{' || c == '[')
      modifies this`toks, this`super
      ensures if |old(toks)| >= cap then err == Some(NoMem) && State() == old(State())
        else if strict && old(super) != -1 && old(toks)[old(super)].kind == Object then
          err == Some(Inval) && State() == old(State()).(toks := old(toks) + [Tok(Undefined, -1, -1, 0)])
        else
          && err == None && super == |old(toks)|
          && toks == Counted(old(toks) + [Tok(if c == '{' then Object else Array, pos, -1, 0)], old(super))
    {
      var ok := Alloc(cap, Tok(Undefined, -1, -1, 0));
      if !ok { return Some(NoMem); }
      if strict && super != -1 && toks[super].kind == Object { return Some(Inval); }
      var i := |toks| - 1;
      toks := toks[i := Tok(if c == '{' then Object else Array, pos, -1, 0)];
      assert toks == old(toks) + [Tok(if c == '{' then Object else Array, pos, -1, 0)];
      toks := Counted(toks, super);
      super := i;
      return None;
    }

    /** The cases of a closing bracket. */
    method CloseBracket(c: char) returns (err: Option<Error>)
      requires c == '}' || c == ']'
      modifies this`toks, this`super
      ensures var i := LastOpen(old(toks), |old(toks)|);
        if i == -1 || old(toks)[i].kind != (if c == '}' then Object else Array) then
          err == Some(Inval) && State() == old(State())
        else err == None && toks == old(toks)[i := old(toks)[i].(end := pos + 1)] && super == LastOpen(toks, i)
    {
      hide LastOpen;
      var i := FindOpen(toks, |toks|, false);
      if i == -1 || toks[i].kind != (if c == '}' then Object else Array) { return Some(Inval); }
      toks := toks[i := toks[i].(end := pos + 1)];
      super := FindOpen(toks, i, false);
      return None;
    }

    /** The body of jsmn_parse's loop, before pos moves on. */
    method Round(strict: bool, js: string, cap: nat) returns (err: Option<Error>)
      requires Sane(State()) && Here(js, pos)
      modifies this
      ensures Sane(State())
      ensures var r := Step(strict, cap, js, old(State()));
        if r.Advance? then err == None && State().(pos := pos + 1) == r.s else err == Some(r.error) && State() == r.s
    {
      hide LastOpen, LastOpenContainer, ScanString, ScanPrimitive, Counted, IsOpen;
      var c := js[pos];
      err := None;
      if c == '{' || c == '[' {
        err := OpenBracket(strict, cap, c);
      } else if c == '}' || c == ']' {
        err := CloseBracket(c);
      } else if c == '"' {
        err := ParseString(js, cap);
        if err.Some? { return; }
        toks := Counted(toks, super);
      } else if c in {'\t', '\r', '\n', ' '} {
      } else if c == ':' {
        super := |toks| - 1;
      } else if c == ',' {
        if super != -1 && !IsContainer(toks[super]) {
          var i := FindOpen(toks, |toks|, true);
          if i != -1 { super := i; }
        }
      } else {
        if !StartsPrimitive(strict, c) { return Some(Inval); }
        if strict && super != -1 && NoPrimitive(toks[super]) {
          return Some(Inval);
        }
        PrimitiveAdvances(strict, js, pos);
        err := ParsePrimitive(strict, js, cap);
        if err.Some? { return; }
        toks := Counted(toks, super);
      }
    }

    /** jsmn_parse. */
    method Parse(strict: bool, js: string, cap: nat) returns (r: Outcome)
      requires Sane(State())
      modifies this
      ensures r == Run(strict, cap, js, old(State())) && State() == r.s && Sane(State())
    {
      hide Step;
      while Here(js, pos)
        invariant Sane(State()) && Run(strict, cap, js, State()) == Run(strict, cap, js, old(State()))
        decreases |js| - pos
      {
        ghost var s := State();
        var err := Round(strict, js, cap);
        if err.Some? { return Fail(err.value, State()); }
        pos := pos + 1;
      }
      var i := FindOpen(toks, |toks|, false);
      return if i != -1 then Fail(Part, State()) else Advance(State());
    }
  }

  /** The hex digits of an escape. */
  method SkipHex(js: string, pos: nat) returns (r: Option<nat>)
    ensures r == ScanHex(js, pos, 4)
  {
    var i: nat, p: nat := 0, pos;
    while i < 4 && Here(js, p)
      invariant i <= 4 && ScanHex(js, p, 4 - i) == ScanHex(js, pos, 4)
    {
      if !IsHex(js[p]) { return None; }
      i, p := i + 1, p + 1;
    }
    return Some(p);
  }

  /** The searches for an open token, or an open container, below n. */
  method FindOpen(toks: seq<Tok>, n: nat, container: bool) returns (i: int)
    requires n <= |toks|
    ensures i == if container then LastOpenContainer(toks, n) else LastOpen(toks, n)
  {
    i := n - 1;
    while i >= 0
      invariant -1 <= i < n
      invariant container ==> LastOpenContainer(toks, i + 1) == LastOpenContainer(toks, n)
      invariant !container ==> LastOpen(toks, i + 1) == LastOpen(toks, n)
    {
      if IsOpen(toks[i]) && (!container || IsContainer(toks[i])) { return; }
      i := i - 1;
    }
  }

  // ---- Running out of tokens ----

  /** A step with less room does the same, or stops short without having done anything. */
  lemma StepMoreRoom(strict: bool, cap: nat, cap': nat, js: string, s: Parser)
    requires Sane(s) && Here(js, s.pos) && cap <= cap'
    ensures Step(strict, cap, js, s) == Fail(NoMem, s) || Step(strict, cap, js, s) == Step(strict, cap', js, s)
    ensures Step(strict, cap, js, s).Fail? && Step(strict, cap, js, s).error == NoMem ==>
      Step(strict, cap, js, s) == Fail(NoMem, s) && |s.toks| >= cap
  {
    hide LastOpen, LastOpenContainer, ScanString, ScanPrimitive, Counted;
  }

  /** Running out of room and resuming with more is running with more from the start. */
  lemma {:induction false} Resume(strict: bool, cap: nat, cap': nat, js: string, s: Parser)
    requires Sane(s) && cap <= cap'
    ensures var r := Run(strict, cap, js, s);
      Run(strict, cap', js, s) == if r.Fail? && r.error == NoMem then Run(strict, cap', js, r.s) else r
    decreases |js| - s.pos
  {
    hide Step, LastOpen;
    if Here(js, s.pos) {
      StepMoreRoom(strict, cap, cap', js, s);
      var r := Step(strict, cap, js, s);
      if r.Advance? { Resume(strict, cap, cap', js, r.s); }
    }
  }

  /** Each step allocates at most one token, and only a full array stops it for want of room. */
  lemma StepAllocates(strict: bool, cap: nat, js: string, s: Parser)
    requires Sane(s) && Here(js, s.pos)
    ensures var r := Step(strict, cap, js, s);
      && (r.Advance? ==> |r.s.toks| <= |s.toks| + 1)
      && (r.Fail? && r.error == NoMem ==> r.s == s && |s.toks| >= cap)
  {
    hide LastOpen, LastOpenContainer, ScanString, ScanPrimitive;
  }

  lemma {:induction false} NoMemMeansFull(strict: bool, cap: nat, js: string, s: Parser)
    requires Sane(s)
    ensures var r := Run(strict, cap, js, s);
      r.Fail? && r.error == NoMem ==> |r.s.toks| >= cap && |r.s.toks| + s.pos <= |s.toks| + r.s.pos && r.s.pos < |js|
    decreases |js| - s.pos
  {
    hide Step, LastOpen;
    if Here(js, s.pos) {
      StepAllocates(strict, cap, js, s);
      var r := Step(strict, cap, js, s);
      if r.Advance? { NoMemMeansFull(strict, cap, js, r.s); }
    }
  }

  /** The parse loop of json_parse_input: on JSMN_ERROR_NOMEM the array is doubled and the same
      parser called again.  The outcome is that of one call with enough room. */
  method ParseGrowing(parser: Tokenizer, strict: bool, js: string, count0: nat) returns (r: Outcome, count: nat)
    requires Sane(parser.State()) && count0 >= 2
    modifies parser
    ensures !RanOut(r) && r.s == parser.State() && Sane(r.s)
    ensures forall room: nat :: room >= |old(parser.toks)| + |js| ==> r == Run(strict, room, js, old(parser.State()))
  {
    hide Run;
    ghost var s0 := parser.State();
    ghost var enough := |s0.toks| + |js|;
    count := count0;
    while true
      invariant Sane(parser.State()) && count >= 2
      invariant Run(strict, enough, js, s0) == Run(strict, enough, js, parser.State())
      invariant |parser.toks| + s0.pos <= |s0.toks| + parser.pos && (parser.State() == s0 || parser.pos < |js|)
      invariant count <= count0 + 2 * enough + 2
      decreases count0 + 2 * enough + 2 - count
    {
      ghost var s := parser.State();
      r := parser.Parse(strict, js, count - 1);
      NoMemMeansFull(strict, count - 1, js, s);
      if !RanOut(r) {
        EnoughRoom(strict, enough, js, s);
        BothFit(strict, count - 1, enough, js, s);
        AnyRoom(strict, js, s0);
        return;
      }
      Resume(strict, count - 1, enough, js, s);
      count := count * 2;
    }
  }

  lemma AnyRoom(strict: bool, js: string, s: Parser)
    requires Sane(s)
    ensures forall room: nat :: room >= |s.toks| + |js| ==>
      Run(strict, |s.toks| + |js|, js, s) == Run(strict, room, js, s)
  {
    hide Run;
    forall room: nat | room >= |s.toks| + |js| ensures Run(strict, |s.toks| + |js|, js, s) == Run(strict, room, js, s) {
      EnoughRoom(strict, |s.toks| + |js|, js, s);
      EnoughRoom(strict, room, js, s);
      BothFit(strict, |s.toks| + |js|, room, js, s);
    }
  }

  predicate RanOut(r: Outcome) {
    r.Fail? && r.error == NoMem
  }

  /** With a token for every character there is always room. */
  lemma EnoughRoom(strict: bool, cap: nat, js: string, s: Parser)
    requires Sane(s) && (cap + s.pos >= |s.toks| + |js|)
    ensures !RanOut(Run(strict, cap, js, s))
  {
    NoMemMeansFull(strict, cap, js, s);
  }

  lemma BothFit(strict: bool, cap: nat, cap': nat, js: string, s: Parser)
    requires Sane(s) && !RanOut(Run(strict, cap, js, s)) && !RanOut(Run(strict, cap', js, s))
    ensures Run(strict, cap, js, s) == Run(strict, cap', js, s)
  {
    if cap <= cap' { Resume(strict, cap, cap', js, s); } else { Resume(strict, cap', cap, js, s); }
  }

  // ---- The tokens are a forest ----

  /** How many children each tree has, in preorder. */
  datatype Shape = Shape(kids: seq<Shape>)

  ghost function Sizes(ts: seq<Shape>): seq<nat> {
    if ts == [] then [] else [|ts[0].kids|] + Sizes(ts[0].kids) + Sizes(ts[1..])
  }

  ghost function Front(ts: seq<Shape>): seq<Shape>
    requires ts != []
  {
    ts[..|ts| - 1]
  }

  ghost function Back(ts: seq<Shape>): Shape
    requires ts != []
  {
    ts[|ts| - 1]
  }

  lemma {:induction false} SizesConcat(a: seq<Shape>, b: seq<Shape>)
    ensures Sizes(a + b) == Sizes(a) + Sizes(b)
    decreases |a|
  {
    if a == [] {
      assert a + b == b;
    } else {
      assert (a + b)[1..] == a[1..] + b;
      SizesConcat(a[1..], b);
      Associates([|a[0].kids|] + Sizes(a[0].kids), Sizes(a[1..]), Sizes(b));
    }
  }

  lemma Associates(x: seq<nat>, y: seq<nat>, z: seq<nat>)
    ensures x + (y + z) == x + y + z
  {
  }

  lemma SizesSplit(ts: seq<Shape>)
    requires ts != []
    ensures Sizes(ts) == Sizes(Front(ts)) + ([|Back(ts).kids|] + Sizes(Back(ts).kids))
  {
    assert ts == Front(ts) + [Back(ts)];
    SizesConcat(Front(ts), [Back(ts)]);
    assert [Back(ts)][1..] == [];
    assert Sizes([Back(ts)]) == [|Back(ts).kids|] + Sizes(Back(ts).kids) + Sizes([]);
  }

  /** How long the path is that always takes the last tree. */
  ghost function Depth(ts: seq<Shape>): nat
    decreases ts
  {
    if ts == [] then 0 else 1 + Depth(Back(ts).kids)
  }

  /** The preorder number of its d-th node. */
  ghost function PathIndex(ts: seq<Shape>, d: nat): nat
    requires 1 <= d <= Depth(ts)
    decreases ts
  {
    |Sizes(Front(ts))| + if d == 1 then 0 else 1 + PathIndex(Back(ts).kids, d - 1)
  }

  /** A new leaf as the last child of the d-th node of the path. */
  ghost function AddLeaf(ts: seq<Shape>, d: nat): (r: seq<Shape>)
    requires d <= Depth(ts)
    ensures r != []
    decreases ts
  {
    if d == 0 then ts + [Shape([])] else Front(ts) + [Shape(AddLeaf(Back(ts).kids, d - 1))]
  }

  lemma {:induction false} PathIndexBound(ts: seq<Shape>, d: nat)
    requires 1 <= d <= Depth(ts)
    ensures PathIndex(ts, d) < |Sizes(ts)|
    ensures d == Depth(ts) ==> PathIndex(ts, d) == |Sizes(ts)| - 1
    ensures d > 1 ==> PathIndex(ts, d - 1) < PathIndex(ts, d)
    decreases ts
  {
    SizesSplit(ts);
    hide Sizes;
    var kids := Back(ts).kids;
    if d > 1 {
      PathIndexBound(kids, d - 1);
    } else if d == Depth(ts) {
      assert kids == [];
      NoSizes();
    }
  }

  lemma NoSizes()
    ensures Sizes([]) == []
  {
  }

  /** A path by its first node. */
  lemma PathStep(ts: seq<Shape>, j: nat)
    requires 1 <= j <= Depth(ts)
    ensures ts != [] && Depth(ts) == 1 + Depth(Back(ts).kids)
    ensures PathIndex(ts, j) == |Sizes(Front(ts))| + if j == 1 then 0 else 1 + PathIndex(Back(ts).kids, j - 1)
  {
    hide Sizes;
  }

  lemma AddLeafParts(ts: seq<Shape>, d: nat)
    requires d <= Depth(ts)
    ensures var r := AddLeaf(ts, d);
      && r != [] && Depth(r) == 1 + Depth(Back(r).kids)
      && (d == 0 ==> Front(r) == ts && Back(r).kids == [])
      && (d > 0 ==> ts != [] && Front(r) == Front(ts) && Back(r).kids == AddLeaf(Back(ts).kids, d - 1))
  {
  }

  lemma {:induction false} AddLeafDepth(ts: seq<Shape>, d: nat)
    requires d <= Depth(ts)
    ensures Depth(AddLeaf(ts, d)) == d + 1
    ensures forall j :: 1 <= j <= d ==> PathIndex(AddLeaf(ts, d), j) == PathIndex(ts, j)
    ensures PathIndex(AddLeaf(ts, d), d + 1) == |Sizes(ts)|
    decreases ts
  {
    var r := AddLeaf(ts, d);
    AddLeafParts(ts, d);
    if d == 0 {
      assert Depth([]) == 0;
      hide Sizes, AddLeaf, Depth, PathIndex, Front, Back;
      PathStep(r, 1);
    } else {
      PathStep(ts, d);
      hide Sizes, AddLeaf, Depth, PathIndex, Front;
      AddLeafDepth(Back(ts).kids, d - 1);
      SizesSplit(ts);
      PathStep(r, d + 1);
      forall j | 1 <= j <= d ensures PathIndex(r, j) == PathIndex(ts, j) {
        PathStep(r, j);
        PathStep(ts, j);
      }
    }
  }

  ghost function Bumped(s: seq<nat>, i: nat): seq<nat>
    requires i < |s|
  {
    s[i := s[i] + 1]
  }

  /** The sizes after adding a leaf: its parent counts one more, and a zero comes last. */
  lemma {:induction false} AddLeafSizes(ts: seq<Shape>, d: nat)
    requires d <= Depth(ts)
    ensures d == 0 ==> Sizes(AddLeaf(ts, d)) == Sizes(ts) + [0]
    ensures d > 0 ==> PathIndex(ts, d) < |Sizes(ts)|
    ensures d > 0 ==> Sizes(AddLeaf(ts, d)) == Bumped(Sizes(ts), PathIndex(ts, d)) + [0]
    decreases ts
  {
    var r := AddLeaf(ts, d);
    if d == 0 {
      SizesConcat(ts, [Shape([])]);
      assert [Shape([])][1..] == [];
      assert Sizes([Shape([])]) == [0] + Sizes([]) + Sizes([]);
    } else {
      hide Sizes;
      PathIndexBound(ts, d);
      SizesSplit(ts);
      SizesSplit(r);
      var kids := Back(ts).kids;
      assert Front(r) == Front(ts) && Back(r).kids == AddLeaf(kids, d - 1);
      AddLeafSizes(kids, d - 1);
      AddLeafSizesStep(ts, d);
    }
  }

  lemma AddLeafSizesStep(ts: seq<Shape>, d: nat)
    requires 1 <= d <= Depth(ts) && PathIndex(ts, d) < |Sizes(ts)|
    requires var kids, more := Back(ts).kids, AddLeaf(Back(ts).kids, d - 1);
      && Sizes(ts) == Sizes(Front(ts)) + ([|kids|] + Sizes(kids))
      && Sizes(AddLeaf(ts, d)) == Sizes(Front(ts)) + ([|more|] + Sizes(more))
      && (d == 1 ==> Sizes(more) == Sizes(kids) + [0] && |more| == |kids| + 1)
      && (d > 1 ==> |more| == |kids| && PathIndex(kids, d - 1) < |Sizes(kids)|)
      && (d > 1 ==> Sizes(more) == Bumped(Sizes(kids), PathIndex(kids, d - 1)) + [0])
    ensures Sizes(AddLeaf(ts, d)) == Bumped(Sizes(ts), PathIndex(ts, d)) + [0]
  {
    hide Sizes, AddLeaf;
    var x, n, y := Sizes(Front(ts)), |Back(ts).kids|, Sizes(Back(ts).kids);
    if d == 1 {
      assert (x + ([n] + y))[|x| := n + 1] == x + ([n + 1] + y);
    } else {
      var i := PathIndex(Back(ts).kids, d - 1);
      assert (x + ([n] + y))[|x| + 1 + i := y[i] + 1] == x + ([n] + y[i := y[i] + 1]);
    }
  }

  ghost function SizesOf(toks: seq<Tok>): (r: seq<nat>)
    ensures |r| == |toks| && forall i :: 0 <= i < |toks| ==> r[i] == toks[i].size
  {
    seq(|toks|, i requires 0 <= i < |toks| => toks[i].size)
  }

  ghost predicate OnPath(ts: seq<Shape>, i: int) {
    exists d :: 1 <= d <= Depth(ts) && PathIndex(ts, d) == i
  }

  /** The tokens are a forest of shape ts; the current super token and everything still open lie
      on the path to the last token, the open ones not below the super token. */
  ghost predicate Shaped(s: Parser, ts: seq<Shape>) {
    && SizesOf(s.toks) == Sizes(ts)
    && (s.super == -1 || OnPath(ts, s.super))
    && (forall k :: 0 <= k < |s.toks| && IsOpen(s.toks[k]) ==> IsContainer(s.toks[k]) && OnPath(ts, k) && k <= s.super)
  }

  lemma {:induction false} PathMonotone(ts: seq<Shape>, a: nat, b: nat)
    requires 1 <= a < b <= Depth(ts)
    ensures PathIndex(ts, a) < PathIndex(ts, b)
    decreases b
  {
    PathIndexBound(ts, b);
    if a < b - 1 { PathMonotone(ts, a, b - 1); }
  }

  /** The depth of the super token; 0 for none. */
  lemma DepthOf(ts: seq<Shape>, super: int) returns (d: nat)
    requires super == -1 || OnPath(ts, super)
    ensures d <= Depth(ts) && (d == 0 <==> super == -1) && (d > 0 ==> PathIndex(ts, d) == super)
  {
    if super == -1 { d := 0; } else { d :| 1 <= d <= Depth(ts) && PathIndex(ts, d) == super; }
  }

  /** Appending a token under the super token. */
  lemma AppendShaped(s: Parser, ts: seq<Shape>, tok: Tok) returns (ts': seq<Shape>)
    requires Sane(s) && Shaped(s, ts) && tok.size == 0
    ensures SizesOf(Counted(s.toks + [tok], s.super)) == Sizes(ts')
    ensures s.super == -1 || OnPath(ts', s.super)
    ensures OnPath(ts', |s.toks|)
    ensures forall k :: 0 <= k <= s.super && OnPath(ts, k) ==> OnPath(ts', k)
  {
    hide Sizes, AddLeaf, PathIndex, Depth;
    var d := DepthOf(ts, s.super);
    ts' := AddLeaf(ts, d);
    AddLeafDepth(ts, d);
    AddLeafSizes(ts, d);
    CountedSizes(s.toks, tok, s.super);
    assert 1 <= d + 1 <= Depth(ts') && PathIndex(ts', d + 1) == |s.toks|;
    if d > 0 { assert PathIndex(ts', d) == PathIndex(ts, d); }
    forall k | 0 <= k <= s.super && OnPath(ts, k) ensures OnPath(ts', k) {
      var e := DepthOf(ts, k);
      if e > d { PathMonotone(ts, d, e); }
      assert PathIndex(ts', e) == PathIndex(ts, e);
    }
  }

  lemma CountedSizes(toks: seq<Tok>, tok: Tok, super: int)
    requires -1 <= super < |toks| && tok.size == 0
    ensures SizesOf(Counted(toks + [tok], super)) ==
      (if super == -1 then SizesOf(toks) else Bumped(SizesOf(toks), super)) + [0]
  {
  }

  lemma LastOnPath(ts: seq<Shape>)
    requires Sizes(ts) != []
    ensures OnPath(ts, |Sizes(ts)| - 1)
  {
    assert ts != [];
    PathIndexBound(ts, Depth(ts));
  }

  /** Every step keeps the tokens a forest. */
  lemma StepShaped(strict: bool, cap: nat, js: string, s: Parser, ts: seq<Shape>) returns (ts': seq<Shape>)
    requires Sane(s) && Shaped(s, ts) && Here(js, s.pos)
    ensures Step(strict, cap, js, s).Advance? ==> Shaped(Step(strict, cap, js, s).s, ts')
  {
    ts' := ts;
    if Step(strict, cap, js, s).Advance? {
      if |Step(strict, cap, js, s).s.toks| > |s.toks| {
        hide Step, Shaped, Sizes, OnPath;
        var tok := AppendedTok(strict, cap, js, s);
        ts' := AppendShaped(s, ts, tok);
        OpensAfterAppend(s, ts, ts', tok);
        OnlyPosition(Step(strict, cap, js, s).s, s.pos, ts');
      } else {
        OtherShaped(strict, cap, js, s, ts);
      }
    }
  }

  /** Where the parser stands in the text has nothing to do with the shape. */
  lemma OnlyPosition(s: Parser, pos: nat, ts: seq<Shape>)
    requires Shaped(Parser(pos, s.toks, s.super), ts)
    ensures Shaped(s, ts)
  {
    hide OnPath, Sizes;
  }

  lemma OtherShaped(strict: bool, cap: nat, js: string, s: Parser, ts: seq<Shape>)
    requires Sane(s) && Shaped(s, ts) && Here(js, s.pos)
    requires Step(strict, cap, js, s).Advance? && |Step(strict, cap, js, s).s.toks| <= |s.toks|
    ensures Shaped(Step(strict, cap, js, s).s, ts)
  {
    hide ScanString, ScanPrimitive, Sizes, OnPath, LastOpen, LastOpenContainer;
    var c := js[s.pos];
    if c == '}' || c == ']' {
      CloseShaped(s, ts, LastOpen(s.toks, |s.toks|));
    } else if c == ':' {
      if s.toks != [] { LastOnPath(ts); }
    }
  }

  /** What a step appends. */
  lemma AppendedTok(strict: bool, cap: nat, js: string, s: Parser) returns (tok: Tok)
    requires Sane(s) && Here(js, s.pos)
    requires Step(strict, cap, js, s).Advance? && |Step(strict, cap, js, s).s.toks| > |s.toks|
    ensures tok.size == 0 && Step(strict, cap, js, s).s.toks == Counted(s.toks + [tok], s.super)
    ensures Step(strict, cap, js, s).s.super == if IsOpen(tok) then |s.toks| else s.super
    ensures IsOpen(tok) ==> IsContainer(tok)
  {
    hide LastOpen, LastOpenContainer;
    var c := js[s.pos];
    if c == '{' || c == '[' {
      tok := Tok(if c == '{' then Object else Array, s.pos, -1, 0);
    } else if c == '"' {
      tok := Tok(String, s.pos + 1, ScanString(js, s.pos + 1).end, 0);
    } else {
      tok := Tok(Primitive, s.pos, ScanPrimitive(strict, js, s.pos).end, 0);
    }
  }

  lemma OpensAfterAppend(s: Parser, ts: seq<Shape>, ts': seq<Shape>, tok: Tok)
    requires Sane(s) && Shaped(s, ts) && tok.size == 0 && (IsOpen(tok) ==> IsContainer(tok))
    requires SizesOf(Counted(s.toks + [tok], s.super)) == Sizes(ts')
    requires s.super == -1 || OnPath(ts', s.super)
    requires OnPath(ts', |s.toks|)
    requires forall k :: 0 <= k <= s.super && OnPath(ts, k) ==> OnPath(ts', k)
    ensures Shaped(Parser(s.pos, Counted(s.toks + [tok], s.super), if IsOpen(tok) then |s.toks| else s.super), ts')
  {
    hide OnPath, Sizes;
    var toks := Counted(s.toks + [tok], s.super);
    forall k | 0 <= k < |toks| && IsOpen(toks[k])
      ensures IsContainer(toks[k]) && OnPath(ts', k) && k <= if IsOpen(tok) then |s.toks| else s.super
    {
      if k < |s.toks| { assert IsOpen(s.toks[k]); }
    }
  }

  lemma CloseShaped(s: Parser, ts: seq<Shape>, i: int)
    requires Sane(s) && Shaped(s, ts) && i == LastOpen(s.toks, |s.toks|) && i >= 0
    ensures var toks := s.toks[i := s.toks[i].(end := s.pos + 1)];
      Shaped(Parser(s.pos + 1, toks, LastOpen(toks, i)), ts)
  {
    hide OnPath, Sizes;
    var toks := s.toks[i := s.toks[i].(end := s.pos + 1)];
    assert SizesOf(toks) == SizesOf(s.toks);
    var j := LastOpen(toks, i);
    if j >= 0 { assert IsOpen(s.toks[j]); }
    forall k | 0 <= k < |toks| && IsOpen(toks[k]) ensures IsContainer(toks[k]) && OnPath(ts, k) && k <= j {
      assert k != i && IsOpen(s.toks[k]);
    }
  }

  /** So does a whole run, unless the input is found invalid. */
  lemma {:induction false} RunShaped(strict: bool, cap: nat, js: string, s: Parser, ts: seq<Shape>)
      returns (ts': seq<Shape>)
    requires Sane(s) && Shaped(s, ts)
    ensures var r := Run(strict, cap, js, s); !(r.Fail? && r.error == Inval) ==> Shaped(r.s, ts')
    decreases |js| - s.pos
  {
    ts' := ts;
    if Here(js, s.pos) {
      FailKeeps(strict, cap, js, s);
      ts' := StepShaped(strict, cap, js, s, ts);
      hide Step, Shaped;
      var r := Step(strict, cap, js, s);
      if r.Advance? {
        ts' := RunShaped(strict, cap, js, r.s, ts');
      } else {
        ts' := ts;
      }
    }
  }

  lemma FailKeeps(strict: bool, cap: nat, js: string, s: Parser)
    requires Sane(s) && Here(js, s.pos)
    ensures var r := Step(strict, cap, js, s); r.Fail? && r.error != Inval ==> r.s == s
  {
    hide ScanString, ScanPrimitive, LastOpen, LastOpenContainer;
  }

  /** Tokens of the shape of a forest are built as one. */
  lemma {:induction false} ForestIsBuilt(toks: seq<Tok>, p: nat, ts: seq<Shape>)
    requires Written(toks, p, Sizes(ts)) && p <= |toks|
    ensures BuildAll(toks, p, |toks|, |ts|).Some? && BuildAll(toks, p, |toks|, |ts|).value.next == p + |Sizes(ts)|
    decreases ts
  {
    if ts == [] {
      NoSizes();
    } else {
      hide Sizes, Written, Build, BuildAll;
      var a, b := Sizes(ts[0].kids), Sizes(ts[1..]);
      SizesDef(ts);
      Parts(toks, p, |ts[0].kids|, a, b);
      ForestIsBuilt(toks, p + 1, ts[0].kids);
      ForestIsBuilt(toks, p + 1 + |a|, ts[1..]);
      JoinOne(toks, p, |ts[0].kids|, p + 1 + |a|, |ts| - 1);
    }
  }

  /** The sizes z stand at p. */
  ghost predicate Written(toks: seq<Tok>, p: nat, z: seq<nat>) {
    p + |z| <= |toks| && forall i :: 0 <= i < |z| ==> toks[p + i].size == z[i]
  }

  lemma SizesDef(ts: seq<Shape>)
    requires ts != []
    ensures Sizes(ts) == [|ts[0].kids|] + (Sizes(ts[0].kids) + Sizes(ts[1..]))
    ensures |Sizes(ts)| == 1 + |Sizes(ts[0].kids)| + |Sizes(ts[1..])|
  {
    Associates([|ts[0].kids|], Sizes(ts[0].kids), Sizes(ts[1..]));
  }

  lemma JoinOne(toks: seq<Tok>, p: nat, n: nat, m: nat, k: nat)
    requires p < m <= |toks| && toks[p].size == n
    requires BuildAll(toks, p + 1, |toks|, n).Some? && BuildAll(toks, p + 1, |toks|, n).value.next == m
    requires BuildAll(toks, m, |toks|, k).Some?
    ensures BuildAll(toks, p, |toks|, k + 1).Some?
    ensures BuildAll(toks, p, |toks|, k + 1).value.next == BuildAll(toks, m, |toks|, k).value.next
  {
    BuildOne(toks, p, |toks|);
    hide Build;
  }

  lemma Parts(toks: seq<Tok>, p: nat, n: nat, a: seq<nat>, b: seq<nat>)
    requires Written(toks, p, [n] + (a + b))
    ensures p + 1 + |a| + |b| <= |toks| && toks[p].size == n
    ensures Written(toks, p + 1, a) && Written(toks, p + 1 + |a|, b)
  {
    var z := [n] + (a + b);
    assert toks[p + 0].size == z[0];
    forall i | 0 <= i < |a| ensures toks[p + 1 + i].size == a[i] { assert toks[p + (1 + i)].size == z[1 + i]; }
    forall i | 0 <= i < |b| ensures toks[p + 1 + |a| + i].size == b[i] {
      assert toks[p + (1 + |a| + i)].size == z[1 + |a| + i];
    }
  }

  /** On what the parser leaves, json_next stays among the allocated tokens. */
  lemma ShapedIsBuilt(s: Parser, ts: seq<Shape>)
    requires Shaped(s, ts) && s.toks != []
    ensures Build(s.toks, 0, |s.toks|).Some?
  {
    var z := SizesOf(s.toks);
    assert Written(s.toks, 0, z);
    assert ts != [];
    hide Shaped;
    ForestIsBuilt(s.toks, 0, ts);
    FirstOfAll(s.toks, 0, |s.toks|, |ts|);
  }

  // ---- What JSMN_STRICT adds ----

  /** Under JSMN_STRICT a member of an object starts with a string, and a word behind a key is the
      first thing there. */
  lemma StrictParents(cap: nat, js: string, s: Parser) returns (tok: Tok)
    requires Sane(s) && Here(js, s.pos)
    requires Step(true, cap, js, s).Advance? && |Step(true, cap, js, s).s.toks| > |s.toks|
    ensures tok.size == 0 && Step(true, cap, js, s).s.toks == Counted(s.toks + [tok], s.super)
    ensures s.super != -1 && s.toks[s.super].kind == Object ==> tok.kind == String
    ensures s.super != -1 && s.toks[s.super].kind == String && tok.kind == Primitive ==> s.toks[s.super].size == 0
  {
    tok := AppendedTok(true, cap, js, s);
    var toks := Step(true, cap, js, s).s.toks;
    CountedLast(s.toks, tok, s.super);
    hide LastOpen, LastOpenContainer, ScanString, ScanPrimitive;
    var c := js[s.pos];
    assert toks[|s.toks|].kind == tok.kind;
    if c == '"' {
      CountedLast(s.toks, Tok(String, s.pos + 1, ScanString(js, s.pos + 1).end, 0), s.super);
    } else if c != '{' && c != '[' {
      CountedLast(s.toks, Tok(Primitive, s.pos, ScanPrimitive(true, js, s.pos).end, 0), s.super);
    } else {
      CountedLast(s.toks, Tok(if c == '{' then Object else Array, s.pos, -1, 0), s.super);
    }
    hide Counted;
  }

  lemma CountedLast(toks: seq<Tok>, tok: Tok, super: int)
    requires -1 <= super < |toks|
    ensures Counted(toks + [tok], super)[|toks|] == tok
  {
  }

  /** A run that does not fail leaves nothing open. */
  lemma {:induction false} AdvanceMeansClosed(strict: bool, cap: nat, js: string, s: Parser)
    requires Sane(s)
    ensures var r := Run(strict, cap, js, s);
      r.Advance? ==> forall i :: 0 <= i < |r.s.toks| ==> !IsOpen(r.s.toks[i])
    decreases |js| - s.pos
  {
    hide Step;
    if Here(js, s.pos) {
      var r := Step(strict, cap, js, s);
      if r.Advance? { AdvanceMeansClosed(strict, cap, js, r.s); }
    }
  }
}
