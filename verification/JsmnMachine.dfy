/** The tokenizer as a machine with an explicit stack of open containers.
    The parser itself keeps that stack inside its token array. */
module JsmnMachine {
  datatype Kind = Undefined | Object | Array | String | Primitive

  /** An end of -1 marks a container that is still open. */
  datatype Token = Token(kind: Kind, start: int, end: int, size: int)

  const NOMEM := -1
  const INVAL := -2
  const PART := -3

  predicate Container(k: Kind) { k == Object || k == Array }

  predicate Open(t: Token) { t.start != -1 && t.end == -1 }

  // ---------- characters ----------

  /** The text ends at its length or at a NUL character. */
  predicate AtEnd(js: string, p: nat) { p >= |js| || js[p] == '\0' }

  predicate Space(c: char) { c == '\t' || c == '\r' || c == '\n' || c == ' ' }

  /** What may follow a primitive. */
  predicate Delimiter(c: char) { Space(c) || c == ':' || c == ',' || c == ']' || c == '}' }

  predicate Printable(c: char) { 32 <= c as int < 127 }

  predicate HexDigit(c: char) { '0' <= c <= '9' || 'A' <= c <= 'F' || 'a' <= c <= 'f' }

  predicate SimpleEscape(c: char) {
    c == '\"' || c == '/' || c == '\\' || c == 'b' || c == 'f' || c == 'r' || c == 'n' || c == 't'
  }

  datatype Scan = Found(at: nat) | Bad | Unfinished

  /** Up to n hexadecimal digits from p on; fewer only where the text ends. */
  function HexEnd(js: string, p: nat, n: nat): (r: Scan)
    ensures r.Found? ==> p <= r.at && (p <= |js| ==> r.at <= |js|)
    ensures !r.Unfinished?
    decreases n
  {
    if n == 0 || AtEnd(js, p) then Found(p)
    else if HexDigit(js[p]) then HexEnd(js, p + 1, n - 1)
    else Bad
  }

  /** Where the string whose body starts at p has its closing quote. */
  function StringEnd(js: string, p: nat): (r: Scan)
    ensures r.Found? ==> p <= r.at < |js| && js[r.at] == '\"'
    decreases |js| - p
  {
    if AtEnd(js, p) then Unfinished
    else if js[p] == '\"' then Found(p)
    else if js[p] == '\\' && p + 1 < |js| then
      if SimpleEscape(js[p + 1]) then StringEnd(js, p + 2)
      else if js[p + 1] == 'u' then
        var h := HexEnd(js, p + 2, 4);
        if h.Found? then StringEnd(js, h.at) else Bad
      else Bad
    else StringEnd(js, p + 1)
  }

  /** Where the primitive that has reached p ends. */
  function PrimitiveEnd(js: string, p: nat): (r: Scan)
    ensures r.Found? ==> p <= r.at && (p <= |js| ==> r.at <= |js|)
    ensures r.Found? && !AtEnd(js, p) && !Delimiter(js[p]) ==> p < r.at
    ensures !r.Unfinished?
    decreases |js| - p
  {
    if AtEnd(js, p) || Delimiter(js[p]) then Found(p)
    else if Printable(js[p]) then PrimitiveEnd(js, p + 1)
    else Bad
  }

  // ---------- one character at a time ----------

  /** open holds the indices of the open containers, innermost last; super is the
      token that the next value counts for, or -1. */
  datatype Machine = Machine(pos: nat, toks: seq<Token>, open: seq<nat>, super: int)

  /** One iteration either goes on or ends the parse with a code. */
  datatype Answer = More(m: Machine) | Done(m: Machine, code: int)

  function Top(open: seq<nat>): int { if open == [] then -1 else open[|open| - 1] }

  ghost predicate Valid(m: Machine) {
    && -1 <= m.super < |m.toks|
    && (forall i, j :: 0 <= i < j < |m.open| ==> m.open[i] < m.open[j])
    && (forall i :: 0 <= i < |m.open| ==> m.open[i] < |m.toks|)
    && (forall i {:trigger m.toks[i]} :: 0 <= i < |m.toks| ==> (Open(m.toks[i]) <==> i in m.open))
    && (forall i {:trigger m.toks[i]} :: 0 <= i < |m.toks| && Open(m.toks[i]) ==> Container(m.toks[i].kind))
  }

  /** One more value for the token super. */
  function Bump(toks: seq<Token>, super: int): (r: seq<Token>)
    requires -1 <= super < |toks|
    ensures |r| == |toks|
  {
    if super == -1 then toks else toks[super := toks[super].(size := toks[super].size + 1)]
  }

  /** A new token at the end of the list, counted for super. */
  function Add(m: Machine, cap: nat, t: Token, pos: nat): (r: Answer)
    requires -1 <= m.super < |m.toks|
  {
    if |m.toks| >= cap then Done(m, NOMEM)
    else More(m.(pos := pos, toks := Bump(m.toks, m.super) + [t]))
  }

  function Enter(m: Machine, cap: nat, k: Kind): (r: Answer)
    requires -1 <= m.super < |m.toks|
  {
    var r := Add(m, cap, Token(k, m.pos, -1, 0), m.pos + 1);
    if r.Done? then r else More(r.m.(open := m.open + [|m.toks|], super := |m.toks|))
  }

  function Leave(m: Machine, k: Kind): (r: Answer)
    requires forall i :: 0 <= i < |m.open| ==> m.open[i] < |m.toks|
  {
    if m.open == [] then Done(m, INVAL)
    else
      var top, rest := m.open[|m.open| - 1], m.open[..|m.open| - 1];
      if m.toks[top].kind != k then Done(m, INVAL)
      else More(Machine(m.pos + 1, m.toks[top := m.toks[top].(end := m.pos + 1)], rest, Top(rest)))
  }

  function Scalar(m: Machine, cap: nat, k: Kind, start: nat, s: Scan, next: nat): (r: Answer)
    requires -1 <= m.super < |m.toks|
  {
    match s
    case Bad => Done(m, INVAL)
    case Unfinished => Done(m, PART)
    case Found(q) => Add(m, cap, Token(k, start, q, 0), next)
  }

  /** A comma goes back from a key to the innermost container. */
  function AfterComma(m: Machine): (r: int)
    requires -1 <= m.super < |m.toks|
  {
    if m.super != -1 && !Container(m.toks[m.super].kind) && m.open != [] then Top(m.open) else m.super
  }

  function Step(js: string, m: Machine, cap: nat): (r: Answer)
    requires Valid(m) && !AtEnd(js, m.pos)
    ensures r.More? ==> m.pos < r.m.pos <= |js|
  {
    var c := js[m.pos];
    if c == '{' then Enter(m, cap, Object)
    else if c == '[' then Enter(m, cap, Array)
    else if c == '}' then Leave(m, Object)
    else if c == ']' then Leave(m, Array)
    else if c == '\"' then
      var s := StringEnd(js, m.pos + 1);
      Scalar(m, cap, String, m.pos + 1, s, if s.Found? then s.at + 1 else 0)
    else if Space(c) then More(m.(pos := m.pos + 1))
    else if c == ':' then More(m.(pos := m.pos + 1, super := |m.toks| - 1))
    else if c == ',' then More(m.(pos := m.pos + 1, super := AfterComma(m)))
    else
      var s := PrimitiveEnd(js, m.pos);
      Scalar(m, cap, Primitive, m.pos, s, if s.Found? then s.at else 0)
  }

  lemma {:induction false} StepValid(js: string, m: Machine, cap: nat)
    requires Valid(m) && !AtEnd(js, m.pos)
    ensures Valid(Step(js, m, cap).m)
  {
    hide StringEnd, PrimitiveEnd, HexEnd;
    var c, r := js[m.pos], Step(js, m, cap);
    if (c == '}' || c == ']') && r.More? {
      LeaveValid(m, if c == '}' then Object else Array);
    } else if (c == '{' || c == '[') && r.More? {
      EnterValid(m, cap, if c == '{' then Object else Array);
    } else {
      assert m.toks != [] ==> Valid(m.(super := |m.toks| - 1));
    }
  }

  lemma EnterValid(m: Machine, cap: nat, k: Kind)
    requires Valid(m) && Container(k)
    ensures Valid(Enter(m, cap, k).m)
  {
    var r := Enter(m, cap, k).m;
    if r != m {
      forall i | 0 <= i < |r.toks| ensures Open(r.toks[i]) <==> i in r.open {
        if i < |m.toks| { assert Open(r.toks[i]) <==> Open(m.toks[i]); }
      }
    }
  }

  lemma LeaveValid(m: Machine, k: Kind)
    requires Valid(m)
    ensures Valid(Leave(m, k).m)
  {
    var r := Leave(m, k).m;
    if r != m {
      var top := m.open[|m.open| - 1];
      assert m.open == r.open + [top];
      assert top !in r.open;
      forall i | 0 <= i < |r.toks| ensures Open(r.toks[i]) <==> i in r.open {
        if i != top { assert r.toks[i] == m.toks[i]; }
      }
    }
  }

  /** The whole parse: the machine it ends in, and the number of tokens or an error. */
  function Run(js: string, m: Machine, cap: nat): (r: Answer)
    requires Valid(m)
    ensures r.Done? && Valid(r.m)
    decreases |js| - m.pos
  {
    if AtEnd(js, m.pos) then Done(m, if m.open == [] then |m.toks| else PART)
    else
      StepValid(js, m, cap);
      var r := Step(js, m, cap);
      if r.Done? then r else Run(js, r.m, cap)
  }

  function Start(): (m: Machine)
    ensures Valid(m)
  {
    Machine(0, [], [], -1)
  }

  // ---------- the counting pass ----------

  datatype Tally = Tally(pos: nat, super: int, code: int)

  /** The pass without a token array; next is the parser's token index, which stays put. */
  function Count(js: string, pos: nat, n: int, super: int, next: nat): (r: Tally)
    decreases |js| - pos
  {
    if AtEnd(js, pos) then Tally(pos, super, n)
    else
      var c := js[pos];
      if c == '{' || c == '[' then Count(js, pos + 1, n + 1, super, next)
      else if c == '}' || c == ']' || Space(c) || c == ',' then Count(js, pos + 1, n, super, next)
      else if c == ':' then Count(js, pos + 1, n, next - 1, next)
      else if c == '\"' then
        var s := StringEnd(js, pos + 1);
        if s.Found? then Count(js, s.at + 1, n + 1, super, next) else Tally(pos, super, if s.Bad? then INVAL else PART)
      else
        var s := PrimitiveEnd(js, pos);
        if s.Found? then Count(js, s.at, n + 1, super, next) else Tally(pos, super, INVAL)
  }

  lemma {:induction false} CountGrows(js: string, pos: nat, n: int, super: int, next: nat)
    ensures Count(js, pos, n, super, next).code >= n || Count(js, pos, n, super, next).code in {INVAL, PART}
    decreases |js| - pos
  {
    if !AtEnd(js, pos) {
      var c := js[pos];
      if c == '{' || c == '[' { CountGrows(js, pos + 1, n + 1, super, next); }
      else if c == '}' || c == ']' || Space(c) || c == ',' { CountGrows(js, pos + 1, n, super, next); }
      else if c == ':' { CountGrows(js, pos + 1, n, next - 1, next); }
      else if c == '\"' {
        var s := StringEnd(js, pos + 1);
        if s.Found? { CountGrows(js, s.at + 1, n + 1, super, next); }
      } else {
        var s := PrimitiveEnd(js, pos);
        if s.Found? { CountGrows(js, s.at, n + 1, super, next); }
      }
    }
  }

  /** How one iteration of the counting pass goes along with one of the filling pass. */
  lemma CountStep(js: string, m: Machine, cap: nat, super: int, next: nat) returns (super': int)
    requires Valid(m) && !AtEnd(js, m.pos)
    ensures var r := Step(js, m, cap);
      && (r.More? ==> Count(js, m.pos, |m.toks|, super, next) == Count(js, r.m.pos, |r.m.toks|, super', next))
      && (r.More? ==> |m.toks| <= |r.m.toks|)
      && (r.Done? && r.code == NOMEM ==> Count(js, m.pos, |m.toks|, super, next).code < 0 || Count(js, m.pos, |m.toks|, super, next).code > cap)
      && (r.Done? ==> r.code in {NOMEM, INVAL, PART})
  {
    var c := js[m.pos];
    super' := if c == ':' then next - 1 else super;
    var n := |m.toks| + 1;
    if c == '{' || c == '[' {
      CountGrows(js, m.pos + 1, n, super, next);
    } else if c == '\"' {
      var s := StringEnd(js, m.pos + 1);
      if s.Found? { CountGrows(js, s.at + 1, n, super, next); }
    } else if !Delimiter(c) {
      var s := PrimitiveEnd(js, m.pos);
      if s.Found? { CountGrows(js, s.at, n, super, next); }
    }
  }

  /** With the number of tokens that the counting pass returns, the filling pass never runs
      out of memory; and whenever it succeeds it returns that number. */
  lemma {:induction false} CountThenFill(js: string, m: Machine, cap: nat, super: int, next: nat)
    requires Valid(m)
    ensures var c, r := Count(js, m.pos, |m.toks|, super, next).code, Run(js, m, cap).code;
      && (0 <= c <= cap ==> r != NOMEM)
      && (r >= 0 ==> c == r && r == |Run(js, m, cap).m.toks|)
    decreases |js| - m.pos
  {
    if !AtEnd(js, m.pos) {
      StepValid(js, m, cap);
      var r := Step(js, m, cap);
      var super' := CountStep(js, m, cap, super, next);
      if r.More? {
        CountThenFill(js, r.m, cap, super', next);
      }
    }
  }

  // ---------- resuming ----------

  /** Capacity matters only for whether an iteration runs out of memory. */
  lemma StepCapacity(js: string, m: Machine, cap: nat, cap': nat)
    requires Valid(m) && !AtEnd(js, m.pos) && cap <= cap'
    ensures var r := Step(js, m, cap);
      if r.Done? && r.code == NOMEM then r.m == m else Step(js, m, cap') == r
  {
  }

  /** A parse that ran out of memory and is continued with more room ends exactly as one
      that had the room from the start; a parse that did not run out is not changed by more room. */
  lemma {:induction false} Resume(js: string, m: Machine, cap: nat, cap': nat)
    requires Valid(m) && cap <= cap'
    ensures var r := Run(js, m, cap);
      Run(js, m, cap') == if r.code == NOMEM then Run(js, r.m, cap') else r
    decreases |js| - m.pos
  {
    if !AtEnd(js, m.pos) {
      StepValid(js, m, cap);
      StepCapacity(js, m, cap, cap');
      var r := Step(js, m, cap);
      if r.More? { Resume(js, r.m, cap, cap'); }
    }
  }

  /** No more tokens are ever used than there is room for. */
  lemma {:induction false} WithinCapacity(js: string, m: Machine, cap: nat)
    requires Valid(m) && |m.toks| <= cap
    ensures |Run(js, m, cap).m.toks| <= cap
    decreases |js| - m.pos
  {
    if !AtEnd(js, m.pos) {
      StepValid(js, m, cap);
      var r := Step(js, m, cap);
      if r.More? { WithinCapacity(js, r.m, cap); }
    }
  }

  // ---------- what holds for every text, well formed or not ----------

  /** A later token either starts after an earlier one ended or ends inside it. */
  predicate Apart(t: Token, u: Token) {
    t.start < u.start && (t.end != -1 ==> t.end <= u.start || (u.end != -1 && u.end <= t.end))
  }

  predicate Spans(t: Token, pos: nat) {
    0 <= t.start < pos && (t.end != -1 ==> t.start <= t.end <= pos)
  }

  /** The tokens in order of their start, nested or disjoint. */
  ghost predicate Forest(toks: seq<Token>, pos: nat) {
    && (forall i {:trigger toks[i]} :: 0 <= i < |toks| ==> Spans(toks[i], pos))
    && (forall i, j {:trigger toks[i], toks[j]} :: 0 <= i < j < |toks| ==> Apart(toks[i], toks[j]))
  }

  lemma ForestAdd(m: Machine, cap: nat, t: Token, pos: nat)
    requires Valid(m) && Forest(m.toks, m.pos) && m.pos < pos && m.pos <= t.start && Spans(t, pos)
    ensures Forest(Add(m, cap, t, pos).m.toks, Add(m, cap, t, pos).m.pos)
  {
    var r := Add(m, cap, t, pos).m;
    if r != m {
      forall i | 0 <= i < |m.toks| ensures r.toks[i].start == m.toks[i].start && r.toks[i].end == m.toks[i].end {}
      forall i, j | 0 <= i < j < |r.toks| ensures Apart(r.toks[i], r.toks[j]) {
        if j < |m.toks| { assert Apart(m.toks[i], m.toks[j]); } else { assert Spans(m.toks[i], m.pos); }
      }
      forall i | 0 <= i < |r.toks| ensures Spans(r.toks[i], r.pos) {
        if i < |m.toks| { assert Spans(m.toks[i], m.pos); }
      }
    }
  }

  lemma ForestLeave(m: Machine, k: Kind)
    requires Valid(m) && Forest(m.toks, m.pos)
    ensures Forest(Leave(m, k).m.toks, Leave(m, k).m.pos)
  {
    var r := Leave(m, k).m;
    if r != m {
      var top := m.open[|m.open| - 1];
      forall i, j | 0 <= i < j < |r.toks| ensures Apart(r.toks[i], r.toks[j]) {
        assert Apart(m.toks[i], m.toks[j]) && Spans(m.toks[j], m.pos);
        if i == top { InnermostIsLast(m, j); }
      }
      forall i | 0 <= i < |r.toks| ensures Spans(r.toks[i], r.pos) { assert Spans(m.toks[i], m.pos); }
    }
  }

  /** Whatever comes after the innermost open container is closed. */
  lemma InnermostIsLast(m: Machine, j: nat)
    requires Valid(m) && m.open != [] && m.open[|m.open| - 1] < j < |m.toks| && Forest(m.toks, m.pos)
    ensures m.toks[j].end != -1
  {
    assert Spans(m.toks[j], m.pos);
    assert Open(m.toks[j]) <==> j in m.open;
  }

  lemma {:induction false} ForestStep(js: string, m: Machine, cap: nat)
    requires Valid(m) && Forest(m.toks, m.pos) && !AtEnd(js, m.pos)
    ensures Forest(Step(js, m, cap).m.toks, Step(js, m, cap).m.pos)
  {
    hide StringEnd, PrimitiveEnd, HexEnd, Valid;
    var c := js[m.pos];
    if c == '}' || c == ']' {
      ForestLeave(m, if c == '}' then Object else Array);
    } else if c == '{' || c == '[' {
      ForestAdd(m, cap, Token(if c == '{' then Object else Array, m.pos, -1, 0), m.pos + 1);
    } else if c == '\"' {
      var s := StringEnd(js, m.pos + 1);
      if s.Found? { ForestAdd(m, cap, Token(String, m.pos + 1, s.at, 0), s.at + 1); }
    } else if Space(c) || c == ':' || c == ',' {
      ForestLater(m.toks, m.pos, m.pos + 1);
    } else {
      var s := PrimitiveEnd(js, m.pos);
      if s.Found? { ForestAdd(m, cap, Token(Primitive, m.pos, s.at, 0), s.at); }
    }
  }

  lemma ForestLater(toks: seq<Token>, pos: nat, pos': nat)
    requires Forest(toks, pos) && pos <= pos'
    ensures Forest(toks, pos')
  {
    forall i | 0 <= i < |toks| ensures Spans(toks[i], pos') { assert Spans(toks[i], pos); }
  }

  /** At the end of any parse the tokens are in preorder of a forest of spans; after a
      successful one every span is complete. */
  lemma {:induction false} RunForest(js: string, m: Machine, cap: nat)
    requires Valid(m) && Forest(m.toks, m.pos)
    ensures var r := Run(js, m, cap);
      && Forest(r.m.toks, r.m.pos)
      && (r.code >= 0 ==> forall i {:trigger r.m.toks[i]} :: 0 <= i < |r.m.toks| ==> r.m.toks[i].end != -1)
    decreases |js| - m.pos
  {
    if AtEnd(js, m.pos) {
      forall i | m.open == [] && 0 <= i < |m.toks| ensures m.toks[i].end != -1 {
        assert Spans(m.toks[i], m.pos) && (Open(m.toks[i]) <==> i in m.open);
      }
    } else {
      StepValid(js, m, cap);
      ForestStep(js, m, cap);
      DoneIsError(js, m, cap);
      var r := Step(js, m, cap);
      if r.More? { RunForest(js, r.m, cap); }
    }
  }

  lemma DoneIsError(js: string, m: Machine, cap: nat)
    requires Valid(m) && !AtEnd(js, m.pos)
    ensures Step(js, m, cap).Done? ==> Step(js, m, cap).code < 0 && Step(js, m, cap).m == m
  {
    hide StringEnd, PrimitiveEnd, HexEnd;
  }
}
