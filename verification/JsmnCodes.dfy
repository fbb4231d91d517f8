/** What the error codes of the tokenizer mean for the texts that go on where a text ends. */
module JsmnCodes {
  import opened JsmnMachine
  import opened JsmnAccepts
  import opened Jsmn

  predicate NoNul(js: string) { forall i :: 0 <= i < |js| ==> js[i] != '\0' }

  // ---------- scans of a longer text ----------

  /** Hexadecimal digits that are complete, or wrong, stay so in a longer text. */
  lemma {:induction false} HexStays(js: string, t: string, p: nat, n: nat)
    requires NoNul(js) && p <= |js|
    ensures var r := HexEnd(js, p, n);
      && (r.Bad? ==> HexEnd(js + t, p, n).Bad?)
      && (r.Found? && (r.at < |js| || r.at == p + n) ==> HexEnd(js + t, p, n) == r)
    decreases n
  {
    if n > 0 && p < |js| { HexStays(js, t, p + 1, n - 1); }
  }

  /** Fewer digits than asked for are only found at the end of the text. */
  lemma {:induction false} HexShort(js: string, p: nat, n: nat)
    requires NoNul(js) && p <= |js|
    ensures var r := HexEnd(js, p, n); r.Found? ==> r.at == p + n || (r.at == |js| && r.at < p + n)
    decreases n
  {
    if n > 0 && p < |js| { HexShort(js, p + 1, n - 1); }
  }

  function Zeros(n: nat): (z: string)
    ensures |z| == n
  {
    seq(n, _ => '0')
  }

  /** Missing digits can be supplied. */
  lemma {:induction false} HexFill(js: string, p: nat, n: nat, q: nat, t: string)
    requires NoNul(js) && p <= |js| && HexEnd(js, p, n) == Found(q) && q < p + n
    ensures HexEnd(js + (Zeros(p + n - q) + t), p, n) == Found(p + n)
    decreases n
  {
    if p < |js| {
      HexFill(js, p + 1, n - 1, q, t);
    } else {
      HexZeros(js, n, t, 0);
    }
  }

  lemma {:induction false} HexZeros(js: string, n: nat, t: string, i: nat)
    requires i <= n
    ensures HexEnd(js + (Zeros(n) + t), |js| + i, n - i) == Found(|js| + n)
    decreases n - i
  {
    if i < n {
      assert (js + (Zeros(n) + t))[|js| + i] == '0';
      HexZeros(js, n, t, i + 1);
    }
  }

  /** A string that ends, or is malformed, stays so in a longer text. */
  lemma {:induction false} StringStays(js: string, t: string, p: nat)
    requires NoNul(js) && p <= |js|
    ensures !StringEnd(js, p).Unfinished? ==> StringEnd(js + t, p) == StringEnd(js, p)
    decreases |js| - p
  {
    if p < |js| && js[p] != '\"' {
      if js[p] == '\\' && p + 1 < |js| {
        if SimpleEscape(js[p + 1]) {
          StringStays(js, t, p + 2);
        } else if js[p + 1] == 'u' {
          HexStays(js, t, p + 2, 4);
          HexShort(js, p + 2, 4);
          var h := HexEnd(js, p + 2, 4);
          if h.Found? { StringStays(js, t, h.at); }
        }
      } else {
        StringStays(js, t, p + 1);
      }
    }
  }

  /** An unfinished string can be finished. */
  lemma {:induction false} StringCloses(js: string, p: nat) returns (t: string)
    requires NoNul(js) && p <= |js| && StringEnd(js, p).Unfinished?
    ensures t != [] && StringEnd(js + t, p) == Found(|js| + |t| - 1)
    decreases |js| - p
  {
    t := "\"";
    if p < |js| {
      if js[p] == '\\' && p + 1 < |js| {
        if SimpleEscape(js[p + 1]) {
          t := StringCloses(js, p + 2);
        } else {
          HexShort(js, p + 2, 4);
          var h := HexEnd(js, p + 2, 4);
          if h.at == p + 6 {
            t := StringCloses(js, h.at);
            HexStays(js, t, p + 2, 4);
          } else {
            var z := Zeros(p + 6 - h.at);
            HexFill(js, p + 2, 4, h.at, t);
            t := z + t;
            assert (js + t)[p + 6] == '\"';
          }
        }
      } else if js[p] == '\\' {
        t := "\"\"";
        assert js + t == js + ['\"'] + ['\"'];
      } else {
        t := StringCloses(js, p + 1);
      }
    }
  }

  /** A primitive that ends before the text does, or is malformed, stays so in a longer text; one that
      reaches the end of the text does when a delimiter comes next. */
  lemma {:induction false} PrimitiveStays(js: string, t: string, p: nat)
    requires NoNul(js) && p <= |js|
    ensures var r := PrimitiveEnd(js, p);
      r.Bad? || r.at < |js| || t == [] || Delimiter(t[0]) ==> PrimitiveEnd(js + t, p) == r
    decreases |js| - p
  {
    if p < |js| {
      PrimitiveStays(js, t, p + 1);
    } else if t != [] {
      assert (js + t)[p] == t[0];
    } else {
      assert js + t == js;
    }
  }

  // ---------- one iteration in a longer text ----------

  /** What comes first stays what it is, unless it reaches the end of the text and could go on there. */
  lemma FirstStays(js: string, t: string, pos: nat)
    requires NoNul(js) && pos < |js|
    ensures var f := FirstAt(js, pos);
      (if f.Malformed? then !(js[pos] == '\"' && StringEnd(js, pos + 1).Unfinished?)
       else f.next < |js| || f.Gap? || !f.piece.Word? || js[pos] == '\"' || t == [] || Delimiter(t[0]))
      ==> FirstAt(js + t, pos) == f
  {
    hide StringEnd, PrimitiveEnd;
    StringStays(js, t, pos + 1);
    PrimitiveStays(js, t, pos);
  }

  /** The code with which an iteration ends the parse. */
  lemma DoneCode(js: string, m: Machine, cap: nat)
    requires Valid(m) && !AtEnd(js, m.pos) && Step(js, m, cap).Done?
    ensures var code, f := Step(js, m, cap).code, FirstAt(js, m.pos);
      && (code == PART <==> js[m.pos] == '\"' && StringEnd(js, m.pos + 1).Unfinished?)
      && (code == NOMEM <==> f.Piece? && !f.piece.Closes? && |m.toks| >= cap)
      && (code == INVAL <==> (f.Malformed? && code != PART) || (f.Piece? && f.piece.Closes?))
      && (code == PART ==> f.Malformed?)
  {
    hide StringEnd, PrimitiveEnd;
  }

  // ---------- what the rest of a text can still become ----------

  /** From pos on the text can be scanned and closes exactly what is open. */
  predicate Completes(js: string, pos: nat, ks: seq<Kind>) {
    var l := Lex(js, pos);
    l.Pieces? && Match(l.pieces, ks)
  }

  lemma CompletesFirst(js: string, pos: nat, ks: seq<Kind>)
    requires !AtEnd(js, pos)
    ensures match FirstAt(js, pos)
      case Malformed => !Completes(js, pos, ks)
      case Gap(next) => Completes(js, pos, ks) == Completes(js, next, ks)
      case Piece(Word, next) => Completes(js, pos, ks) == Completes(js, next, ks)
      case Piece(Opens(k), next) => Completes(js, pos, ks) == Completes(js, next, ks + [k])
      case Piece(Closes(k), next) =>
        Completes(js, pos, ks) == (ks != [] && ks[|ks| - 1] == k && Completes(js, next, ks[..|ks| - 1]))
  {
    hide FirstAt;
    var f := FirstAt(js, pos);
    if f.Piece? && Lex(js, f.next).Pieces? { FirstOff(f.piece, Lex(js, f.next).pieces); }
  }

  /** A text refused as invalid stays so however it goes on. */
  lemma {:induction false} InvalidStays(js: string, t: string, m: Machine, cap: nat)
    requires Valid(m) && |m.toks| <= cap && NoNul(js) && m.pos <= |js| && Run(js, m, cap).code == INVAL
    ensures !Completes(js + t, m.pos, Kinds(m))
    decreases |js| - m.pos
  {
    hide StringEnd, PrimitiveEnd, Valid, Step, FirstAt, Kinds, Completes;
    if m.pos < |js| {
      StepValid(js, m, cap);
      StepFirst(js, m, cap);
      FirstStays(js, t, m.pos);
      CompletesFirst(js + t, m.pos, Kinds(m));
      var r, f := Step(js, m, cap), FirstAt(js, m.pos);
      if r.Done? {
        DoneCode(js, m, cap);
      } else {
        InvalidStays(js, t, r.m, cap);
      }
    }
  }

  function Closer(k: Kind): char { if k == Object then '}' else ']' }

  /** The brackets that close everything, innermost first. */
  function Closers(ks: seq<Kind>): (t: string) {
    if ks == [] then [] else [Closer(ks[|ks| - 1])] + Closers(ks[..|ks| - 1])
  }

  lemma {:induction false} ClosersComplete(js: string, ks: seq<Kind>)
    requires forall i :: 0 <= i < |ks| ==> Container(ks[i])
    ensures Completes(js + Closers(ks), |js|, ks)
    decreases |ks|
  {
    if ks != [] {
      var n := |ks| - 1;
      var u := js + [Closer(ks[n])];
      assert js + Closers(ks) == u + Closers(ks[..n]);
      ClosersComplete(u, ks[..n]);
      CompletesFirst(js + Closers(ks), |js|, ks);
    }
  }

  lemma KindsContainers(m: Machine)
    requires Valid(m)
    ensures forall i :: 0 <= i < |Kinds(m)| ==> Container(Kinds(m)[i])
    ensures |Kinds(m)| == |m.open|
  {
    forall i | 0 <= i < |m.open| ensures Container(m.toks[m.open[i]].kind) {
      assert Open(m.toks[m.open[i]]);
    }
  }

  /** A text of which only a part is there can be completed. */
  lemma {:induction false} PartContinues(js: string, m: Machine, cap: nat) returns (t: string)
    requires Valid(m) && |m.toks| <= cap && NoNul(js) && m.pos <= |js| && Run(js, m, cap).code == PART
    ensures Completes(js + t, m.pos, Kinds(m))
    ensures m.pos == |js| ==> t != [] && Delimiter(t[0])
    decreases |js| - m.pos
  {
    hide StringEnd, PrimitiveEnd, Valid, Step, FirstAt, Kinds, Completes;
    var ks := Kinds(m);
    KindsContainers(m);
    if m.pos == |js| {
      t := Closers(ks);
      ClosersComplete(js, ks);
    } else {
      StepValid(js, m, cap);
      StepFirst(js, m, cap);
      var r, f := Step(js, m, cap), FirstAt(js, m.pos);
      if r.Done? {
        DoneCode(js, m, cap);
        var u := StringCloses(js, m.pos + 1);
        t := u + Closers(ks);
        ClosersComplete(js + u, ks);
        assert js + t == js + u + Closers(ks);
        StringClosed(js + u, Closers(ks), m.pos, ks);
      } else {
        t := PartContinues(js, r.m, cap);
        FirstStays(js, t, m.pos);
        CompletesFirst(js + t, m.pos, ks);
      }
    }
  }

  /** The text y goes on from one with a quote at pos, finishing its string. */
  lemma StringClosed(y: string, v: string, pos: nat, ks: seq<Kind>)
    requires pos < |y| && y[pos] == '\"' && StringEnd(y, pos + 1) == Found(|y| - 1) && Completes(y + v, |y|, ks)
    ensures Completes(y + v, pos, ks)
  {
    hide StringEnd, Completes;
    StringFound(y, v, pos + 1);
    StringFirst(y + v, pos, |y| - 1, ks);
  }

  lemma StringFirst(js: string, pos: nat, q: nat, ks: seq<Kind>)
    requires pos < |js| && js[pos] == '\"' && StringEnd(js, pos + 1) == Found(q) && Completes(js, q + 1, ks)
    ensures Completes(js, pos, ks)
  {
    hide StringEnd, PrimitiveEnd, Completes;
    CompletesFirst(js, pos, ks);
  }

  /** A string that ends stays so in a longer text, whatever the text contains. */
  lemma {:induction false} StringFound(js: string, t: string, p: nat)
    requires StringEnd(js, p).Found?
    ensures StringEnd(js + t, p) == StringEnd(js, p)
    decreases |js| - p
  {
    if js[p] != '\"' {
      if js[p] == '\\' && p + 1 < |js| {
        if SimpleEscape(js[p + 1]) {
          StringFound(js, t, p + 2);
        } else {
          var h := HexEnd(js, p + 2, 4);
          HexFound(js, t, p + 2, 4);
          StringFound(js, t, h.at);
        }
      } else {
        StringFound(js, t, p + 1);
      }
    }
  }

  lemma {:induction false} HexFound(js: string, t: string, p: nat, n: nat)
    ensures var r := HexEnd(js, p, n); r.Found? && !AtEnd(js, r.at) ==> HexEnd(js + t, p, n) == r
    decreases n
  {
    if n > 0 && !AtEnd(js, p) { HexFound(js, t, p + 1, n - 1); }
  }

  // ---------- running out of room ----------

  /** ps are the first pieces of the text from pos on, whatever comes after them. */
  predicate Leads(js: string, pos: nat, ps: seq<Piece>)
    decreases |js| - pos
  {
    ps == [] ||
    (!AtEnd(js, pos) &&
     match FirstAt(js, pos)
     case Malformed => false
     case Gap(next) => Leads(js, next, ps)
     case Piece(p, next) => ps[0] == p && Leads(js, next, ps[1..]))
  }

  /** No closing bracket among the pieces is out of place. */
  predicate Fits(ps: seq<Piece>, open: seq<Kind>) {
    ps == [] ||
    match ps[0]
    case Word => Fits(ps[1..], open)
    case Opens(k) => Fits(ps[1..], open + [k])
    case Closes(k) => open != [] && open[|open| - 1] == k && Fits(ps[1..], open[..|open| - 1])
  }

  /** Pieces that fit can be completed. */
  lemma {:induction false} FitsCompletes(ps: seq<Piece>, open: seq<Kind>) returns (qs: seq<Piece>)
    requires Fits(ps, open)
    ensures Match(ps + qs, open)
    decreases |ps|, 1
  {
    if ps == [] {
      qs := CloseAll(open);
      assert ps + qs == qs;
    } else {
      match ps[0]
      case Word => qs := FitsRest(ps, open);
      case Opens(k) => qs := FitsRest(ps, open + [k]);
      case Closes(k) => qs := FitsRest(ps, open[..|open| - 1]);
    }
  }

  lemma {:induction false} FitsRest(ps: seq<Piece>, open: seq<Kind>) returns (qs: seq<Piece>)
    requires ps != [] && Fits(ps[1..], open)
    ensures Match((ps + qs)[1..], open) && (ps + qs)[0] == ps[0]
    decreases |ps|, 0
  {
    qs := FitsCompletes(ps[1..], open);
    assert (ps + qs)[1..] == ps[1..] + qs;
  }

  lemma {:induction false} CloseAll(open: seq<Kind>) returns (qs: seq<Piece>)
    ensures Match(qs, open)
    decreases |open|
  {
    qs := [];
    if open != [] {
      var n := |open| - 1;
      var rest := CloseAll(open[..n]);
      qs := [Closes(open[n])] + rest;
      assert qs[1..] == rest;
    }
  }

  lemma {:induction false} MatchFits(ps: seq<Piece>, qs: seq<Piece>, open: seq<Kind>)
    requires Match(ps + qs, open)
    ensures Fits(ps, open)
    decreases |ps|
  {
    if ps != [] {
      assert (ps + qs)[1..] == ps[1..] + qs;
      match ps[0]
      case Word => MatchFits(ps[1..], qs, open);
      case Opens(k) => MatchFits(ps[1..], qs, open + [k]);
      case Closes(k) => MatchFits(ps[1..], qs, open[..|open| - 1]);
    }
  }

  /** Pieces in order that outnumber the room make the parse run out of it. */
  lemma {:induction false} TooMany(js: string, m: Machine, cap: nat, ps: seq<Piece>)
    requires Valid(m) && |m.toks| <= cap && Leads(js, m.pos, ps) && Fits(ps, Kinds(m)) && |m.toks| + Tokens(ps) > cap
    ensures Run(js, m, cap).code == NOMEM
    decreases |js| - m.pos
  {
    hide StringEnd, PrimitiveEnd, Valid, Step, FirstAt, Kinds;
    if !AtEnd(js, m.pos) {
      StepValid(js, m, cap);
      StepFirst(js, m, cap);
      var r, f := Step(js, m, cap), FirstAt(js, m.pos);
      if r.Done? {
        DoneCode(js, m, cap);
      } else {
        TooMany(js, r.m, cap, if f.Gap? then ps else ps[1..]);
      }
    }
  }

  /** When the parse runs out of room, the pieces up to there are in order and outnumber it. */
  lemma {:induction false} RanOut(js: string, m: Machine, cap: nat) returns (ps: seq<Piece>)
    requires Valid(m) && |m.toks| <= cap && Run(js, m, cap).code == NOMEM
    ensures Leads(js, m.pos, ps) && Fits(ps, Kinds(m)) && |m.toks| + Tokens(ps) > cap
    decreases |js| - m.pos
  {
    hide StringEnd, PrimitiveEnd, Valid, Step, FirstAt, Kinds;
    ps := [];
    if !AtEnd(js, m.pos) {
      StepValid(js, m, cap);
      StepFirst(js, m, cap);
      var r, f := Step(js, m, cap), FirstAt(js, m.pos);
      if r.Done? {
        DoneCode(js, m, cap);
        ps := [f.piece];
      } else {
        ps := RanOut(js, r.m, cap);
        if f.Piece? {
          FirstOff(f.piece, ps);
          ps := [f.piece] + ps;
        }
      }
    }
  }

  // ---------- what the codes mean ----------

  /** The text can be scanned and its brackets are those of a nest. */
  ghost predicate Acceptable(js: string) {
    Lex(js, 0).Pieces? && IsNest(Lex(js, 0).pieces)
  }

  lemma AcceptableCompletes(js: string)
    ensures Acceptable(js) <==> Completes(js, 0, [])
  {
    if Lex(js, 0).Pieces? { MatchIsNest(Lex(js, 0).pieces); }
  }

  /** The pieces begin some nest. */
  ghost predicate BeginsNest(ps: seq<Piece>) { exists qs :: IsNest(ps + qs) }

  lemma BeginsFits(ps: seq<Piece>)
    ensures BeginsNest(ps) <==> Fits(ps, [])
  {
    if Fits(ps, []) {
      var qs := FitsCompletes(ps, []);
      MatchIsNest(ps + qs);
    }
    forall qs | IsNest(ps + qs) ensures Fits(ps, []) {
      MatchIsNest(ps + qs);
      MatchFits(ps, qs, []);
    }
  }

  lemma NoneStarted()
    ensures Kinds(Start()) == [] && Start().toks == [] && Start().pos == 0
  {
  }

  /** No room: the pieces read so far, none of them malformed or out of place, outnumber the tokens. */
  lemma NoMemory(js: string, cap: nat)
    ensures Run(js, Start(), cap).code == NOMEM <==> exists ps :: Leads(js, 0, ps) && BeginsNest(ps) && Tokens(ps) > cap
  {
    hide Run, Start, Leads, BeginsNest;
    NoneStarted();
    if Run(js, Start(), cap).code == NOMEM {
      var ps := RanOut(js, Start(), cap);
      BeginsFits(ps);
    }
    forall ps | Leads(js, 0, ps) && BeginsNest(ps) && Tokens(ps) > cap ensures Run(js, Start(), cap).code == NOMEM {
      BeginsFits(ps);
      TooMany(js, Start(), cap, ps);
    }
  }

  lemma {:induction false} RunCodes(js: string, m: Machine, cap: nat)
    requires Valid(m)
    ensures Run(js, m, cap).code >= 0 || Run(js, m, cap).code in {NOMEM, INVAL, PART}
    decreases |js| - m.pos
  {
    if !AtEnd(js, m.pos) {
      StepValid(js, m, cap);
      var super := CountStep(js, m, cap, 0, 0);
      if Step(js, m, cap).More? { RunCodes(js, Step(js, m, cap).m, cap); }
    }
  }

  /** With room enough: partial means that the text is not accepted but some longer one is,
      invalid that none is, however the text goes on. */
  lemma Codes(js: string, cap: nat)
    requires NoNul(js) && Run(js, Start(), cap).code != NOMEM
    ensures var code := Run(js, Start(), cap).code;
      && (code >= 0 <==> Acceptable(js))
      && (code == PART <==> !Acceptable(js) && exists t :: Acceptable(js + t))
      && (code == INVAL <==> forall t :: !Acceptable(js + t))
  {
    hide Run, Start, Acceptable;
    var code := Run(js, Start(), cap).code;
    NoneStarted();
    RunCodes(js, Start(), cap);
    AcceptableCompletes(js);
    assert js + [] == js;
    if code == PART {
      var t := PartContinues(js, Start(), cap);
      AcceptableCompletes(js + t);
    } else if code == INVAL {
      forall t ensures !Acceptable(js + t) {
        InvalidStays(js, t, Start(), cap);
        AcceptableCompletes(js + t);
      }
    }
    AcceptsRoom(js, cap);
  }

  lemma AcceptsRoom(js: string, cap: nat)
    requires Run(js, Start(), cap).code != NOMEM
    ensures Run(js, Start(), cap).code >= 0 <==> Acceptable(js)
  {
    var l := Lex(js, 0);
    Accepts(js, cap);
    if l.Pieces? && Tokens(l.pieces) > cap && Acceptable(js) {
      LexLeads(js, 0);
      MatchIsNest(l.pieces);
      assert l.pieces + [] == l.pieces;
      assert BeginsNest(l.pieces);
      NoMemory(js, cap);
    }
  }

  lemma {:induction false} LexLeads(js: string, pos: nat)
    requires Lex(js, pos).Pieces?
    ensures Leads(js, pos, Lex(js, pos).pieces)
    decreases |js| - pos
  {
    if !AtEnd(js, pos) {
      var f := FirstAt(js, pos);
      LexLeads(js, f.next);
      if f.Piece? { FirstOff(f.piece, Lex(js, f.next).pieces); }
    }
  }

  // ---------- the counting pass ----------

  /** The counting pass gives the number of tokens of any text that can be scanned, matched or not; partial
      and invalid are about scanning alone. */
  lemma {:induction false} CountCodes(js: string, pos: nat, n: nat, super: int, next: nat)
    requires NoNul(js) && pos <= |js|
    ensures var code, l := Count(js, pos, n, super, next).code, Lex(js, pos);
      && (l.Pieces? ==> code == n + Tokens(l.pieces))
      && (l.Broken? ==> code == PART || code == INVAL)
      && (code == PART ==> exists t :: Lex(js + t, pos).Pieces?)
      && (code == INVAL ==> forall t :: Lex(js + t, pos).Broken?)
    decreases |js| - pos
  {
    hide StringEnd, PrimitiveEnd, HexEnd;
    if pos < |js| {
      var c, f := js[pos], FirstAt(js, pos);
      if f.Malformed? {
        if c == '\"' && StringEnd(js, pos + 1).Unfinished? {
          var u := StringCloses(js, pos + 1);
          assert (js + u)[pos] == '\"' && !AtEnd(js + u, pos);
          assert FirstAt(js + u, pos) == First.Piece(Word, |js + u|);
          assert Lex(js + u, |js + u|) == Pieces([]);
          assert Lex(js + u, pos).Pieces?;
        } else {
          forall t ensures Lex(js + t, pos).Broken? {
            FirstStays(js, t, pos);
            assert !AtEnd(js + t, pos);
          }
        }
      } else {
        var k := if f.Piece? && !f.piece.Closes? then n + 1 else n;
        var s := if c == ':' then next - 1 else super;
        CountCodes(js, f.next, k, s, next);
        assert Count(js, pos, n, super, next) == Count(js, f.next, k, s, next);
        if f.Piece? && Lex(js, f.next).Pieces? { FirstOff(f.piece, Lex(js, f.next).pieces); }
        var code := Count(js, pos, n, super, next).code;
        if code == PART {
          var t :| Lex(js + t, f.next).Pieces?;
          FirstStays(js, t, pos);
          assert Lex(js + t, pos).Pieces?;
        } else if code == INVAL {
          forall t ensures Lex(js + t, pos).Broken? {
            FirstStays(js, t, pos);
            assert Lex(js + t, f.next).Broken?;
          }
        }
      }
    }
  }

  lemma CountMeans(js: string, super: int, next: nat)
    requires NoNul(js)
    ensures var code, l := Count(js, 0, 0, super, next).code, Lex(js, 0);
      && (l.Pieces? ==> code == Tokens(l.pieces))
      && (code == PART <==> l.Broken? && exists t :: Lex(js + t, 0).Pieces?)
      && (code == INVAL <==> forall t :: Lex(js + t, 0).Broken?)
  {
    CountCodes(js, 0, 0, super, next);
    assert js + [] == js;
  }

  // ---------- from the start ----------

  /** A new parser and one parse. */
  method Tokenize(js: string, tokens: array<Token>, num: nat) returns (r: int)
    requires num <= tokens.Length
    modifies tokens
    ensures r >= 0 ==> Acceptable(js) && r == Tokens(Lex(js, 0).pieces)
    ensures r == NOMEM <==> exists ps :: Leads(js, 0, ps) && BeginsNest(ps) && Tokens(ps) > num
    ensures NoNul(js) && r != NOMEM ==> (r >= 0 <==> Acceptable(js))
    ensures NoNul(js) && r != NOMEM ==> (r == PART <==> !Acceptable(js) && exists t :: Acceptable(js + t))
    ensures NoNul(js) && r != NOMEM ==> (r == INVAL <==> forall t :: !Acceptable(js + t))
  {
    hide Run, Leads, BeginsNest, Acceptable;
    var p := new Parser();
    StartAbstract(p, tokens);
    r := p.Parse(js, tokens, num);
    NoMemory(js, num);
    if r >= 0 { AcceptsRoom(js, num); }
    Accepts(js, num);
    if NoNul(js) && r != NOMEM { Codes(js, num); }
  }

  /** A new parser and one parse without an array. */
  method CountTokens(js: string) returns (r: int)
    ensures Lex(js, 0).Pieces? ==> r == Tokens(Lex(js, 0).pieces)
    ensures NoNul(js) ==> (r == PART <==> Lex(js, 0).Broken? && exists t :: Lex(js + t, 0).Pieces?)
    ensures NoNul(js) ==> (r == INVAL <==> forall t :: Lex(js + t, 0).Broken?)
  {
    hide Lex, Count;
    var p := new Parser();
    r := p.Parse(js, null, 0);
    CountLexed(js, 0, 0, -1, 0);
    if NoNul(js) { CountMeans(js, -1, 0); }
  }

  lemma {:induction false} CountLexed(js: string, pos: nat, n: nat, super: int, next: nat)
    ensures Lex(js, pos).Pieces? ==> Count(js, pos, n, super, next).code == n + Tokens(Lex(js, pos).pieces)
    decreases |js| - pos
  {
    hide StringEnd, PrimitiveEnd;
    if !AtEnd(js, pos) {
      var c, f := js[pos], FirstAt(js, pos);
      if !f.Malformed? {
        var k := if f.Piece? && !f.piece.Closes? then n + 1 else n;
        CountLexed(js, f.next, k, if c == ':' then next - 1 else super, next);
        if f.Piece? && Lex(js, f.next).Pieces? { FirstOff(f.piece, Lex(js, f.next).pieces); }
      }
    }
  }

  lemma StartAbstract(p: Parser, tokens: array<Token>)
    requires p.pos == 0 && p.toknext == 0 && p.toksuper == -1
    ensures p.Abstract(tokens) == Start()
  {
    assert tokens[..0] == [];
    assert OpenIndices([]) == [];
  }
}
