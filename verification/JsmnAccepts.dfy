/** Which texts the tokenizer accepts, apart from tokens: those whose strings and primitives can
    be scanned to their ends and whose brackets nest. */
module JsmnAccepts {
  import opened JsmnMachine

  /** What a text consists of, without white space, colons and commas. */
  datatype Piece = Opens(kind: Kind) | Closes(kind: Kind) | Word

  /** What comes first from a position on, and where it ends. */
  datatype First = Piece(piece: Piece, next: nat) | Gap(next: nat) | Malformed

  function FirstAt(js: string, pos: nat): (r: First)
    requires !AtEnd(js, pos)
    ensures !r.Malformed? ==> pos < r.next <= |js|
  {
    var c := js[pos];
    if c == '{' then First.Piece(Opens(Object), pos + 1)
    else if c == '[' then First.Piece(Opens(Array), pos + 1)
    else if c == '}' then First.Piece(Closes(Object), pos + 1)
    else if c == ']' then First.Piece(Closes(Array), pos + 1)
    else if Space(c) || c == ':' || c == ',' then Gap(pos + 1)
    else
      var s := if c == '\"' then StringEnd(js, pos + 1) else PrimitiveEnd(js, pos);
      if s.Found? then First.Piece(Word, if c == '\"' then s.at + 1 else s.at) else Malformed
  }

  datatype Lexed = Pieces(pieces: seq<Piece>) | Broken

  /** The pieces of the text from pos on, unless a string or a primitive is malformed. */
  function Lex(js: string, pos: nat): (r: Lexed)
    decreases |js| - pos
  {
    if AtEnd(js, pos) then Pieces([])
    else match FirstAt(js, pos)
      case Malformed => Broken
      case Gap(next) => Lex(js, next)
      case Piece(p, next) =>
        var l := Lex(js, next);
        if l.Pieces? then Pieces([p] + l.pieces) else Broken
  }

  /** Every piece but a closing bracket becomes a token. */
  function Tokens(ps: seq<Piece>): nat {
    if ps == [] then 0 else (if ps[0].Closes? then 0 else 1) + Tokens(ps[1..])
  }

  /** The pieces close what is open, innermost last, each bracket with one of its kind. */
  predicate Match(ps: seq<Piece>, open: seq<Kind>) {
    if ps == [] then open == []
    else match ps[0]
      case Word => Match(ps[1..], open)
      case Opens(k) => Match(ps[1..], open + [k])
      case Closes(k) => open != [] && open[|open| - 1] == k && Match(ps[1..], open[..|open| - 1])
  }

  /** Nested brackets around words. */
  datatype Nest = Empty | OneWord(rest: Nest) | Group(kind: Kind, inside: Nest, rest: Nest)

  function Flat(n: Nest): seq<Piece> {
    match n
    case Empty => []
    case OneWord(rest) => [Word] + Flat(rest)
    case Group(k, inside, rest) => [Opens(k)] + Flat(inside) + [Closes(k)] + Flat(rest)
  }

  lemma {:induction false} NestMatches(n: Nest, ps: seq<Piece>, open: seq<Kind>)
    ensures Match(Flat(n) + ps, open) == Match(ps, open)
    decreases n
  {
    match n
    case Empty =>
      assert Flat(n) + ps == ps;
    case OneWord(rest) =>
      NestMatches(rest, ps, open);
      assert (Flat(n) + ps)[1..] == Flat(rest) + ps;
    case Group(k, inside, rest) =>
      var after := Flat(rest) + ps;
      var t := [Closes(k)] + after;
      assert (Flat(n) + ps)[1..] == Flat(inside) + t;
      NestMatches(inside, t, open + [k]);
      assert (open + [k])[..|open|] == open && t[1..] == after;
      NestMatches(rest, ps, open);
  }

  /** Pieces that match begin with a nest; it is all of them, or the innermost bracket closes behind it. */
  lemma {:induction false} MatchNests(ps: seq<Piece>, open: seq<Kind>) returns (n: Nest, rest: seq<Piece>)
    requires Match(ps, open)
    ensures if open == [] then ps == Flat(n)
            else ps == Flat(n) + [Closes(open[|open| - 1])] + rest && Match(rest, open[..|open| - 1])
    decreases |ps|
  {
    n, rest := Empty, [];
    if ps != [] {
      match ps[0]
      case Word =>
        var m;
        m, rest := MatchNests(ps[1..], open);
        n := OneWord(m);
        assert ps == [Word] + ps[1..];
      case Opens(k) =>
        var m, after := MatchNests(ps[1..], open + [k]);
        assert (open + [k])[..|open|] == open;
        assert ps == [Opens(k)] + Flat(m) + [Closes(k)] + after;
        var u;
        u, rest := MatchNests(after, open);
        n := Group(k, m, u);
      case Closes(k) =>
        rest := ps[1..];
        assert ps == Flat(n) + [Closes(k)] + rest;
    }
  }

  ghost predicate IsNest(ps: seq<Piece>) { exists n :: ps == Flat(n) }

  /** Matching brackets are those of a nest. */
  lemma MatchIsNest(ps: seq<Piece>)
    ensures Match(ps, []) <==> IsNest(ps)
  {
    if Match(ps, []) {
      var n, rest := MatchNests(ps, []);
    }
    forall n | ps == Flat(n) ensures Match(ps, []) {
      NestMatches(n, [], []);
      assert Flat(n) + [] == ps;
    }
  }

  ghost function Kinds(m: Machine): (r: seq<Kind>)
    requires Valid(m)
  {
    seq(|m.open|, i requires 0 <= i < |m.open| => m.toks[m.open[i]].kind)
  }

  /** One iteration takes exactly what comes first, and fails where it is malformed, does not match or has no room. */
  lemma StepFirst(js: string, m: Machine, cap: nat)
    requires Valid(m) && !AtEnd(js, m.pos) && Valid(Step(js, m, cap).m)
    ensures var r, f, ks := Step(js, m, cap), FirstAt(js, m.pos), Kinds(m);
      && (r.More? ==> !f.Malformed? && r.m.pos == f.next)
      && match f
         case Malformed => r.Done?
         case Gap(_) => r.More? && |r.m.toks| == |m.toks| && Kinds(r.m) == ks
         case Piece(Word, _) => if |m.toks| >= cap then r.Done? else r.More? && |r.m.toks| == |m.toks| + 1 && Kinds(r.m) == ks
         case Piece(Opens(k), _) => if |m.toks| >= cap then r.Done? else r.More? && |r.m.toks| == |m.toks| + 1 && Kinds(r.m) == ks + [k]
         case Piece(Closes(k), _) =>
           if ks == [] || ks[|ks| - 1] != k then r.Done?
           else r.More? && |r.m.toks| == |m.toks| && Kinds(r.m) == ks[..|ks| - 1]
  {
    hide StringEnd, PrimitiveEnd, HexEnd, Valid, Kinds;
    var c, r := js[m.pos], Step(js, m, cap);
    KindsLast(m);
    if c == '{' || c == '[' {
      if r.More? { EnterKinds(m, cap, if c == '{' then Object else Array); }
    } else if c == '}' || c == ']' {
      if r.More? { LeaveKinds(m, if c == '}' then Object else Array); }
    } else if r.More? {
      SameKinds(m, r.m);
    }
  }

  lemma KindsLast(m: Machine)
    requires Valid(m)
    ensures |Kinds(m)| == |m.open|
    ensures m.open != [] ==> m.open[|m.open| - 1] < |m.toks| && Kinds(m)[|m.open| - 1] == m.toks[m.open[|m.open| - 1]].kind
  {
  }

  lemma EnterKinds(m: Machine, cap: nat, k: Kind)
    requires Valid(m) && Valid(Enter(m, cap, k).m) && Enter(m, cap, k).More?
    ensures Kinds(Enter(m, cap, k).m) == Kinds(m) + [k]
  {
  }

  lemma LeaveKinds(m: Machine, k: Kind)
    requires Valid(m) && Valid(Leave(m, k).m) && Leave(m, k).More?
    ensures Kinds(Leave(m, k).m) == Kinds(m)[..|m.open| - 1]
  {
  }

  lemma SameKinds(m: Machine, t: Machine)
    requires Valid(m) && Valid(t) && t.open == m.open && |m.toks| <= |t.toks|
    requires forall i {:trigger t.toks[i]} :: 0 <= i < |m.toks| ==> t.toks[i].kind == m.toks[i].kind
    ensures Kinds(t) == Kinds(m)
  {
  }

  /** From any state on, a parse succeeds exactly when what follows can be scanned, closes
      exactly the open containers, and has room; it returns the number of tokens. */
  lemma {:induction false} RunAccepts(js: string, m: Machine, cap: nat)
    requires Valid(m) && |m.toks| <= cap
    ensures var r, l := Run(js, m, cap), Lex(js, m.pos);
      && (r.code >= 0 <==> l.Pieces? && Match(l.pieces, Kinds(m)) && |m.toks| + Tokens(l.pieces) <= cap)
      && (r.code >= 0 ==> r.code == |m.toks| + Tokens(l.pieces))
    decreases |js| - m.pos
  {
    hide StringEnd, PrimitiveEnd, HexEnd, Valid, Step, FirstAt, Kinds;
    if AtEnd(js, m.pos) {
      NoneOpen(m);
    } else {
      StepValid(js, m, cap);
      DoneIsError(js, m, cap);
      StepFirst(js, m, cap);
      var r, f := Step(js, m, cap), FirstAt(js, m.pos);
      if f.Piece? && Lex(js, f.next).Pieces? { FirstOff(f.piece, Lex(js, f.next).pieces); }
      if r.More? { RunAccepts(js, r.m, cap); }
    }
  }

  lemma FirstOff(p: Piece, ps: seq<Piece>)
    ensures ([p] + ps)[1..] == ps
  {
  }

  lemma NoneOpen(m: Machine)
    requires Valid(m)
    ensures Kinds(m) == [] <==> m.open == []
  {
  }

  /** The texts that are accepted: every string and primitive can be scanned, the brackets nest, and there is room. */
  lemma Accepts(js: string, cap: nat)
    ensures var r, l := Run(js, Start(), cap), Lex(js, 0);
      && (r.code >= 0 <==> l.Pieces? && IsNest(l.pieces) && Tokens(l.pieces) <= cap)
      && (r.code >= 0 ==> r.code == Tokens(l.pieces))
  {
    var l := Lex(js, 0);
    RunAccepts(js, Start(), cap);
    if l.Pieces? { MatchIsNest(l.pieces); }
    assert Kinds(Start()) == [];
  }
}
