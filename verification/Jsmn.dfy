/** The tokenizer itself: a position, the next free token and the token that the next
    value counts for, over an array of tokens that also serves as the stack. */
module Jsmn {
  import opened JsmnMachine

  /** The open tokens in the order of their indices: the stack of enclosing containers. */
  ghost function OpenIndices(toks: seq<Token>): (r: seq<nat>)
    ensures forall i :: 0 <= i < |r| ==> r[i] < |toks|
  {
    if toks == [] then []
    else
      var n := |toks| - 1;
      OpenIndices(toks[..n]) + if Open(toks[n]) then [n] else []
  }

  lemma OpenSkip(toks: seq<Token>, i: nat)
    requires i < |toks|
    ensures OpenIndices(toks[..i + 1]) == OpenIndices(toks[..i]) + if Open(toks[i]) then [i] else []
  {
    assert toks[..i + 1][..i] == toks[..i];
  }

  /** Closing the innermost open token takes it off the stack. */
  lemma {:induction false} OpenClose(toks: seq<Token>, i: nat, t: Token)
    requires i < |toks| && !Open(t) && OpenIndices(toks) == OpenIndices(toks[..i]) + [i]
    ensures OpenIndices(toks[i := t]) == OpenIndices(toks[..i])
  {
    var n := |toks| - 1;
    if i == n {
      assert toks[i := t][..n] == toks[..i];
    } else {
      assert toks[..n][..i] == toks[..i];
      assert Open(toks[n]) ==> Top(OpenIndices(toks)) == n;
      OpenClose(toks[..n], i, t);
      assert toks[i := t][..n] == toks[..n][i := t];
    }
  }

  /** Counting a value for a token does not open or close it. */
  lemma {:induction false} OpenBump(toks: seq<Token>, super: int)
    requires -1 <= super < |toks|
    ensures OpenIndices(Bump(toks, super)) == OpenIndices(toks)
  {
    if super != -1 {
      var n := |toks| - 1;
      var toks' := Bump(toks, super);
      if super == n {
        assert toks'[..n] == toks[..n];
      } else {
        OpenBump(toks[..n], super);
        assert toks'[..n] == Bump(toks[..n], super);
      }
    }
  }

  lemma OpenAdd(toks: seq<Token>, t: Token)
    ensures OpenIndices(toks + [t]) == OpenIndices(toks) + if Open(t) then [|toks|] else []
  {
    assert (toks + [t])[..|toks|] == toks;
  }

  lemma Closed(m: Machine, kind: Kind, i: nat)
    requires i < |m.toks| && m.open == OpenIndices(m.toks) == OpenIndices(m.toks[..i]) + [i] && m.toks[i].kind == kind
    ensures var toks := m.toks[i := m.toks[i].(end := m.pos + 1)];
      Leave(m, kind) == More(Machine(m.pos + 1, toks, OpenIndices(toks), Top(OpenIndices(toks[..i]))))
  {
    var t := m.toks[i].(end := m.pos + 1);
    OpenClose(m.toks, i, t);
    assert m.toks[i := t][..i] == m.toks[..i];
    assert m.open[..|m.open| - 1] == OpenIndices(m.toks[..i]);
  }

  class Parser {
    var pos: nat
    var toknext: nat
    var toksuper: int

    constructor ()
      ensures pos == 0 && toknext == 0 && toksuper == -1
    {
      pos, toknext, toksuper := 0, 0, -1;
    }

    /** What the fields and the token array stand for. */
    ghost function Abstract(tokens: array<Token>): (m: Machine)
      requires toknext <= tokens.Length
      reads this, tokens
    {
      Machine(pos, tokens[..toknext], OpenIndices(tokens[..toknext]), toksuper)
    }

    ghost predicate Ready(tokens: array<Token>, num: nat)
      reads this, tokens
    {
      toknext <= num <= tokens.Length && JsmnMachine.Valid(Abstract(tokens))
    }

    method AllocToken(tokens: array<Token>, num: nat) returns (ok: bool)
      requires num <= tokens.Length
      modifies this`toknext, tokens
      ensures ok == (old(toknext) < num)
      ensures !ok ==> toknext == old(toknext) && tokens[..] == old(tokens[..])
      ensures ok ==> toknext == old(toknext) + 1
      ensures ok ==> tokens[..] == old(tokens[..][toknext := Token(tokens[toknext].kind, -1, -1, 0)])
    {
      if toknext >= num {
        return false;
      }
      tokens[toknext] := Token(tokens[toknext].kind, -1, -1, 0);
      toknext := toknext + 1;
      return true;
    }

    /** A new token with these fields, if there is room for one. */
    method PushToken(tokens: array<Token>, num: nat, t: Token) returns (ok: bool)
      requires toknext <= num <= tokens.Length
      modifies this`toknext, tokens
      ensures ok == (old(toknext) < num)
      ensures !ok ==> toknext == old(toknext) && tokens[..] == old(tokens[..])
      ensures ok ==> toknext == old(toknext) + 1 && tokens[..toknext] == old(tokens[..toknext]) + [t]
    {
      ok := AllocToken(tokens, num);
      if ok {
        tokens[toknext - 1] := t;
      }
    }

    method ParsePrimitive(js: string, tokens: array?<Token>, num: nat) returns (r: int)
      requires tokens != null ==> toknext <= num <= tokens.Length
      requires !AtEnd(js, pos) && !Delimiter(js[pos])
      modifies this`pos, this`toknext, tokens
      ensures var s := PrimitiveEnd(js, old(pos));
        && (r < 0 ==> pos == old(pos) && toknext == old(toknext) && (tokens != null ==> tokens[..] == old(tokens[..])))
        && (s.Bad? ==> r == INVAL)
        && (s.Found? && tokens != null && old(toknext) >= num ==> r == NOMEM)
        && (s.Found? && (tokens == null || old(toknext) < num) ==> r == 0 && pos == s.at - 1)
        && (r == 0 && tokens == null ==> toknext == old(toknext))
        && (r == 0 && tokens != null ==> toknext == old(toknext) + 1 <= num)
        && (r == 0 && tokens != null ==> tokens[..toknext] == old(tokens[..toknext]) + [Token(Primitive, old(pos), s.at, 0)])
    {
      var start := pos;
      while !AtEnd(js, pos) && !Delimiter(js[pos])
        invariant start <= pos && PrimitiveEnd(js, pos) == PrimitiveEnd(js, start)
        invariant pos == start ==> !AtEnd(js, pos) && !Delimiter(js[pos])
        decreases |js| - pos
        modifies this`pos
      {
        if !Printable(js[pos]) {
          pos := start;
          return INVAL;
        }
        pos := pos + 1;
      }
      if tokens == null {
        pos := pos - 1;
        return 0;
      }
      var ok := PushToken(tokens, num, Token(Primitive, start, pos, 0));
      if !ok {
        pos := start;
        return NOMEM;
      }
      pos := pos - 1;
      return 0;
    }

    /** Up to four hexadecimal digits. */
    method SkipHex(js: string) returns (ok: bool)
      modifies this`pos
      ensures ok == HexEnd(js, old(pos), 4).Found?
      ensures ok ==> HexEnd(js, old(pos), 4) == Found(pos)
    {
      ghost var p := pos;
      var i := 0;
      while i < 4 && !AtEnd(js, pos)
        invariant 0 <= i <= 4 && HexEnd(js, pos, 4 - i) == HexEnd(js, p, 4)
      {
        if !HexDigit(js[pos]) {
          return false;
        }
        pos := pos + 1;
        i := i + 1;
      }
      return true;
    }

    method ParseString(js: string, tokens: array?<Token>, num: nat) returns (r: int)
      requires tokens != null ==> toknext <= num <= tokens.Length
      modifies this`pos, this`toknext, tokens
      ensures var s := StringEnd(js, old(pos) + 1);
        && (r < 0 ==> pos == old(pos) && toknext == old(toknext) && (tokens != null ==> tokens[..] == old(tokens[..])))
        && (s.Bad? ==> r == INVAL) && (s.Unfinished? ==> r == PART)
        && (s.Found? && tokens != null && old(toknext) >= num ==> r == NOMEM)
        && (s.Found? && (tokens == null || old(toknext) < num) ==> r == 0 && pos == s.at)
        && (r == 0 && tokens == null ==> toknext == old(toknext))
        && (r == 0 && tokens != null ==> toknext == old(toknext) + 1 <= num)
        && (r == 0 && tokens != null ==> tokens[..toknext] == old(tokens[..toknext]) + [Token(String, old(pos) + 1, s.at, 0)])
    {
      hide HexEnd, PrimitiveEnd;
      var start := pos;
      pos := pos + 1;
      while !AtEnd(js, pos)
        invariant StringEnd(js, pos) == StringEnd(js, start + 1)
        decreases |js| - pos
        modifies this`pos, this`toknext, tokens
        invariant toknext == old(toknext) && (tokens != null ==> tokens[..] == old(tokens[..]))
      {
        var c := js[pos];
        if c == '\"' {
          if tokens == null {
            return 0;
          }
          var ok := PushToken(tokens, num, Token(String, start + 1, pos, 0));
          if !ok {
            pos := start;
            return NOMEM;
          }
          return 0;
        }
        if c == '\\' && pos + 1 < |js| {
          pos := pos + 1;
          if js[pos] == 'u' {
            pos := pos + 1;
            var ok := SkipHex(js);
            if !ok {
              pos := start;
              return INVAL;
            }
            pos := pos - 1;
          } else if !SimpleEscape(js[pos]) {
            pos := start;
            return INVAL;
          }
        }
        pos := pos + 1;
      }
      pos := start;
      return PART;
    }

    /** A value has been completed: it counts for toksuper. */
    method CountValue(tokens: array<Token>, num: nat)
      requires -1 <= toksuper < toknext <= num <= tokens.Length
      modifies tokens
      ensures tokens[..toknext] == Bump(old(tokens[..toknext]), toksuper)
    {
      if toksuper != -1 {
        tokens[toksuper] := tokens[toksuper].(size := tokens[toksuper].size + 1);
      }
    }

    method EnterContainer(tokens: array<Token>, num: nat, kind: Kind) returns (ok: bool)
      requires Ready(tokens, num) && Container(kind)
      modifies this`toknext, this`toksuper, tokens
      ensures ok ==> toknext == old(toknext) + 1
      ensures ok == Enter(old(Abstract(tokens)), num, kind).More?
      ensures toknext <= num
      ensures Abstract(tokens).(pos := Enter(old(Abstract(tokens)), num, kind).m.pos) == Enter(old(Abstract(tokens)), num, kind).m
    {
      ghost var m := Abstract(tokens);
      ok := AllocToken(tokens, num);
      if !ok {
        return;
      }
      ghost var t := tokens[toknext - 1];
      assert tokens[..toknext] == m.toks + [t];
      CountValue(tokens, num);
      assert tokens[..toknext] == Bump(m.toks, m.super) + [t];
      tokens[toknext - 1] := Token(kind, pos, -1, 0);
      toksuper := toknext - 1;
      assert tokens[..toknext] == Bump(m.toks, m.super) + [Token(kind, pos, -1, 0)];
      OpenBump(m.toks, m.super);
      OpenAdd(Bump(m.toks, m.super), Token(kind, pos, -1, 0));
    }

    /** The innermost open container before index from, or -1. */
    method FindOpen(tokens: array<Token>, from: int) returns (i: int)
      requires 0 <= from <= toknext <= tokens.Length
      ensures -1 <= i < from && i == Top(OpenIndices(tokens[..from]))
      ensures i >= 0 ==> Open(tokens[i]) && OpenIndices(tokens[..from]) == OpenIndices(tokens[..i]) + [i]
      ensures i == -1 <==> OpenIndices(tokens[..from]) == []
    {
      i := from - 1;
      while i >= 0
        invariant -1 <= i < from && OpenIndices(tokens[..from]) == OpenIndices(tokens[..i + 1])
      {
        OpenSkip(tokens[..], i);
        assert tokens[..][..i + 1] == tokens[..i + 1] && tokens[..][..i] == tokens[..i];
        if Open(tokens[i]) {
          return;
        }
        i := i - 1;
      }
    }

    method LeaveContainer(tokens: array<Token>, num: nat, kind: Kind) returns (ok: bool)
      requires Ready(tokens, num)
      modifies this`toksuper, tokens
      ensures ok == Leave(old(Abstract(tokens)), kind).More?
      ensures toknext <= tokens.Length
      ensures Abstract(tokens).(pos := Leave(old(Abstract(tokens)), kind).m.pos) == Leave(old(Abstract(tokens)), kind).m
    {
      hide JsmnMachine.Valid, OpenIndices;
      ghost var m := Abstract(tokens);
      var i := FindOpen(tokens, toknext);
      if i == -1 || tokens[i].kind != kind {
        return false;
      }
      assert tokens[..i] == m.toks[..i];
      toksuper := -1;
      tokens[i] := tokens[i].(end := pos + 1);
      assert tokens[..toknext] == m.toks[i := m.toks[i].(end := pos + 1)] && tokens[..i] == m.toks[..i];
      Closed(m, kind, i);
      toksuper := FindOpen(tokens, i);
      return true;
    }

    /** Back from a key to the innermost container. */
    method LeaveKey(tokens: array<Token>, num: nat)
      requires Ready(tokens, num)
      modifies this`toksuper
      ensures toksuper == AfterComma(old(Abstract(tokens)))
    {
      if toksuper != -1 && !Container(tokens[toksuper].kind) {
        ghost var m := Abstract(tokens);
        var i := FindOpenContainer(tokens, num);
        if i != -1 {
          toksuper := i;
        }
      }
    }

    /** The same search, which here also looks at the kind. */
    method FindOpenContainer(tokens: array<Token>, num: nat) returns (i: int)
      requires Ready(tokens, num)
      ensures i == Top(Abstract(tokens).open) && (i == -1 <==> Abstract(tokens).open == [])
    {
      i := toknext - 1;
      while i >= 0
        invariant -1 <= i < toknext && OpenIndices(tokens[..toknext]) == OpenIndices(tokens[..i + 1])
      {
        OpenSkip(tokens[..], i);
        assert tokens[..][..i + 1] == tokens[..i + 1] && tokens[..][..i] == tokens[..i];
        assert tokens[i] == tokens[..toknext][i];
        if Container(tokens[i].kind) {
          if Open(tokens[i]) {
            return;
          }
        }
        i := i - 1;
      }
    }

    /** A string or primitive at pos, pushed and counted. */
    method ParseScalar(js: string, tokens: array<Token>, num: nat) returns (r: int)
      requires Ready(tokens, num) && !AtEnd(js, pos) && (js[pos] == '\"' || !Delimiter(js[pos]))
      requires js[pos] !in "{}[]"
      modifies this`pos, this`toknext, tokens
      ensures var a := Step(js, old(Abstract(tokens)), num);
        && (if a.Done? then r == a.code < 0 else r == 0)
        && toknext <= num && (r == 0 ==> toknext == old(toknext) + 1)
        && a.m == if a.Done? then Abstract(tokens) else Abstract(tokens).(pos := pos + 1)
    {
      hide StringEnd, PrimitiveEnd, OpenIndices;
      ghost var m := Abstract(tokens);
      if js[pos] == '\"' {
        r := ParseString(js, tokens, num);
      } else {
        r := ParsePrimitive(js, tokens, num);
      }
      if r < 0 {
        assert tokens[..toknext] == m.toks;
        return;
      }
      ghost var t := tokens[toknext - 1];
      assert tokens[..toknext] == m.toks + [t];
      CountValue(tokens, num);
      assert tokens[..toknext] == Bump(m.toks, m.super) + [t];
      OpenBump(m.toks, m.super);
      OpenAdd(Bump(m.toks, m.super), t);
    }

    /** One iteration over a token array; the position is left on the last character used. */
    method ParseChar(js: string, tokens: array<Token>, num: nat) returns (r: int, n: nat)
      requires Ready(tokens, num) && !AtEnd(js, pos)
      modifies this, tokens
      ensures var a := Step(js, old(Abstract(tokens)), num);
        && (if a.Done? then r == a.code < 0 else r == 0)
        && toknext <= num && (r == 0 ==> toknext == old(toknext) + n)
        && a.m == if a.Done? then Abstract(tokens) else Abstract(tokens).(pos := pos + 1)
    {
      hide StringEnd, PrimitiveEnd, OpenIndices;
      var c := js[pos];
      n := 0;
      if c == '{' || c == '[' {
        var ok := EnterContainer(tokens, num, if c == '{' then Object else Array);
        return if ok then 0 else NOMEM, 1;
      } else if c == '}' || c == ']' {
        var ok := LeaveContainer(tokens, num, if c == '}' then Object else Array);
        return if ok then 0 else INVAL, 0;
      } else if Space(c) {
        return 0, 0;
      } else if c == ':' {
        toksuper := toknext - 1;
        return 0, 0;
      } else if c == ',' {
        LeaveKey(tokens, num);
        return 0, 0;
      } else {
        r := ParseScalar(js, tokens, num);
        n := 1;
      }
    }

    /** One iteration without a token array: only what counts as a token is found. */
    method CountChar(js: string) returns (r: int, n: nat)
      requires !AtEnd(js, pos)
      modifies this`pos, this`toknext, this`toksuper
      ensures toknext == old(toknext) && n <= 1
      ensures r >= 0 ==> forall k: int :: old(Count(js, pos, k, toksuper, toknext)) == Count(js, pos + 1, k + n, toksuper, toknext)
      ensures r < 0 ==> forall k: int :: old(Count(js, pos, k, toksuper, toknext)) == Tally(pos, toksuper, r)
      ensures r >= 0 ==> pos >= old(pos)
    {
      hide StringEnd, PrimitiveEnd;
      var c := js[pos];
      r, n := 0, 0;
      if c == '{' || c == '[' {
        n := 1;
      } else if c == ':' {
        toksuper := toknext - 1;
      } else if c == '\"' {
        r := ParseString(js, null, 0);
        n := 1;
      } else if !Delimiter(c) {
        r := ParsePrimitive(js, null, 0);
        n := 1;
      }
    }

    /** The whole parse, with an array of tokens or, to count them, without one. */
    method Parse(js: string, tokens: array?<Token>, num: nat) returns (r: int)
      requires tokens != null ==> Ready(tokens, num)
      modifies this, tokens
      ensures tokens != null ==> Ready(tokens, num) && Run(js, old(Abstract(tokens)), num) == Done(Abstract(tokens), r)
      ensures tokens == null ==> toknext == old(toknext)
      ensures tokens == null ==> old(Count(js, pos, toknext, toksuper, toknext)) == Tally(pos, toksuper, r)
    {
      hide JsmnMachine.Valid, Step, OpenIndices;
      var count := toknext;
      while !AtEnd(js, pos)
        invariant tokens != null ==> Ready(tokens, num) && count == toknext
        invariant tokens != null ==> Run(js, old(Abstract(tokens)), num) == Run(js, Abstract(tokens), num)
        invariant tokens == null ==> toknext == old(toknext)
        invariant tokens == null ==> old(Count(js, pos, toknext, toksuper, toknext)) == Count(js, pos, count, toksuper, toknext)
        decreases |js| - pos
      {
        var n;
        if tokens != null {
          StepValid(js, Abstract(tokens), num);
          r, n := ParseChar(js, tokens, num);
        } else {
          r, n := CountChar(js);
        }
        if r < 0 {
          return;
        }
        count := count + n;
        pos := pos + 1;
      }
      if tokens != null {
        var i := FindOpen(tokens, toknext);
        if i != -1 {
          return PART;
        }
      }
      return count;
    }
  }
}
