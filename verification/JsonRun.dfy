/** What the tokenizer makes of a well-formed JSON text. */
module JsonRun {
  import opened JsmnMachine
  import opened JsonText

  lemma OneStep(js: string, m: Machine, cap: nat)
    requires Valid(m) && !AtEnd(js, m.pos) && Step(js, m, cap).More?
    ensures var m' := Step(js, m, cap).m; Valid(m') && Run(js, m, cap) == Run(js, m', cap)
  {
    StepValid(js, m, cap);
  }

  lemma {:induction false} SpacesRun(js: string, m: Machine, cap: nat, ws: string)
    requires Valid(m) && Spaces(ws) && At(js, m.pos, ws)
    ensures var m' := m.(pos := m.pos + |ws|); Valid(m') && Run(js, m, cap) == Run(js, m', cap)
    decreases |ws|
  {
    hide Run;
    if ws != [] {
      AtChar(js, m.pos, ws, 0);
      OneStep(js, m, cap);
      assert ws == ws[..1] + ws[1..];
      AtConcat(js, m.pos, ws[..1], ws[1..]);
      SpacesRun(js, m.(pos := m.pos + 1), cap, ws[1..]);
    }
  }

  /** The machine after one more token that is complete. */
  function AfterScalar(m: Machine, t: Token, pos: nat): (r: Machine)
    requires -1 <= m.super < |m.toks|
  {
    m.(pos := pos, toks := Bump(m.toks, m.super) + [t])
  }

  lemma StringRun(js: string, m: Machine, cap: nat, s: string)
    requires Valid(m) && GoodBody(s) && QuotedAt(js, m.pos, s) && |m.toks| < cap
    ensures var m' := AfterScalar(m, Token(String, m.pos + 1, m.pos + 1 + |s|, 0), m.pos + |s| + 2);
      Valid(m') && Run(js, m, cap) == Run(js, m', cap)
  {
    hide Run;
    BodyEnds(js, m.pos + 1, s);
    OneStep(js, m, cap);
  }

  lemma WordRun(js: string, m: Machine, cap: nat, w: string)
    requires Valid(m) && GoodWord(w) && At(js, m.pos, w) && Follows(js, m.pos + |w|) && |m.toks| < cap
    ensures var m' := AfterScalar(m, Token(Primitive, m.pos, m.pos + |w|, 0), m.pos + |w|);
      Valid(m') && Run(js, m, cap) == Run(js, m', cap)
  {
    hide Run;
    AtChar(js, m.pos, w, 0);
    WordEnds(js, m.pos, w);
    OneStep(js, m, cap);
  }

  // ---------- keys ----------

  function AfterTag(m: Machine, tag: Tag): (r: Machine)
    requires -1 <= m.super < |m.toks|
  {
    if tag.NoKey? then m
    else Machine(m.pos + |TagText(tag)|,
                 Bump(m.toks, m.super) + [Token(String, m.pos + 1, m.pos + 1 + |tag.key|, 0)], m.open, |m.toks|)
  }

  lemma TagRun(js: string, m: Machine, cap: nat, tag: Tag)
    requires Valid(m) && At(js, m.pos, TagText(tag)) && |m.toks| < cap
    requires tag.Key? ==> GoodBody(tag.key) && Spaces(tag.gap1) && Spaces(tag.gap2)
    ensures Valid(AfterTag(m, tag)) && Run(js, m, cap) == Run(js, AfterTag(m, tag), cap)
  {
    hide Run, Step, At, GoodBody, Spaces;
    if tag.Key? {
      TagParts(js, m.pos, tag);
      StringRun(js, m, cap, tag.key);
      var m1 := AfterScalar(m, Token(String, m.pos + 1, m.pos + 1 + |tag.key|, 0), m.pos + |tag.key| + 2);
      SpacesRun(js, m1, cap, tag.gap1);
      var m2 := m1.(pos := m1.pos + |tag.gap1|);
      ColonRun(js, m2, cap);
      var m3 := m2.(pos := m2.pos + 1, super := |m2.toks| - 1);
      SpacesRun(js, m3, cap, tag.gap2);
    }
  }

  lemma ColonRun(js: string, m: Machine, cap: nat)
    requires Valid(m) && At(js, m.pos, [':'])
    ensures var m' := m.(pos := m.pos + 1, super := |m.toks| - 1); Valid(m') && Run(js, m, cap) == Run(js, m', cap)
  {
    hide Run;
    AtChar(js, m.pos, [':'], 0);
    OneStep(js, m, cap);
  }

  // ---------- values and their items ----------

  /** A container, once closed, counts as the next thing inside the container around it. */
  function AfterValue(m: Machine, v: Value): (r: Machine)
    requires -1 <= m.super < |m.toks|
  {
    Machine(m.pos + |Text(v)|, Bump(m.toks, m.super) + Tokens(v, m.pos), m.open, if v.Nest? then Top(m.open) else m.super)
  }

  /** The machine after the closing bracket of the innermost container. */
  function AfterClose(m: Machine, items: Items): (r: Machine)
    requires m.open != [] && m.open[|m.open| - 1] < |m.toks|
  {
    var top, rest := m.open[|m.open| - 1], m.open[..|m.open| - 1];
    var pos, t := m.pos + |ItemsText(items)| + 1, m.toks[top];
    Machine(pos, m.toks[top := t.(size := t.size + Length(items), end := pos)] + ItemsTokens(items, m.pos), rest, Top(rest))
  }

  lemma {:induction false} ValueRun(js: string, m: Machine, cap: nat, v: Value)
    requires Valid(m) && GoodValue(v) && At(js, m.pos, Text(v)) && |m.toks| + |Tokens(v, m.pos)| <= cap
    requires v.Word? ==> Follows(js, m.pos + |Text(v)|)
    ensures Valid(AfterValue(m, v)) && Run(js, m, cap) == Run(js, AfterValue(m, v), cap)
    decreases v
  {
    hide Run, Step, At, ItemsText, GoodBody, GoodWord, Spaces, ItemsTokens, TagText;
    match v
    case Word(w) => WordRun(js, m, cap, w);
    case Quoted(s) =>
      QuotedParts(js, m.pos, s);
      StringRun(js, m, cap, s);
    case Nest(braces, gap, items) =>
      NestParts(js, m.pos, v);
      var m1 := EnterRun(js, m, cap, braces);
      SpacesRun(js, m1, cap, gap);
      var m2 := m1.(pos := m1.pos + |gap|);
      ItemsRun(js, m2, cap, items, braces);
      NestClosed(m, m2, v);
  }

  lemma EnterRun(js: string, m: Machine, cap: nat, braces: bool) returns (r: Machine)
    requires Valid(m) && At(js, m.pos, [if braces then '{' else '[']) && |m.toks| < cap
    ensures Valid(r) && Run(js, m, cap) == Run(js, r, cap)
    ensures r == Machine(m.pos + 1, Bump(m.toks, m.super) + [Token(KindOf(braces), m.pos, -1, 0)], m.open + [|m.toks|], |m.toks|)
  {
    hide Run;
    AtChar(js, m.pos, [if braces then '{' else '['], 0);
    OneStep(js, m, cap);
    r := Step(js, m, cap).m;
  }

  lemma Assoc<T>(a: seq<T>, b: seq<T>, c: seq<T>)
    ensures (a + b) + c == a + (b + c)
  {
  }

  lemma NestClosed(m: Machine, m2: Machine, v: Value)
    requires Valid(m) && v.Nest? && m2.pos == m.pos + 1 + |v.gap| && m2.open == m.open + [|m.toks|]
    requires m2.toks == Bump(m.toks, m.super) + [Token(KindOf(v.braces), m.pos, -1, 0)]
    ensures AfterClose(m2, v.items) == AfterValue(m, v)
  {
    hide ItemsText, ItemsTokens, Bump, Length;
    assert m2.open[..|m2.open| - 1] == m.open;
    var t := Token(KindOf(v.braces), m.pos, m.pos + |Text(v)|, Length(v.items));
    ReplaceLast(Bump(m.toks, m.super), Token(KindOf(v.braces), m.pos, -1, 0), t);
    Assoc(Bump(m.toks, m.super), [t], ItemsTokens(v.items, m2.pos));
  }

  lemma ReplaceLast<T>(s: seq<T>, t: T, u: T)
    ensures (s + [t])[|s| := u] == s + [u]
  {
  }

  /** One item up to what follows it. */
  lemma {:induction false} ItemRun(js: string, m: Machine, cap: nat, items: Items, braces: bool) returns (r: Machine)
    requires Valid(m) && m.open != [] && m.super == Top(m.open) && items.Item? && GoodItems(items, braces)
    requires At(js, m.pos, TagText(items.tag)) && At(js, m.pos + |TagText(items.tag)|, Text(items.value))
    requires var q := m.pos + |TagText(items.tag)| + |Text(items.value)|; Follows(js, q) && At(js, q, items.after)
    requires |m.toks| + |ItemsTokens(items, m.pos)| <= cap
    ensures Valid(r) && Run(js, m, cap) == Run(js, r, cap)
    ensures r.pos == m.pos + |TagText(items.tag)| + |Text(items.value)| + |items.after|
    ensures r.toks == Bump(m.toks, m.super) + TagTokens(items.tag, m.pos) + Tokens(items.value, m.pos + |TagText(items.tag)|)
    ensures |r.toks| + |ItemsTokens(items.rest, r.pos + |CommaText(items)|)| <= cap
    ensures r.open == m.open && r.toks[m.super].kind == m.toks[m.super].kind
    ensures r.super == m.super || (r.super != -1 && !Container(r.toks[r.super].kind))
    decreases items, 0
  {
    hide Run, Step, ItemsText, Text, GoodBody, At, Tokens, Bump, Spaces, TagTokens, TagText;
    TagRoom(m, items, cap);
    TagRun(js, m, cap, items.tag);
    var m1 := AfterTag(m, items.tag);
    ValueRun(js, m1, cap, items.value);
    var m2 := AfterValue(m1, items.value);
    SpacesRun(js, m2, cap, items.after);
    r := m2.(pos := m2.pos + |items.after|);
    ItemDone(m, items);
  }

  lemma {:induction false} ItemsRun(js: string, m: Machine, cap: nat, items: Items, braces: bool)
    requires Valid(m) && m.open != [] && m.toks[Top(m.open)].kind == KindOf(braces)
    requires GoodItems(items, braces) && (items.Item? ==> m.super == Top(m.open))
    requires At(js, m.pos, ItemsText(items)) && At(js, m.pos + |ItemsText(items)|, [Closer(braces)])
    requires |m.toks| + |ItemsTokens(items, m.pos)| <= cap
    ensures Valid(AfterClose(m, items)) && Run(js, m, cap) == Run(js, AfterClose(m, items), cap)
    decreases items, 1
  {
    hide Run, Step, Text, ItemsText, Tokens, TagTokens, ItemsTokens, At, GoodBody, GoodValue, Bump, Spaces, Valid, AfterClose;
    if items.Nil? {
      NilText();
      CloseRun(js, m, cap, braces);
    } else {
      ItemParts(js, m.pos, items);
      Followed(js, m.pos, items, braces);
      var r := ItemRun(js, m, cap, items, braces);
      if items.rest.Nil? {
        NilText();
        CloseRun(js, r, cap, braces);
      } else {
        CommaRun(js, r, cap, Top(m.open), items.before);
        r := r.(pos := r.pos + 1 + |items.before|, super := Top(m.open));
        ItemsRun(js, r, cap, items.rest, braces);
      }
      ItemsJoin(m, r, items);
    }
  }

  /** White space, a comma or a closing bracket follows the value of an item. */
  lemma Followed(js: string, p: nat, items: Items, braces: bool)
    requires items.Item? && Spaces(items.after)
    requires At(js, p, ItemsText(items)) && At(js, p + |ItemsText(items)|, [Closer(braces)])
    ensures Follows(js, p + |TagText(items.tag)| + |Text(items.value)|)
  {
    hide At, Text, TagText, ItemsText;
    ItemParts(js, p, items);
    var r := p + |TagText(items.tag)| + |Text(items.value)|;
    if items.after != [] {
      AtChar(js, r, items.after, 0);
    } else if items.rest.Item? {
      AtChar(js, r, CommaText(items), 0);
    } else {
      NilText();
      AtChar(js, r, [Closer(braces)], 0);
    }
  }

  lemma NilText()
    ensures ItemsText(Nil) == []
  {
  }

  lemma CloseRun(js: string, m: Machine, cap: nat, braces: bool)
    requires Valid(m) && m.open != [] && m.toks[Top(m.open)].kind == KindOf(braces) && At(js, m.pos, [Closer(braces)])
    ensures Valid(AfterClose(m, Nil)) && Run(js, m, cap) == Run(js, AfterClose(m, Nil), cap)
  {
    hide Run;
    AtChar(js, m.pos, [Closer(braces)], 0);
    OneStep(js, m, cap);
    assert AfterClose(m, Nil) == Step(js, m, cap).m;
  }

  /** After a comma the innermost container counts again. */
  lemma CommaRun(js: string, m: Machine, cap: nat, top: int, before: string)
    requires Valid(m) && m.open != [] && top == Top(m.open) && At(js, m.pos, [','] + before) && Spaces(before)
    requires m.super == top || (m.super != -1 && !Container(m.toks[m.super].kind))
    ensures var m' := m.(pos := m.pos + 1 + |before|, super := top); Valid(m') && Run(js, m, cap) == Run(js, m', cap)
  {
    hide Run;
    AtConcat(js, m.pos, [','], before);
    AtChar(js, m.pos, [','], 0);
    assert Open(m.toks[top]);
    OneStep(js, m, cap);
    var m1 := m.(pos := m.pos + 1, super := top);
    assert m1 == Step(js, m, cap).m;
    SpacesRun(js, m1, cap, before);
  }

  lemma TagRoom(m: Machine, items: Items, cap: nat)
    requires Valid(m) && items.Item? && |m.toks| + |ItemsTokens(items, m.pos)| <= cap
    ensures var m1 := AfterTag(m, items.tag);
      var n, p := |m1.toks| + |Tokens(items.value, m1.pos)|, m1.pos + |Text(items.value)| + |items.after| + |CommaText(items)|;
      && m1.pos == m.pos + |TagText(items.tag)| && m1.open == m.open
      && n + |ItemsTokens(items.rest, p)| <= cap && |m.toks| < cap
  {
    hide Text, Tokens, Bump, CommaText;
  }

  /** What one item leaves behind, whether it has a key or not. */
  lemma ItemDone(m: Machine, items: Items)
    requires Valid(m) && items.Item? && m.open != [] && m.super == Top(m.open)
    ensures var m1 := AfterTag(m, items.tag);
      -1 <= m1.super < |m1.toks| && 
      var m2 := AfterValue(m1, items.value);
      && m2.toks == Bump(m.toks, m.super) + TagTokens(items.tag, m.pos) + Tokens(items.value, m.pos + |TagText(items.tag)|)
      && m2.open == m.open && m2.toks[m.super].kind == m.toks[m.super].kind
      && (m2.super == m.super || (m2.super != -1 && m2.super < |m2.toks| && !Container(m2.toks[m2.super].kind)))
  {
    hide Text, Tokens, ItemsText, Open;
    if items.tag.Key? {
      var t := Token(String, m.pos + 1, m.pos + 1 + |items.tag.key|, 0);
      ReplaceLast(Bump(m.toks, m.super), t, t.(size := 1));
    } else {
      assert Bump(m.toks, m.super) + [] == Bump(m.toks, m.super);
    }
  }

  /** An item and the rest of the items make up the whole. */
  lemma ItemsJoin(m: Machine, m4: Machine, items: Items)
    requires Valid(m) && items.Item? && m.open != [] && m.super == Top(m.open)
    requires m4.open == m.open
    requires var q := m.pos + |TagText(items.tag)|;
      && m4.toks == Bump(m.toks, m.super) + TagTokens(items.tag, m.pos) + Tokens(items.value, q)
      && m4.pos == q + |Text(items.value)| + |items.after| + |CommaText(items)|
    ensures AfterClose(m4, items.rest) == AfterClose(m, items)
  {
    hide TagTokens, Tokens, Text, TagText, CommaText;
    var x, z := TagTokens(items.tag, m.pos), Tokens(items.value, m.pos + |TagText(items.tag)|);
    var t := AfterClose(m, items).toks[m.super];
    Joined(Bump(m.toks, m.super), x, z, ItemsTokens(items.rest, m4.pos), m.super, t);
    assert Bump(m.toks, m.super)[m.super := t] == m.toks[m.super := t];
  }

  lemma Joined<T>(s: seq<T>, x: seq<T>, y: seq<T>, z: seq<T>, i: nat, t: T)
    requires i < |s|
    ensures (s + x + y)[i := t] + z == s[i := t] + (x + y + z)
  {
    assert (s + x + y)[i := t] == s[i := t] + x + y;
    Assoc(s[i := t], x, y);
    Assoc(s[i := t], x + y, z);
  }

  // ---------- whole texts ----------

  /** White space, a value, white space: the tokens are those of the value, in preorder,
      with their exact spans and sizes, and nothing stays open. */
  lemma TextTokens(js: string, cap: nat, before: string, v: Value, after: string)
    requires GoodValue(v) && Spaces(before) && Spaces(after) && js == before + Text(v) + after
    requires |Tokens(v, |before|)| <= cap
    ensures var r, toks := Run(js, Start(), cap), Tokens(v, |before|);
      r.code == |toks| && r.m.toks == toks && r.m.open == [] && r.m.pos == |js|
  {
    hide Step, Text, At, Bump, GoodValue;
    Spelled(js, before, v, after);
    FollowsValue(js, before, v, after);
    var m := Start();
    SpacesRun(js, m, cap, before);
    var m1 := m.(pos := |before|);
    ValueRun(js, m1, cap, v);
    var m2 := AfterValue(m1, v);
    SpacesRun(js, m2, cap, after);
    var m3 := m2.(pos := m2.pos + |after|);
    assert [] + Tokens(v, |before|) == Tokens(v, |before|);
    assert Run(js, m3, cap) == Done(m3, |m3.toks|);
  }

  lemma Spelled(js: string, before: string, v: Value, after: string)
    requires js == before + Text(v) + after
    ensures At(js, 0, before) && At(js, |before|, Text(v)) && At(js, |before| + |Text(v)|, after)
    ensures |js| == |before| + |Text(v)| + |after|
  {
    hide Text;
    assert At(js, 0, js);
    AtConcat(js, 0, before + Text(v), after);
    AtConcat(js, 0, before, Text(v));
  }

  lemma FollowsValue(js: string, before: string, v: Value, after: string)
    requires Spaces(after) && js == before + Text(v) + after
    ensures Follows(js, |before| + |Text(v)|)
  {
    hide Text;
    Spelled(js, before, v, after);
    if after != [] { AtChar(js, |before| + |Text(v)|, after, 0); }
  }

  /** With too little room the parse reports it; the counting pass tells how much is enough. */
  lemma TextRoom(js: string, cap: nat, before: string, v: Value, after: string, next: nat)
    requires GoodValue(v) && Spaces(before) && Spaces(after) && js == before + Text(v) + after
    ensures var n := |Tokens(v, |before|)|;
      && Run(js, Start(), cap).code == (if n <= cap then n else NOMEM)
      && Count(js, 0, 0, -1, next).code == n
  {
    var n := |Tokens(v, |before|)|;
    TextTokens(js, n, before, v, after);
    CountThenFill(js, Start(), n, -1, next);
    if n <= cap {
      TextTokens(js, cap, before, v, after);
    } else {
      WithinCapacity(js, Start(), cap);
      Resume(js, Start(), cap, n);
    }
  }
}
