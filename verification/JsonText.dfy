/** JSON texts as section 2 of RFC 8259 writes them, white space included, and the
    tokens that the tokenizer promises for them. */
module JsonText {
  import opened JsmnMachine

  /** A value with its spelling.  A string's body is what stands between its quotes. */
  datatype Value =
    | Word(text: string)
    | Quoted(body: string)
    | Nest(braces: bool, gap: string, items: Items)

  /** The elements of an array or the members of an object; a comma follows each but the last. */
  datatype Items = Nil | Item(tag: Tag, value: Value, after: string, before: string, rest: Items)

  /** An object's member has a key, and white space on either side of the colon. */
  datatype Tag = NoKey | Key(key: string, gap1: string, gap2: string)

  // ---------- what is well formed ----------

  predicate Spaces(ws: string) { forall i :: 0 <= i < |ws| ==> Space(ws[i]) }

  /** Numbers and the three literal names, and any other word of printable characters. */
  predicate GoodWord(w: string) {
    && w != [] && w[0] != '{' && w[0] != '[' && w[0] != '\"'
    && forall i :: 0 <= i < |w| ==> Printable(w[i]) && !Delimiter(w[i])
  }

  /** The characters of section 7: escapes are complete, and neither a quote nor a NUL stands alone. */
  predicate GoodBody(s: string)
    decreases |s|
  {
    s == [] ||
    if s[0] == '\\' then
      && |s| >= 2
      && (if s[1] == 'u' then
            |s| >= 6 && HexDigit(s[2]) && HexDigit(s[3]) && HexDigit(s[4]) && HexDigit(s[5]) && GoodBody(s[6..])
          else SimpleEscape(s[1]) && GoodBody(s[2..]))
    else s[0] != '\"' && s[0] != '\0' && GoodBody(s[1..])
  }

  predicate GoodValue(v: Value) {
    match v
    case Word(w) => GoodWord(w)
    case Quoted(s) => GoodBody(s)
    case Nest(braces, gap, items) => Spaces(gap) && GoodItems(items, braces)
  }

  predicate GoodItems(items: Items, braces: bool) {
    match items
    case Nil => true
    case Item(tag, v, after, before, rest) =>
      && (if braces then tag.Key? && GoodBody(tag.key) && Spaces(tag.gap1) && Spaces(tag.gap2) else tag.NoKey?)
      && GoodValue(v) && Spaces(after) && Spaces(before) && GoodItems(rest, braces)
  }

  // ---------- how it is written ----------

  function Text(v: Value): (t: string)
    ensures |t| > 0 || v.Word?
  {
    match v
    case Word(w) => w
    case Quoted(s) => ['\"'] + s + ['\"']
    case Nest(braces, gap, items) => [if braces then '{' else '['] + gap + ItemsText(items) + [Closer(braces)]
  }

  function Closer(braces: bool): char { if braces then '}' else ']' }

  function CommaText(items: Items): string
    requires items.Item?
  {
    if items.rest.Nil? then [] else [','] + items.before
  }

  function TagText(tag: Tag): string {
    match tag
    case NoKey => []
    case Key(key, gap1, gap2) => ['\"'] + key + ['\"'] + gap1 + [':'] + gap2
  }

  function ItemsText(items: Items): string {
    match items
    case Nil => []
    case Item(tag, v, after, before, rest) =>
      TagText(tag) + Text(v) + after + CommaText(items) + ItemsText(rest)
  }

  // ---------- which tokens it has ----------

  /** The number of elements, or of keys. */
  function Length(items: Items): nat {
    if items.Nil? then 0 else 1 + Length(items.rest)
  }

  function KindOf(braces: bool): Kind { if braces then Object else Array }

  /** The tokens of a value that starts at p, a container before its contents. */
  function Tokens(v: Value, p: nat): (r: seq<Token>)
    ensures |r| > 0
  {
    match v
    case Word(w) => [Token(Primitive, p, p + |w|, 0)]
    case Quoted(s) => [Token(String, p + 1, p + 1 + |s|, 0)]
    case Nest(braces, gap, items) =>
      [Token(KindOf(braces), p, p + |Text(v)|, Length(items))] + ItemsTokens(items, p + 1 + |gap|)
  }

  function TagTokens(tag: Tag, p: nat): seq<Token> {
    if tag.NoKey? then [] else [Token(String, p + 1, p + 1 + |tag.key|, 1)]
  }

  function ItemsTokens(items: Items, p: nat): seq<Token> {
    match items
    case Nil => []
    case Item(tag, v, after, before, rest) =>
      var q := p + |TagText(tag)|;
      TagTokens(tag, p) + Tokens(v, q)
      + ItemsTokens(rest, q + |Text(v)| + |after| + |CommaText(items)|)
  }

  // ---------- finding it in a text ----------

  /** t stands at p in js. */
  predicate At(js: string, p: nat, t: string) { p + |t| <= |js| && js[p..p + |t|] == t }

  lemma AtConcat(js: string, p: nat, s: string, t: string)
    requires At(js, p, s + t)
    ensures At(js, p, s) && At(js, p + |s|, t)
  {
    assert js[p..p + |s|] == (s + t)[..|s|];
    assert js[p + |s|..p + |s| + |t|] == (s + t)[|s|..];
  }

  /** A string with its quotes. */
  predicate QuotedAt(js: string, p: nat, s: string) {
    p + |s| + 1 < |js| && js[p] == '\"' && At(js, p + 1, s) && js[p + 1 + |s|] == '\"'
  }

  lemma QuotedParts(js: string, p: nat, s: string)
    requires At(js, p, ['\"'] + s + ['\"'])
    ensures QuotedAt(js, p, s)
  {
    AtConcat(js, p, ['\"'] + s, ['\"']);
    AtConcat(js, p, ['\"'], s);
    AtChar(js, p, ['\"'], 0);
    AtChar(js, p + 1 + |s|, ['\"'], 0);
  }

  lemma TagParts(js: string, p: nat, tag: Tag)
    requires tag.Key? && At(js, p, TagText(tag))
    ensures var q := p + |tag.key| + 2;
      var r := q + |tag.gap1|;
      && QuotedAt(js, p, tag.key) && At(js, q, tag.gap1) && At(js, r, [':']) && At(js, r + 1, tag.gap2)
      && r + 1 + |tag.gap2| == p + |TagText(tag)|
  {
    var quoted := ['\"'] + tag.key + ['\"'];
    AtConcat(js, p, quoted + tag.gap1 + [':'], tag.gap2);
    AtConcat(js, p, quoted + tag.gap1, [':']);
    AtConcat(js, p, quoted, tag.gap1);
    QuotedParts(js, p, tag.key);
  }

  lemma NestParts(js: string, p: nat, v: Value)
    requires v.Nest? && At(js, p, Text(v))
    ensures var q := p + 1 + |v.gap|;
      var r := q + |ItemsText(v.items)|;
      && At(js, p, [if v.braces then '{' else '[']) && At(js, p + 1, v.gap)
      && At(js, q, ItemsText(v.items)) && At(js, r, [Closer(v.braces)])
      && r + 1 == p + |Text(v)|
  {
    hide At, ItemsText;
    var c := [if v.braces then '{' else '['];
    AtConcat(js, p, c + v.gap + ItemsText(v.items), [Closer(v.braces)]);
    AtConcat(js, p, c + v.gap, ItemsText(v.items));
    AtConcat(js, p, c, v.gap);
  }

  /** The parts of an item's text, each where it stands. */
  lemma ItemParts(js: string, p: nat, items: Items)
    requires items.Item? && At(js, p, ItemsText(items))
    ensures var q := p + |TagText(items.tag)|;
      var r := q + |Text(items.value)|;
      var s := r + |items.after|;
      && At(js, p, TagText(items.tag)) && At(js, q, Text(items.value)) && At(js, r, items.after)
      && At(js, s, CommaText(items)) && At(js, s + |CommaText(items)|, ItemsText(items.rest))
      && s + |CommaText(items)| + |ItemsText(items.rest)| == p + |ItemsText(items)|
  {
    hide At, TagText, Text;
    var a, b, c := TagText(items.tag), Text(items.value), items.after;
    AtConcat(js, p, a + b + c + CommaText(items), ItemsText(items.rest));
    AtConcat(js, p, a + b + c, CommaText(items));
    AtConcat(js, p, a + b, c);
    AtConcat(js, p, a, b);
  }

  lemma AtChar(js: string, p: nat, t: string, i: nat)
    requires At(js, p, t) && i < |t|
    ensures js[p + i] == t[i]
  {
    assert js[p..p + |t|][i] == js[p + i];
  }

  lemma {:induction false} BodyEnds(js: string, p: nat, s: string)
    requires GoodBody(s) && At(js, p, s) && p + |s| < |js| && js[p + |s|] == '\"'
    ensures StringEnd(js, p) == Found(p + |s|)
    decreases |s|
  {
    if s != [] {
      AtChar(js, p, s, 0);
      var n := if s[0] != '\\' then 1 else if s[1] == 'u' then 6 else 2;
      assert s == s[..n] + s[n..];
      AtConcat(js, p, s[..n], s[n..]);
      BodyEnds(js, p + n, s[n..]);
      if s[0] == '\\' {
        AtChar(js, p, s, 1);
        if s[1] == 'u' {
          AtChar(js, p, s, 2);
          AtChar(js, p, s, 3);
          AtChar(js, p, s, 4);
          AtChar(js, p, s, 5);
          HexFour(js, p + 2);
        }
      }
    }
  }

  lemma HexFour(js: string, p: nat)
    requires p + 4 <= |js| && HexDigit(js[p]) && HexDigit(js[p + 1]) && HexDigit(js[p + 2]) && HexDigit(js[p + 3])
    ensures HexEnd(js, p, 4) == Found(p + 4)
  {
    assert HexEnd(js, p + 3, 1) == Found(p + 4);
    assert HexEnd(js, p + 2, 2) == Found(p + 4);
  }

  /** A primitive ends where the text ends or a delimiter follows. */
  predicate Follows(js: string, p: nat) { AtEnd(js, p) || Delimiter(js[p]) }

  lemma {:induction false} WordEnds(js: string, p: nat, w: string)
    requires At(js, p, w) && Follows(js, p + |w|)
    requires forall i :: 0 <= i < |w| ==> Printable(w[i]) && !Delimiter(w[i])
    ensures PrimitiveEnd(js, p) == Found(p + |w|)
    decreases |w|
  {
    if w != [] {
      AtChar(js, p, w, 0);
      assert w == w[..1] + w[1..];
      AtConcat(js, p, w[..1], w[1..]);
      WordEnds(js, p + 1, w[1..]);
    }
  }

  // ---------- what the scans find, and what they refuse ----------

  lemma {:induction false} HexIs(js: string, p: nat, n: nat)
    requires p <= |js|
    ensures var r := HexEnd(js, p, n);
      && (r.Found? && !AtEnd(js, r.at) ==> r.at == p + n)
      && (r.Found? ==> forall i :: p <= i < r.at ==> HexDigit(js[i]))
      && (r.Bad? <==> Wrong(js, p, n))
    decreases n
  {
    if n > 0 && !AtEnd(js, p) {
      if HexDigit(js[p]) {
        HexIs(js, p + 1, n - 1);
        assert forall d :: WrongDigit(js, p, n, d) ==> WrongDigit(js, p + 1, n - 1, d);
        if Wrong(js, p + 1, n - 1) {
          var d :| WrongDigit(js, p + 1, n - 1, d);
          assert WrongDigit(js, p, n, d);
        }
      } else {
        assert WrongDigit(js, p, n, p);
      }
    }
  }

  /** Of n digits that should stand at p, the character at d is the first that is none. */
  predicate WrongDigit(js: string, p: nat, n: nat, d: int) {
    && p <= d < p + n && d < |js| && !AtEnd(js, d) && !HexDigit(js[d])
    && forall i :: p <= i < d ==> HexDigit(js[i])
  }

  ghost predicate Wrong(js: string, p: nat, n: nat) { exists d :: WrongDigit(js, p, n, d) }

  /** A backslash at i with no escape behind it, the text going on far enough to tell. */
  ghost predicate BadEscape(js: string, i: nat) {
    && i + 1 < |js| && js[i] == '\\'
    && if js[i + 1] == 'u' then Wrong(js, i + 2, 4) else !SimpleEscape(js[i + 1])
  }

  /** The string is malformed at i: its body is good up to there, and a bad escape follows. */
  ghost predicate BodyBreaks(js: string, p: nat, i: nat) {
    p <= i < |js| && GoodBody(js[p..i]) && BadEscape(js, i)
  }

  /** The first character or escape of a body. */
  lemma BodyFirst(s: string, n: nat)
    requires n <= |s| && 0 < n && GoodBody(s[n..])
    requires if s[0] == '\\' then |s| >= 2 && if s[1] == 'u' then n == 6 && HexDigit(s[2]) && HexDigit(s[3]) && HexDigit(s[4]) && HexDigit(s[5])
                                               else n == 2 && SimpleEscape(s[1])
             else n == 1 && s[0] != '\"' && s[0] != '\0'
    ensures GoodBody(s)
  {
  }

  /** How far the scan of a string goes for one character or escape. */
  lemma StringStep(js: string, p: nat) returns (n: nat)
    requires p < |js| && js[p] != '\"' && !AtEnd(js, p) && !BadEscape(js, p)
    ensures n > 0 && p + n <= |js| && StringEnd(js, p) == StringEnd(js, p + n)
    ensures !AtEnd(js, p + n) ==> forall q :: p + n <= q <= |js| && GoodBody(js[p + n..q]) ==> GoodBody(js[p..q])
  {
    n := 1;
    if js[p] == '\\' && p + 1 < |js| {
      n := 2;
      if js[p + 1] == 'u' {
        HexIs(js, p + 2, 4);
        n := HexEnd(js, p + 2, 4).at - p;
      }
    }
    if !AtEnd(js, p + n) {
      forall q | p + n <= q <= |js| && GoodBody(js[p + n..q]) ensures GoodBody(js[p..q]) {
        assert js[p..q][n..] == js[p + n..q];
        BodyFirst(js[p..q], n);
      }
    }
  }

  /** What the scan finds is the end of a good body, and what it refuses breaks at a bad escape. */
  lemma {:induction false} StringMeans(js: string, p: nat) returns (i: nat)
    requires p <= |js|
    ensures var r := StringEnd(js, p);
      && (r.Found? ==> GoodBody(js[p..r.at]))
      && (r.Bad? ==> BodyBreaks(js, p, i))
    decreases |js| - p
  {
    i := p;
    if !AtEnd(js, p) && js[p] != '\"' {
      if BadEscape(js, p) {
        assert js[p..p] == [];
        HexIs(js, p + 2, 4);
      } else {
        var n := StringStep(js, p);
        i := StringMeans(js, p + n);
      }
    }
  }

  /** A bad escape behind a good body is refused. */
  lemma {:induction false} BreaksBad(js: string, p: nat, i: nat)
    requires BodyBreaks(js, p, i)
    ensures StringEnd(js, p).Bad?
    decreases i - p
  {
    if p == i {
      HexIs(js, p + 2, 4);
    } else {
      var s := js[p..i];
      var n := if s[0] != '\\' then 1 else if s[1] == 'u' then 6 else 2;
      assert s[n..] == js[p + n..i];
      BreaksBad(js, p + n, i);
      if n == 6 { HexFour(js, p + 2); }
    }
  }

  /** The string whose body starts at p ends at the first quote behind a good body. */
  lemma StringExactly(js: string, p: nat, q: nat)
    requires p <= |js|
    ensures StringEnd(js, p) == Found(q) <==> p <= q < |js| && js[q] == '\"' && GoodBody(js[p..q])
    ensures StringEnd(js, p).Bad? <==> exists i :: BodyBreaks(js, p, i)
  {
    var i := StringMeans(js, p);
    if p <= q < |js| && js[q] == '\"' && GoodBody(js[p..q]) { BodyEnds(js, p, js[p..q]); }
    forall i | BodyBreaks(js, p, i) ensures StringEnd(js, p).Bad? { BreaksBad(js, p, i); }
  }

  /** A primitive is a run of printable characters without a delimiter, up to a delimiter or the end of the text. */
  lemma {:induction false} PrimitiveExactly(js: string, p: nat, q: nat)
    requires p <= |js|
    ensures PrimitiveEnd(js, p) == Found(q) <==>
      p <= q <= |js| && Follows(js, q) && forall i :: p <= i < q ==> Printable(js[i]) && !Delimiter(js[i])
    decreases |js| - p
  {
    if !Follows(js, p) { PrimitiveExactly(js, p + 1, q); }
  }

  // ---------- what the tokens say about the text ----------

  /** The span of a token is what its kind promises: a body between quotes, a word, or brackets and what is in them. */
  predicate Spells(js: string, t: Token) {
    && 0 <= t.start <= t.end <= |js|
    && match t.kind
       case String => t.start > 0 && t.end < |js| && js[t.start - 1] == '\"' && js[t.end] == '\"' && GoodBody(js[t.start..t.end])
       case Primitive => GoodWord(js[t.start..t.end])
       case Object => t.start < t.end && js[t.start] == '{' && js[t.end - 1] == '}'
       case Array => t.start < t.end && js[t.start] == '[' && js[t.end - 1] == ']'
       case Undefined => false
  }

  predicate AllSpell(js: string, toks: seq<Token>) { forall i {:trigger toks[i]} :: 0 <= i < |toks| ==> Spells(js, toks[i]) }

  lemma AllSpellAdd(js: string, a: seq<Token>, b: seq<Token>)
    requires AllSpell(js, a) && AllSpell(js, b)
    ensures AllSpell(js, a + b)
  {
  }

  lemma WordSpells(js: string, p: nat, w: string)
    requires GoodWord(w) && At(js, p, w)
    ensures Spells(js, Token(Primitive, p, p + |w|, 0))
  {
    hide GoodBody, GoodWord;
  }

  lemma QuotedSpells(js: string, p: nat, s: string, size: int)
    requires GoodBody(s) && QuotedAt(js, p, s)
    ensures Spells(js, Token(String, p + 1, p + 1 + |s|, size))
  {
    hide GoodBody, GoodWord;
  }

  lemma NestSpells(js: string, p: nat, v: Value, size: int)
    requires v.Nest? && At(js, p, Text(v))
    ensures Spells(js, Token(KindOf(v.braces), p, p + |Text(v)|, size))
  {
    hide Text, ItemsText, GoodBody, GoodWord;
    NestParts(js, p, v);
    AtChar(js, p, [if v.braces then '{' else '['], 0);
    AtChar(js, p + 1 + |v.gap| + |ItemsText(v.items)|, [Closer(v.braces)], 0);
  }

  /** Every token of a value spans what its kind promises. */
  lemma {:induction false} TokensSpell(js: string, p: nat, v: Value)
    requires GoodValue(v) && At(js, p, Text(v))
    ensures AllSpell(js, Tokens(v, p))
    decreases v, 1
  {
    hide At, ItemsText, GoodBody, GoodWord, Spells, ItemsTokens, GoodItems;
    match v
    case Word(w) =>
      WordSpells(js, p, w);
    case Quoted(s) =>
      QuotedParts(js, p, s);
      QuotedSpells(js, p, s, 0);
    case Nest(braces, gap, items) =>
      var q := p + 1 + |gap|;
      NestParts(js, p, v);
      NestSpells(js, p, v, Length(items));
      ItemsSpell(js, q, items, braces);
      AllSpellAdd(js, [Token(KindOf(braces), p, p + |Text(v)|, Length(items))], ItemsTokens(items, q));
  }

  lemma {:induction false} ItemsSpell(js: string, p: nat, items: Items, braces: bool)
    requires GoodItems(items, braces) && At(js, p, ItemsText(items))
    ensures AllSpell(js, ItemsTokens(items, p))
    decreases items, 0
  {
    hide At, ItemsText, Text, TagText, GoodBody, GoodWord, GoodValue, Spells, Tokens;
    if items.Item? {
      var q := p + |TagText(items.tag)|;
      var r := q + |Text(items.value)| + |items.after| + |CommaText(items)|;
      ItemParts(js, p, items);
      if items.tag.Key? {
        TagParts(js, p, items.tag);
        QuotedSpells(js, p, items.tag.key, 1);
      }
      TokensSpell(js, q, items.value);
      ItemsSpell(js, r, items.rest, braces);
      AllSpellAdd(js, TagTokens(items.tag, p), Tokens(items.value, q));
      AllSpellAdd(js, TagTokens(items.tag, p) + Tokens(items.value, q), ItemsTokens(items.rest, r));
    }
  }

  /** The sum of the sizes of tokens. */
  function Sizes(toks: seq<Token>): int {
    if toks == [] then 0 else toks[0].size + Sizes(toks[1..])
  }

  lemma {:induction false} SizesAdd(a: seq<Token>, b: seq<Token>)
    ensures Sizes(a + b) == Sizes(a) + Sizes(b)
  {
    if a == [] {
      assert a + b == b;
    } else {
      assert (a + b)[1..] == a[1..] + b;
      SizesAdd(a[1..], b);
    }
  }

  lemma SizesFirst(t: Token, toks: seq<Token>)
    ensures Sizes([t] + toks) == t.size + Sizes(toks)
  {
    assert ([t] + toks)[1..] == toks;
  }

  /** Every token but the first is counted once: for its container, or for its key. */
  lemma {:induction false} CountedOnce(v: Value, p: nat)
    requires GoodValue(v)
    ensures Sizes(Tokens(v, p)) == |Tokens(v, p)| - 1
    decreases v, 1
  {
    hide Text, GoodBody, GoodWord, GoodItems, ItemsTokens;
    if v.Nest? {
      var q := p + 1 + |v.gap|;
      ItemsCounted(v.items, v.braces, q);
      SizesFirst(Token(KindOf(v.braces), p, p + |Text(v)|, Length(v.items)), ItemsTokens(v.items, q));
    }
  }

  lemma {:induction false} ItemsCounted(items: Items, braces: bool, p: nat)
    requires GoodItems(items, braces)
    ensures Length(items) + Sizes(ItemsTokens(items, p)) == |ItemsTokens(items, p)|
    decreases items, 0
  {
    hide Text, TagText, GoodBody, GoodWord, GoodValue, Tokens, Sizes;
    if items.Item? {
      var q := p + |TagText(items.tag)|;
      var r := q + |Text(items.value)| + |items.after| + |CommaText(items)|;
      var a, b, c := TagTokens(items.tag, p), Tokens(items.value, q), ItemsTokens(items.rest, r);
      CountedOnce(items.value, q);
      ItemsCounted(items.rest, braces, r);
      SizesAdd(a + b, c);
      SizesAdd(a, b);
      TagSizes(items.tag, p);
    } else {
      NoSizes();
    }
  }

  lemma TagSizes(tag: Tag, p: nat)
    ensures Sizes(TagTokens(tag, p)) == |TagTokens(tag, p)|
  {
  }

  lemma NoSizes()
    ensures Sizes([]) == 0
  {
  }
}
