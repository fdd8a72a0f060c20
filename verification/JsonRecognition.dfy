/** The readers find exactly the trees of the grammar: soundness, completeness, and what follows from them. */
module JsonRecognition {
  import opened Bytes
  import opened JsonValue
  import opened JsonGrammar
  import opened JsonReader
  import Decimal

  // ----- soundness: what is read spells what was consumed

  /** Where a gap must end. */
  predicate GapStop(k: bytes, m: Mode) {
    k != [] ==> !IsBlank(k[0]) && !(m.Comments? && k[0] == SLASH)
  }

  lemma {:induction false} GapSound(s: bytes, m: Mode)
    requires ReadGap(s, m).Read?
    ensures var r := ReadGap(s, m);
            GapText(r.value, r.rest) == s && GapOk(r.value, m, r.rest == []) && GapStop(r.rest, m)
    decreases |s|
  {
    if s != [] && IsBlank(s[0]) {
      GapSound(s[1..], m);
    } else if s != [] && m.Comments? && s[0] == SLASH {
      if s[1] == SLASH {
        GapSound(SpanLine(s[2..]).1, m);
      } else {
        GapSound(SpanBlock(s[2..]).rest, m);
      }
      assert s == s[..2] + s[2..];
    }
  }

  lemma WholeSound(s: bytes)
    requires ReadWhole(s).Read?
    ensures var r := ReadWhole(s);
            r.value + r.rest == s && r.value != [] && Decimal.AllDigits(r.value)
            && (r.value[0] == ZERO ==> |r.value| == 1)
  {
  }

  lemma FractionSound(s: bytes)
    requires ReadFraction(s).Read?
    ensures var r := ReadFraction(s);
            Decimal.AllDigits(r.value) && s == if r.value != [] then [DOT] + (r.value + r.rest) else r.rest
  {
  }

  lemma ExponentSound(s: bytes)
    requires ReadExponent(s).Read?
    ensures var r := ReadExponent(s);
            ExponentText(r.value, r.rest) == s && ExponentOk(r.value)
  {
    var r := ReadExponent(s);
    if r.value.Exponent? && r.value.sign.Some? {
      assert s == [s[0]] + ([s[1]] + s[2..]);
    }
  }

  lemma NumberSound(s: bytes)
    requires ReadNumber(s).Read?
    ensures var r := ReadNumber(s);
            NumberText(r.value, r.rest) == s && NumberOk(r.value)
  {
    var t := if s != [] && s[0] == MINUS then s[1..] else s;
    WholeSound(t);
    FractionSound(ReadWhole(t).rest);
    ExponentSound(ReadFraction(ReadWhole(t).rest).rest);
  }

  lemma {:induction false} ItemsSound(s: bytes)
    requires ReadItems(s).Read?
    ensures var r := ReadItems(s);
            ItemsText(r.value, r.rest) == s && ItemsOk(r.value)
    decreases |s|
  {
    if s[0] == QUOTE {
    } else if s[0] != BACKSLASH {
      ItemsSound(s[1..]);
    } else if s[1] == LETTER_U {
      ItemsSound(s[6..]);
      assert s == s[..6] + s[6..];
    } else {
      ItemsSound(s[2..]);
      assert s == s[..2] + s[2..];
    }
  }

  lemma SplitHead(s: bytes)
    requires s != []
    ensures s == [s[0]] + s[1..]
  {
  }

  lemma ScalarSound(s: bytes, depth: int, m: Mode)
    requires s != [] && s[0] != LBRACKET && s[0] != LBRACE && ReadBare(s, depth, m).Read?
    ensures var r := ReadBare(s, depth, m);
            TreeText(r.value, r.rest) == s && TreeOk(r.value, m) && Height(r.value) == 0
  {
    var t := ReadBare(s, depth, m).value;
    if t.TNumber? {
      NumberSound(s);
    } else if t.TString? {
      ItemsSound(s[1..]);
    }
  }

  lemma {:induction false} ValueSound(s: bytes, depth: int, m: Mode)
    requires ReadValue(s, depth, m).Read?
    ensures var r := ReadValue(s, depth, m);
            PaddedText(r.value, r.rest) == s && PaddedOk(r.value, m) && depth + Height(r.value.v) <= MAX_DEPTH
    decreases |s|, 1
  {
    GapSound(s, m);
    var t := ReadGap(s, m).rest;
    if t[0] == LBRACKET {
      ArraySound(t, depth, m);
    } else if t[0] == LBRACE {
      ObjectSound(t, depth, m);
    } else {
      ScalarSound(t, depth, m);
    }
  }

  lemma {:induction false} ArraySound(s: bytes, depth: int, m: Mode)
    requires s != [] && s[0] == LBRACKET && depth <= MAX_DEPTH && ReadBare(s, depth, m).Read?
    ensures var r := ReadBare(s, depth, m);
            TreeText(r.value, r.rest) == s && TreeOk(r.value, m) && depth + Height(r.value) <= MAX_DEPTH
    decreases |s|, 0
  {
    GapSound(s[1..], m);
    var t := ReadGap(s[1..], m).rest;
    if t != [] && t[0] == RBRACKET {
      SplitHead(t);
    } else {
      ElemsSound(s[1..], depth + 1, m);
    }
  }

  lemma {:induction false} ObjectSound(s: bytes, depth: int, m: Mode)
    requires s != [] && s[0] == LBRACE && depth <= MAX_DEPTH && ReadBare(s, depth, m).Read?
    ensures var r := ReadBare(s, depth, m);
            TreeText(r.value, r.rest) == s && TreeOk(r.value, m) && depth + Height(r.value) <= MAX_DEPTH
    decreases |s|, 0
  {
    GapSound(s[1..], m);
    var t := ReadGap(s[1..], m).rest;
    if t != [] && t[0] == RBRACE {
      SplitHead(t);
    } else {
      PairsSound(s[1..], depth + 1, m);
    }
  }

  lemma {:induction false} ElemsSound(s: bytes, depth: int, m: Mode)
    requires ReadElems(s, depth, m).Read?
    ensures var r := ReadElems(s, depth, m);
            ElemsText(r.value, r.rest) == s && ElemsOk(r.value, m) && depth + ElemsHeight(r.value) <= MAX_DEPTH
    decreases |s|, 2
  {
    hide ReadValue, ReadGap, GapText, PaddedText;
    ValueSound(s, depth, m);
    var t := ReadValue(s, depth, m).rest;
    GapSound(t, m);
    var u := ReadGap(t, m).rest;
    SplitHead(u);
    if u[0] == COMMA {
      ElemsSound(u[1..], depth, m);
    }
  }

  lemma KeySound(s: bytes, m: Mode)
    requires ReadKey(s, m).Read?
    ensures var r := ReadKey(s, m);
            KeyText(r.value, r.rest) == s && KeyOk(r.value, m)
  {
    hide ReadItems, ReadGap, GapText, ItemsText;
    GapSound(s, m);
    var t := ReadGap(s, m).rest;
    SplitHead(t);
    ItemsSound(t[1..]);
    var u := ReadItems(t[1..]).rest;
    GapSound(u, m);
    SplitHead(ReadGap(u, m).rest);
  }

  lemma {:induction false} PairsSound(s: bytes, depth: int, m: Mode)
    requires ReadPairs(s, depth, m).Read?
    ensures var r := ReadPairs(s, depth, m);
            PairsText(r.value, r.rest) == s && PairsOk(r.value, m) && depth + PairsHeight(r.value) <= MAX_DEPTH
    decreases |s|, 2
  {
    hide ReadKey, ReadValue, ReadGap, GapText, PaddedText, KeyText;
    KeySound(s, m);
    var t := ReadKey(s, m).rest;
    ValueSound(t, depth, m);
    var u := ReadValue(t, depth, m).rest;
    GapSound(u, m);
    var w := ReadGap(u, m).rest;
    SplitHead(w);
    if w[0] == COMMA {
      PairsSound(w[1..], depth, m);
    }
  }

  // ----- completeness: what is spelled is read back

  lemma {:induction false} SpanDigitsFinds(ds: bytes, k: bytes)
    requires Decimal.AllDigits(ds) && (k != [] ==> !Decimal.IsDigit(k[0]))
    ensures SpanDigits(ds + k) == (ds, k)
  {
    if ds == [] {
      assert ds + k == k;
    } else {
      SpanDigitsFinds(ds[1..], k);
      assert (ds + k)[1..] == ds[1..] + k && ds == [ds[0]] + ds[1..];
    }
  }

  lemma {:induction false} SpanLineFinds(body: bytes, k: bytes)
    requires LF !in body && (k != [] ==> k[0] == LF)
    ensures SpanLine(body + k) == (body, k)
  {
    if body == [] {
      assert body + k == k;
    } else {
      SpanLineFinds(body[1..], k);
      assert (body + k)[1..] == body[1..] + k && body == [body[0]] + body[1..];
    }
  }

  lemma SpanBlockSkips(b: byte, s: bytes)
    requires s != [] && (b == STAR ==> s[0] != SLASH) && SpanBlock(s).Read?
    ensures SpanBlock([b] + s) == Read([b] + SpanBlock(s).value, SpanBlock(s).rest)
  {
    assert ([b] + s)[1..] == s;
  }

  lemma {:induction false} SpanBlockFinds(body: bytes, k: bytes)
    requires NoClose(body)
    ensures SpanBlock(body + ([STAR, SLASH] + k)) == Read(body, k)
  {
    var close := [STAR, SLASH] + k;
    if body == [] {
      assert body + close == close && close[2..] == k;
    } else {
      var b, tail := body[0], body[1..];
      assert body + close == [b] + (tail + close) && body == [b] + tail;
      assert b == STAR ==> (tail + close)[0] != SLASH;
      forall j | 0 <= j < |tail| - 1 ensures !(tail[j] == STAR && tail[j + 1] == SLASH) {
        assert tail[j] == body[j + 1] && tail[j + 1] == body[j + 2];
      }
      SpanBlockFinds(tail, k);
      SpanBlockSkips(b, tail + close);
    }
  }

  lemma {:induction false} GapComplete(g: Gap, k: bytes, m: Mode)
    requires GapOk(g, m, k == []) && GapStop(k, m)
    ensures ReadGap(GapText(g, k), m) == Read(g, k)
  {
    var s := GapText(g, k);
    match g
    case End =>
    case Blank(b, more) =>
      GapComplete(more, k, m);
      assert s[1..] == GapText(more, k);
    case Line(body, more) =>
      GapComplete(more, k, m);
      assert s[2..] == body + GapText(more, k);
      SpanLineFinds(body, GapText(more, k));
    case Block(body, more) =>
      GapComplete(more, k, m);
      assert s[2..] == body + ([STAR, SLASH] + GapText(more, k));
      SpanBlockFinds(body, GapText(more, k));
  }

  /** A number ends where its text cannot go on. */
  predicate NumberStop(k: bytes) {
    k != [] ==> !Decimal.IsDigit(k[0]) && k[0] != DOT && !IsExponentMark(k[0])
  }

  lemma GapKeepsStop(g: Gap, k: bytes, m: Mode)
    requires GapOk(g, m, k == []) && NumberStop(k)
    ensures NumberStop(GapText(g, k))
  {
  }

  lemma ExponentComplete(e: Exponent, k: bytes)
    requires ExponentOk(e) && NumberStop(k)
    ensures ReadExponent(ExponentText(e, k)) == Read(e, k)
  {
    var s := ExponentText(e, k);
    if e.Exponent? {
      SpanDigitsFinds(e.digits, k);
      if e.sign.Some? {
        assert s[2..] == e.digits + k;
      } else {
        assert s[1..] == e.digits + k;
      }
    }
  }

  lemma FractionComplete(fraction: bytes, u: bytes)
    requires Decimal.AllDigits(fraction)
    requires u != [] ==> !Decimal.IsDigit(u[0]) && u[0] != DOT
    ensures ReadFraction(if fraction != [] then [DOT] + (fraction + u) else u) == Read(fraction, u)
  {
    if fraction != [] {
      SpanDigitsFinds(fraction, u);
      assert ([DOT] + (fraction + u))[1..] == fraction + u;
    }
  }

  lemma WholeComplete(whole: bytes, t: bytes)
    requires whole != [] && Decimal.AllDigits(whole) && (whole[0] == ZERO ==> |whole| == 1)
    requires t != [] ==> !Decimal.IsDigit(t[0])
    ensures ReadWhole(whole + t) == Read(whole, t)
  {
    SpanDigitsFinds(whole, t);
    if whole[0] == ZERO {
      assert whole == [ZERO] && (whole + t)[1..] == t;
    }
  }

  lemma NumberComplete(n: Number, k: bytes)
    requires NumberOk(n) && NumberStop(k)
    ensures ReadNumber(NumberText(n, k)) == Read(n, k)
  {
    hide ReadWhole, ReadFraction, ReadExponent;
    var u := ExponentText(n.exponent, k);
    ExponentComplete(n.exponent, k);
    FractionComplete(n.fraction, u);
    var t := if n.fraction != [] then [DOT] + (n.fraction + u) else u;
    WholeComplete(n.whole, t);
    var s := NumberText(n, k);
    assert n.negative ==> s[1..] == n.whole + t;
    assert !n.negative ==> s == n.whole + t;
  }

  lemma {:induction false} ItemsComplete(it: Items, k: bytes)
    requires ItemsOk(it)
    ensures ReadItems(ItemsText(it, k)) == Read(it, k)
  {
    var s := ItemsText(it, k);
    match it
    case Done => assert s[1..] == k;
    case Raw(b, more) =>
      ItemsComplete(more, k);
      assert s[1..] == ItemsText(more, k);
    case Escaped(c, more) =>
      ItemsComplete(more, k);
      assert s[2..] == ItemsText(more, k);
    case Hex(a, b, c, d, more) =>
      ItemsComplete(more, k);
      assert s[6..] == ItemsText(more, k);
  }

  lemma {:induction false} ValueComplete(p: Padded, k: bytes, depth: int, m: Mode)
    requires PaddedOk(p, m) && depth + Height(p.v) <= MAX_DEPTH && (p.v.TNumber? ==> NumberStop(k))
    ensures ReadValue(PaddedText(p, k), depth, m) == Read(p, k)
    decreases p, 1
  {
    hide ReadBare, GapText, TreeText;
    TreeComplete(p.v, k, depth, m);
    GapComplete(p.pre, TreeText(p.v, k), m);
  }

  lemma BraceRead(x: bytes, ps: Pairs, k: bytes, depth: int, m: Mode)
    requires ReadPairs(x, depth + 1, m) == Read(ps, k)
    requires var g := ReadGap(x, m); g.Read? && g.rest != [] && g.rest[0] != RBRACE
    ensures ReadBare([LBRACE] + x, depth, m) == Read(TObject(ps), k)
  {
    hide ReadPairs, ReadGap;
    assert ([LBRACE] + x)[1..] == x;
  }

  lemma BracketRead(x: bytes, es: Elems, k: bytes, depth: int, m: Mode)
    requires ReadElems(x, depth + 1, m) == Read(es, k)
    requires var g := ReadGap(x, m); g.Read? && g.rest != [] && g.rest[0] != RBRACKET
    ensures ReadBare([LBRACKET] + x, depth, m) == Read(TArray(es), k)
  {
    assert ([LBRACKET] + x)[1..] == x;
  }

  lemma EmptyComplete(t: Tree, k: bytes, depth: int, m: Mode)
    requires TreeOk(t, m) && (t.TEmptyArray? || t.TEmptyObject?)
    ensures TreeText(t, k) != [] && GapStop(TreeText(t, k), m)
    ensures ReadBare(TreeText(t, k), depth, m) == Read(t, k)
  {
    var close := if t.TEmptyArray? then RBRACKET else RBRACE;
    assert ([close] + k)[1..] == k;
    assert TreeText(t, k)[1..] == GapText(t.gap, [close] + k);
    GapComplete(t.gap, [close] + k, m);
  }

  lemma ScalarComplete(t: Tree, k: bytes, depth: int, m: Mode)
    requires TreeOk(t, m) && (t.TNumber? ==> NumberStop(k))
    requires t.TNull? || t.TTrue? || t.TFalse? || t.TNumber? || t.TString?
    ensures TreeText(t, k) != [] && GapStop(TreeText(t, k), m)
    ensures ReadBare(TreeText(t, k), depth, m) == Read(t, k)
  {
    var s := TreeText(t, k);
    match t
    case TNull => assert s[|NULL_WORD|..] == k;
    case TTrue => assert s[|TRUE_WORD|..] == k;
    case TFalse => assert s[|FALSE_WORD|..] == k;
    case TNumber(num) => NumberComplete(num, k);
    case TString(chars) =>
      assert s[1..] == ItemsText(chars, k);
      ItemsComplete(chars, k);
  }

  lemma {:induction false} TreeComplete(t: Tree, k: bytes, depth: int, m: Mode)
    requires TreeOk(t, m) && depth + Height(t) <= MAX_DEPTH && (t.TNumber? ==> NumberStop(k))
    ensures TreeText(t, k) != [] && GapStop(TreeText(t, k), m)
    ensures ReadBare(TreeText(t, k), depth, m) == Read(t, k)
    decreases t, 0
  {
    hide ReadElems, ReadPairs, ReadGap, ReadBare, ElemsText, PairsText, GapText;
    match t
    case TEmptyArray(_) => EmptyComplete(t, k, depth, m);
    case TEmptyObject(_) => EmptyComplete(t, k, depth, m);
    case TArray(elems) =>
      ElemsComplete(elems, k, depth + 1, m);
      BracketRead(ElemsText(elems, k), elems, k, depth, m);
    case TObject(pairs) =>
      PairsComplete(pairs, k, depth + 1, m);
      BraceRead(PairsText(pairs, k), pairs, k, depth, m);
    case _ => ScalarComplete(t, k, depth, m);
  }

  /** Elements open with a gap and then something that is not the closing bracket. */
  lemma {:induction false} ElemsComplete(es: Elems, k: bytes, depth: int, m: Mode)
    requires ElemsOk(es, m) && depth + ElemsHeight(es) <= MAX_DEPTH
    ensures ReadElems(ElemsText(es, k), depth, m) == Read(es, k)
    ensures var g := ReadGap(ElemsText(es, k), m); g.Read? && g.rest != [] && g.rest[0] != RBRACKET
    decreases es, 2
  {
    hide ReadValue, ReadGap, GapText, TreeText;
    var tail := if es.LastElem? then [RBRACKET] + k else [COMMA] + ElemsText(es.rest, k);
    var after := GapText(es.post, tail);
    GapComplete(es.post, tail, m);
    GapKeepsStop(es.post, tail, m);
    ValueComplete(es.item, after, depth, m);
    TreeComplete(es.item.v, after, depth, m);
    GapComplete(es.item.pre, TreeText(es.item.v, after), m);
    if es.LastElem? {
      assert tail[1..] == k;
    } else {
      assert tail[1..] == ElemsText(es.rest, k);
      ElemsComplete(es.rest, k, depth, m);
    }
  }

  lemma KeyComplete(key: Key, k: bytes, m: Mode)
    requires KeyOk(key, m)
    ensures ReadKey(KeyText(key, k), m) == Read(key, k)
    ensures var g := ReadGap(KeyText(key, k), m); g.Read? && g.rest != [] && g.rest[0] == QUOTE
  {
    hide ReadItems, ReadGap, GapText, ItemsText;
    var u := GapText(key.post, [COLON] + k);
    GapComplete(key.post, [COLON] + k, m);
    assert ([COLON] + k)[1..] == k;
    ItemsComplete(key.chars, u);
    var t := [QUOTE] + ItemsText(key.chars, u);
    assert t[1..] == ItemsText(key.chars, u);
    GapComplete(key.pre, t, m);
  }

  lemma {:induction false} PairsComplete(ps: Pairs, k: bytes, depth: int, m: Mode)
    requires PairsOk(ps, m) && depth + PairsHeight(ps) <= MAX_DEPTH
    ensures ReadPairs(PairsText(ps, k), depth, m) == Read(ps, k)
    ensures var g := ReadGap(PairsText(ps, k), m); g.Read? && g.rest != [] && g.rest[0] != RBRACE
    decreases ps, 2
  {
    hide ReadKey, ReadValue, ReadGap, GapText, PaddedText, KeyText;
    var tail := if ps.LastPair? then [RBRACE] + k else [COMMA] + PairsText(ps.rest, k);
    var after := GapText(ps.post, tail);
    GapComplete(ps.post, tail, m);
    GapKeepsStop(ps.post, tail, m);
    ValueComplete(ps.item, after, depth, m);
    KeyComplete(ps.key, PaddedText(ps.item, after), m);
    if ps.LastPair? {
      assert tail[1..] == k;
    } else {
      assert tail[1..] == PairsText(ps.rest, k);
      PairsComplete(ps.rest, k, depth, m);
    }
  }

  // ----- the results

  /** `s` spells `d`, in the grammar, nested no deeper than the limit. */
  predicate Derives(d: Document, s: bytes, m: Mode) {
    DocumentOk(d, m) && DocumentText(d) == s && Height(d.item.v) <= MAX_DEPTH
  }

  lemma Derivation(d: Document, s: bytes, m: Mode)
    ensures Derives(d, s, m) <==> ReadDocument(s, m) == Some(d)
  {
    if ReadDocument(s, m) == Some(d) {
      ValueSound(s, 0, m);
      GapSound(ReadValue(s, 0, m).rest, m);
    }
    if Derives(d, s, m) {
      GapComplete(d.post, [], m);
      GapKeepsStop(d.post, [], m);
      ValueComplete(d.item, GapText(d.post, []), 0, m);
    }
  }

  /** The parser accepts exactly the texts of the grammar, and returns the value of their tree. */
  lemma Recognition(s: bytes, m: Mode, v: Json)
    ensures Parse(s, m) == Some(v) <==> exists d :: Derives(d, s, m) && Value(d.item.v) == v
  {
    if Parse(s, m) == Some(v) {
      Derivation(ReadDocument(s, m).value, s, m);
    }
    forall d | Derives(d, s, m) && Value(d.item.v) == v ensures Parse(s, m) == Some(v) {
      Derivation(d, s, m);
    }
  }

  /** A text has at most one tree, however deep. */
  lemma Unambiguous(d: Document, e: Document, m: Mode)
    requires DocumentOk(d, m) && DocumentOk(e, m) && DocumentText(d) == DocumentText(e)
    ensures d == e
  {
    var depth := 0 - Max(Height(d.item.v), Height(e.item.v)) as int;
    GapComplete(d.post, [], m);
    GapKeepsStop(d.post, [], m);
    ValueComplete(d.item, GapText(d.post, []), depth, m);
    GapComplete(e.post, [], m);
    GapKeepsStop(e.post, [], m);
    ValueComplete(e.item, GapText(e.post, []), depth, m);
  }

  /** A text whose tree nests deeper than the limit is refused. */
  lemma TooDeep(d: Document, m: Mode)
    requires DocumentOk(d, m) && Height(d.item.v) > MAX_DEPTH
    ensures Parse(DocumentText(d), m) == None
  {
    var s := DocumentText(d);
    if Parse(s, m).Some? {
      var e := ReadDocument(s, m).value;
      Derivation(e, s, m);
      Unambiguous(d, e, m);
    }
  }

  /** A value that nests deeper than the limit is refused, whatever follows it. */
  lemma TooDeepValue(p: Padded, k: bytes, depth: int, m: Mode)
    requires PaddedOk(p, m) && depth + Height(p.v) > MAX_DEPTH
    ensures ReadValue(PaddedText(p, k), depth, m).Failed?
  {
    hide ReadGap, ReadElems, ReadPairs, PaddedText;
    var s := PaddedText(p, k);
    var r := ReadValue(s, depth, m);
    if r.Read? {
      ValueSound(s, depth, m);
      var low := MAX_DEPTH - Height(p.v);
      ValueComplete(p, k, low, m);
      ValueComplete(r.value, r.rest, low, m);
    }
  }

  lemma {:induction false} StandardGapIsGap(g: Gap, last: bool)
    requires GapOk(g, Standard, last)
    ensures GapOk(g, Comments, last)
  {
    if g.Blank? {
      StandardGapIsGap(g.more, last);
    }
  }

  lemma {:induction false} StandardTreeIsTree(t: Tree)
    requires TreeOk(t, Standard)
    ensures TreeOk(t, Comments)
    decreases t
  {
    match t
    case TEmptyArray(gap) => StandardGapIsGap(gap, false);
    case TEmptyObject(gap) => StandardGapIsGap(gap, false);
    case TArray(elems) => StandardElemsAreElems(elems);
    case TObject(pairs) => StandardPairsArePairs(pairs);
    case _ =>
  }

  lemma {:induction false} StandardElemsAreElems(es: Elems)
    requires ElemsOk(es, Standard)
    ensures ElemsOk(es, Comments)
    decreases es
  {
    assert PaddedOk(es.item, Standard);
    StandardGapIsGap(es.item.pre, false);
    StandardTreeIsTree(es.item.v);
    StandardGapIsGap(es.post, false);
    if es.MoreElems? {
      StandardElemsAreElems(es.rest);
    }
  }

  lemma {:induction false} StandardPairsArePairs(ps: Pairs)
    requires PairsOk(ps, Standard)
    ensures PairsOk(ps, Comments)
    decreases ps
  {
    assert PaddedOk(ps.item, Standard);
    StandardGapIsGap(ps.key.pre, false);
    StandardGapIsGap(ps.key.post, false);
    StandardGapIsGap(ps.item.pre, false);
    StandardTreeIsTree(ps.item.v);
    StandardGapIsGap(ps.post, false);
    if ps.MorePairs? {
      StandardPairsArePairs(ps.rest);
    }
  }

  /** Comments mode accepts whatever standard mode accepts, with the same value. */
  lemma CommentsExtendStandard(s: bytes)
    requires Parse(s, Standard).Some?
    ensures Parse(s, Comments) == Parse(s, Standard)
  {
    var d := ReadDocument(s, Standard).value;
    Derivation(d, s, Standard);
    assert PaddedOk(d.item, Standard);
    StandardGapIsGap(d.item.pre, false);
    StandardTreeIsTree(d.item.v);
    StandardGapIsGap(d.post, true);
    Derivation(d, s, Comments);
  }
}
