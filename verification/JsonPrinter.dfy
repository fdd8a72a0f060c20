/** The printer, and its inversion by the parser. */
module JsonPrinter {
  import opened Bytes
  import opened JsonValue
  import opened JsonGrammar
  import opened JsonReader
  import JsonOrder
  import JsonParser
  import JsonRecognition
  import Decimal
  import Utf8

  /** Integers up to here are doubles, and `%.17g` prints them in full. */
  const DOUBLE_EXACT := 0x20_0000_0000_0000

  predicate PrintsExactly(d: Double) {
    d.Finite? ==> d.v.Floor as real == d.v && -DOUBLE_EXACT <= d.v.Floor <= DOUBLE_EXACT
  }

  /** Values whose text is decided here: 32-bit ints; doubles that are whole numbers or not finite. */
  predicate Printable(v: Json) {
    match v
    case Int(n) => -INT_MAX - 1 <= n <= INT_MAX
    case Dbl(d) => PrintsExactly(d)
    case Arr(items) => PrintableItems(items)
    case Obj(ms) => PrintableMembers(ms)
    case _ => true
  }

  predicate PrintableItems(items: seq<Json>) {
    items == [] || (Printable(items[0]) && PrintableItems(items[1..]))
  }

  predicate PrintableMembers(ms: seq<Member>) {
    ms == [] || (Printable(ms[0].value) && PrintableMembers(ms[1..]))
  }

  const LINE_SEPARATOR: bytes := [0xE2, 0x80, 0xA8]
  const PARAGRAPH_SEPARATOR: bytes := [0xE2, 0x80, 0xA9]

  function LowerHex(d: int): byte
    requires 0 <= d < 16
  {
    if d < 10 then ZERO + d else 0x61 + (d - 10)
  }

  /** The two-character escape of a byte, if it has one. `/` is printed as it is. */
  function EscapeLetter(b: byte): Option<byte> {
    if b == BACKSLASH || b == QUOTE then Some(b)
    else if b == 0x08 then Some(0x62)
    else if b == 0x0C then Some(0x66)
    else if b == LF then Some(0x6E)
    else if b == CR then Some(0x72)
    else if b == TAB then Some(0x74)
    else None
  }

  /** A string's characters as the printer escapes them. */
  function Escape(s: bytes): Items {
    if s == [] then Done
    else if EscapeLetter(s[0]).Some? then Escaped(EscapeLetter(s[0]).value, Escape(s[1..]))
    else if s[0] < 0x20 then Hex(ZERO, ZERO, ZERO + s[0] / 16, LowerHex(s[0] % 16), Escape(s[1..]))
    else if LINE_SEPARATOR <= s then Hex(0x32, 0x30, 0x32, 0x38, Escape(s[3..]))
    else if PARAGRAPH_SEPARATOR <= s then Hex(0x32, 0x30, 0x32, 0x39, Escape(s[3..]))
    else Raw(s[0], Escape(s[1..]))
  }

  function IntegerTree(n: int): Tree {
    TNumber(Number.Number(n < 0, Decimal.Digits(if n < 0 then -n else n), [], NoExponent))
  }

  const ONE_SPACE := Blank(SPACE, End)

  /** The tree the printer writes: a space after each comma and colon, nothing else. */
  function Print(v: Json): Tree
    requires Printable(v)
    decreases v
  {
    match v
    case Null => TNull
    case Int(n) => IntegerTree(n)
    case Dbl(d) => if d.Finite? then IntegerTree(d.v.Floor) else TNull
    case Bool(b) => if b then TTrue else TFalse
    case Str(s) => TString(Escape(s))
    case Arr(items) => if items == [] then TEmptyArray(End) else TArray(PrintItems(items, End))
    case Obj(ms) => if ms == [] then TEmptyObject(End) else TObject(PrintMembers(ms, End))
  }

  function PrintItems(items: seq<Json>, pre: Gap): Elems
    requires items != [] && PrintableItems(items)
    decreases items
  {
    var first := Padded(pre, Print(items[0]));
    if |items| == 1 then LastElem(first, End) else MoreElems(first, End, PrintItems(items[1..], ONE_SPACE))
  }

  function PrintMembers(ms: seq<Member>, pre: Gap): Pairs
    requires ms != [] && PrintableMembers(ms)
    decreases ms
  {
    var key := Key.Key(pre, Escape(ms[0].key), End);
    var first := Padded(ONE_SPACE, Print(ms[0].value));
    if |ms| == 1 then LastPair(key, first, End) else MorePairs(key, first, End, PrintMembers(ms[1..], ONE_SPACE))
  }

  /** `Json::dump()` */
  function Dump(v: Json): bytes
    requires Printable(v)
  {
    TreeText(Print(v), [])
  }

  // ----- text is compositional

  lemma {:induction false} GapSplits(g: Gap, x: bytes, k: bytes)
    ensures GapText(g, x + k) == GapText(g, x) + k
  {
    match g
    case End =>
    case Blank(_, more) => GapSplits(more, x, k);
    case Line(body, more) => GapSplits(more, x, k);
    case Block(body, more) => GapSplits(more, x, k);
  }

  lemma {:induction false} ItemsSplit(it: Items, k: bytes)
    ensures ItemsText(it, k) == ItemsText(it, []) + k
  {
    match it
    case Done =>
    case Raw(_, more) => ItemsSplit(more, k);
    case Escaped(_, more) => ItemsSplit(more, k);
    case Hex(_, _, _, _, more) => ItemsSplit(more, k);
  }

  lemma Regroup(a: bytes, x: bytes, k: bytes)
    ensures a + (x + k) == a + x + k
  {
  }

  lemma ExponentSplits(e: Exponent, k: bytes)
    ensures ExponentText(e, k) == ExponentText(e, []) + k
  {
    match e
    case NoExponent =>
    case Exponent(mark, sign, digits) =>
      var signs := if sign.Some? then [sign.value] else [];
      assert digits + [] == digits;
      Regroup(signs, digits, k);
      Regroup([mark], signs + digits, k);
  }

  lemma NumberSplits(n: Number, k: bytes)
    ensures NumberText(n, k) == NumberText(n, []) + k
  {
    hide ExponentText;
    var u, u0 := ExponentText(n.exponent, k), ExponentText(n.exponent, []);
    ExponentSplits(n.exponent, k);
    var tail := if n.fraction != [] then [DOT] + (n.fraction + u0) else u0;
    if n.fraction != [] {
      Regroup(n.fraction, u0, k);
      Regroup([DOT], n.fraction + u0, k);
    }
    Regroup(n.whole, tail, k);
    Regroup(if n.negative then [MINUS] else [], n.whole + tail, k);
  }

  /** The text of a tree does not depend on what follows it. */
  lemma {:induction false} TreeSplits(t: Tree, x: bytes, k: bytes)
    ensures TreeText(t, x + k) == TreeText(t, x) + k
    decreases t
  {
    hide NumberText, ItemsText, GapText, ElemsText, PairsText;
    match t
    case TNumber(num) =>
      NumberSplits(num, x + k);
      NumberSplits(num, x);
      Regroup(NumberText(num, []), x, k);
    case TString(chars) =>
      ItemsSplit(chars, x + k);
      ItemsSplit(chars, x);
      Regroup(ItemsText(chars, []), x, k);
      Regroup([QUOTE], ItemsText(chars, x), k);
    case TEmptyArray(gap) =>
      Regroup([RBRACKET], x, k);
      GapSplits(gap, [RBRACKET] + x, k);
      Regroup([LBRACKET], GapText(gap, [RBRACKET] + x), k);
    case TEmptyObject(gap) =>
      Regroup([RBRACE], x, k);
      GapSplits(gap, [RBRACE] + x, k);
      Regroup([LBRACE], GapText(gap, [RBRACE] + x), k);
    case TArray(elems) =>
      ElemsSplit(elems, x, k);
      Regroup([LBRACKET], ElemsText(elems, x), k);
    case TObject(pairs) =>
      PairsSplit(pairs, x, k);
      Regroup([LBRACE], PairsText(pairs, x), k);
    case TNull => Regroup(NULL_WORD, x, k);
    case TTrue => Regroup(TRUE_WORD, x, k);
    case TFalse => Regroup(FALSE_WORD, x, k);
  }

  lemma {:induction false} ElemsSplit(es: Elems, x: bytes, k: bytes)
    ensures ElemsText(es, x + k) == ElemsText(es, x) + k
    decreases es
  {
    var tail := if es.LastElem? then [RBRACKET] + x else [COMMA] + ElemsText(es.rest, x);
    if es.MoreElems? {
      ElemsSplit(es.rest, x, k);
      assert [COMMA] + ElemsText(es.rest, x + k) == tail + k;
    } else {
      assert [RBRACKET] + (x + k) == tail + k;
    }
    GapSplits(es.post, tail, k);
    TreeSplits(es.item.v, GapText(es.post, tail), k);
    GapSplits(es.item.pre, TreeText(es.item.v, GapText(es.post, tail)), k);
  }

  lemma KeySplits(key: Key, x: bytes, k: bytes)
    ensures KeyText(key, x + k) == KeyText(key, x) + k
  {
    GapSplits(key.post, [COLON] + x, k);
    assert [COLON] + (x + k) == [COLON] + x + k;
    var u := GapText(key.post, [COLON] + x);
    ItemsSplit(key.chars, u + k);
    ItemsSplit(key.chars, u);
    assert [QUOTE] + (ItemsText(key.chars, []) + (u + k)) == [QUOTE] + (ItemsText(key.chars, []) + u) + k;
    GapSplits(key.pre, [QUOTE] + ItemsText(key.chars, u), k);
  }

  lemma {:induction false} PairsSplit(ps: Pairs, x: bytes, k: bytes)
    ensures PairsText(ps, x + k) == PairsText(ps, x) + k
    decreases ps
  {
    var tail := if ps.LastPair? then [RBRACE] + x else [COMMA] + PairsText(ps.rest, x);
    if ps.MorePairs? {
      PairsSplit(ps.rest, x, k);
      assert [COMMA] + PairsText(ps.rest, x + k) == tail + k;
    } else {
      assert [RBRACE] + (x + k) == tail + k;
    }
    GapSplits(ps.post, tail, k);
    TreeSplits(ps.item.v, GapText(ps.post, tail), k);
    GapSplits(ps.item.pre, TreeText(ps.item.v, GapText(ps.post, tail)), k);
    KeySplits(ps.key, PaddedText(ps.item, GapText(ps.post, tail)), k);
  }

  lemma PrintFollowed(v: Json, k: bytes)
    requires Printable(v)
    ensures TreeText(Print(v), k) == Dump(v) + k
  {
    TreeSplits(Print(v), [], k);
    assert [] + k == k;
  }

  // ----- the dump overloads: each appends to `out`

  method DumpInt(value: int, out: bytes) returns (r: bytes)
    ensures r == out + TreeText(IntegerTree(value), [])
  {
    assert Decimal.Signed(value) == TreeText(IntegerTree(value), []);
    r := out + Decimal.Signed(value);
  }

  /** A string between its quotes. */
  function QuotedText(s: bytes): bytes {
    [QUOTE] + ItemsText(Escape(s), [])
  }

  /** What is written for the front of `s`, and how many bytes of `s` that covers. */
  function EscapeHead(s: bytes): (r: (bytes, nat))
    requires s != []
    ensures 1 <= r.1 <= |s|
  {
    if EscapeLetter(s[0]).Some? then ([BACKSLASH, EscapeLetter(s[0]).value], 1)
    else if s[0] < 0x20 then ([BACKSLASH, LETTER_U, ZERO, ZERO, ZERO + s[0] / 16, LowerHex(s[0] % 16)], 1)
    else if LINE_SEPARATOR <= s then ([BACKSLASH, LETTER_U, 0x32, 0x30, 0x32, 0x38], 3)
    else if PARAGRAPH_SEPARATOR <= s then ([BACKSLASH, LETTER_U, 0x32, 0x30, 0x32, 0x39], 3)
    else ([s[0]], 1)
  }

  lemma EscapeEnd()
    ensures ItemsText(Escape([]), []) == [QUOTE]
  {
  }

  lemma EscapeStep(s: bytes)
    requires s != []
    ensures ItemsText(Escape(s), []) == EscapeHead(s).0 + ItemsText(Escape(s[EscapeHead(s).1..]), [])
  {
  }

  method DumpString(value: bytes, out: bytes) returns (r: bytes)
    ensures r == out + QuotedText(value)
  {
    hide Escape, ItemsText;
    r := out + [QUOTE];
    var i := 0;
    assert value[0..] == value;
    while i < |value|
      invariant i <= |value|
      invariant out + ([QUOTE] + ItemsText(Escape(value), [])) == r + ItemsText(Escape(value[i..]), [])
    {
      ghost var s := value[i..];
      var ch := value[i];
      ghost var start, written := i, r;
      EscapeStep(s);
      if ch == BACKSLASH {
        r := r + [BACKSLASH, BACKSLASH];
      } else if ch == QUOTE {
        r := r + [BACKSLASH, QUOTE];
      } else if ch == 0x08 {
        r := r + [BACKSLASH, 0x62];
      } else if ch == 0x0C {
        r := r + [BACKSLASH, 0x66];
      } else if ch == LF {
        r := r + [BACKSLASH, 0x6E];
      } else if ch == CR {
        r := r + [BACKSLASH, 0x72];
      } else if ch == TAB {
        r := r + [BACKSLASH, 0x74];
      } else if ch <= 0x1F {
        r := r + [BACKSLASH, LETTER_U, ZERO, ZERO, ZERO + ch / 16, LowerHex(ch % 16)];
      } else if ch == 0xE2 && At(value, i + 1) == 0x80 && At(value, i + 2) == 0xA8 {
        assert LINE_SEPARATOR <= s;
        r := r + [BACKSLASH, LETTER_U, 0x32, 0x30, 0x32, 0x38];
        i := i + 2;
      } else if ch == 0xE2 && At(value, i + 1) == 0x80 && At(value, i + 2) == 0xA9 {
        assert PARAGRAPH_SEPARATOR <= s && !(LINE_SEPARATOR <= s);
        r := r + [BACKSLASH, LETTER_U, 0x32, 0x30, 0x32, 0x39];
        i := i + 2;
      } else {
        r := r + [ch];
      }
      i := i + 1;
      assert r == written + EscapeHead(s).0 && i == start + EscapeHead(s).1;
      assert s[EscapeHead(s).1..] == value[i..];
    }
    assert value[i..] == [];
    EscapeEnd();
    r := r + [QUOTE];
  }

  /** The rest of an array's text, from the element before which the loop stands. */
  function ArrayFrom(rest: seq<Json>, first: bool): bytes
    requires PrintableItems(rest)
  {
    if rest == [] then [RBRACKET]
    else if first then ElemsText(PrintItems(rest, End), [])
    else [COMMA] + ElemsText(PrintItems(rest, ONE_SPACE), [])
  }

  lemma OneSpace(x: bytes)
    ensures GapText(ONE_SPACE, x) == [SPACE] + x && GapText(End, x) == x == [] + x
    ensures [COMMA] + ([SPACE] + x) == [COMMA, SPACE] + x
  {
    assert GapText(End, x) == x;
  }

  lemma ItemText(rest: seq<Json>, pre: Gap)
    requires rest != [] && PrintableItems(rest)
    ensures ElemsText(PrintItems(rest, pre), [])
            == GapText(pre, TreeText(Print(rest[0]), ArrayFrom(rest[1..], false)))
  {
    hide Print, TreeText;
    assert [RBRACKET] + [] == [RBRACKET];
  }

  lemma ArrayStep(rest: seq<Json>, first: bool)
    requires rest != [] && PrintableItems(rest)
    ensures ArrayFrom(rest, first)
            == (if first then [] else [COMMA, SPACE]) + (Dump(rest[0]) + ArrayFrom(rest[1..], false))
  {
    hide Print, TreeText;
    PrintFollowed(rest[0], ArrayFrom(rest[1..], false));
    ItemText(rest, if first then End else ONE_SPACE);
    OneSpace(Dump(rest[0]) + ArrayFrom(rest[1..], false));
  }

  lemma ArrayBounds(values: seq<Json>)
    requires PrintableItems(values)
    ensures Dump(Arr(values)) == [LBRACKET] + ArrayFrom(values, true)
    ensures ArrayFrom([], true) == ArrayFrom([], false) == [RBRACKET]
  {
    assert [RBRACKET] + [] == [RBRACKET];
  }

  method DumpArray(values: seq<Json>, out: bytes) returns (r: bytes)
    requires PrintableItems(values)
    ensures r == out + Dump(Arr(values))
    decreases values, 0
  {
    hide Dump, ArrayFrom;
    var first := true;
    r := out + [LBRACKET];
    ghost var goal := out + Dump(Arr(values));
    ArrayBounds(values);
    var k := 0;
    assert values[0..] == values;
    while k < |values|
      invariant 0 <= k <= |values| && PrintableItems(values[k..])
      invariant goal == r + ArrayFrom(values[k..], first)
    {
      ghost var rest, before, sep := values[k..], r, if first then [] else [COMMA, SPACE];
      ArrayStep(rest, first);
      assert rest[0] == values[k] && rest[1..] == values[k + 1..];
      if !first {
        r := r + [COMMA, SPACE];
      }
      r := DumpValue(values[k], r);
      assert r == before + sep + Dump(rest[0]);
      first := false;
      k := k + 1;
    }
    assert values[k..] == [];
    r := r + [RBRACKET];
  }

  function ObjectFrom(rest: seq<Member>, first: bool): bytes
    requires PrintableMembers(rest)
  {
    if rest == [] then [RBRACE]
    else if first then PairsText(PrintMembers(rest, End), [])
    else [COMMA] + PairsText(PrintMembers(rest, ONE_SPACE), [])
  }

  lemma MemberText(rest: seq<Member>, pre: Gap, u: bytes)
    requires rest != [] && PrintableMembers(rest)
    requires u == [COLON] + PaddedText(Padded(ONE_SPACE, Print(rest[0].value)), ObjectFrom(rest[1..], false))
    ensures PairsText(PrintMembers(rest, pre), [])
            == GapText(pre, [QUOTE] + ItemsText(Escape(rest[0].key), u))
  {
    hide Print, TreeText, ItemsText, Escape, PaddedText;
    assert [RBRACE] + [] == [RBRACE];
  }

  lemma ObjectStep(rest: seq<Member>, first: bool)
    requires rest != [] && PrintableMembers(rest)
    ensures ObjectFrom(rest, first)
            == (if first then [] else [COMMA, SPACE])
               + (QuotedText(rest[0].key) + ([COLON, SPACE] + (Dump(rest[0].value) + ObjectFrom(rest[1..], false))))
  {
    hide Print, TreeText, ItemsText, Escape;
    var after := ObjectFrom(rest[1..], false);
    var value := Dump(rest[0].value) + after;
    PrintFollowed(rest[0].value, after);
    assert [RBRACE] + [] == [RBRACE];
    OneSpace(value);
    var item := Padded(ONE_SPACE, Print(rest[0].value));
    assert PaddedText(item, after) == [SPACE] + value;
    var u := [COLON, SPACE] + value;
    assert [COLON] + ([SPACE] + value) == u;
    ItemsSplit(Escape(rest[0].key), u);
    assert [QUOTE] + (ItemsText(Escape(rest[0].key), []) + u) == QuotedText(rest[0].key) + u;
    MemberText(rest, if first then End else ONE_SPACE, u);
    OneSpace(QuotedText(rest[0].key) + u);
  }

  lemma ObjectBounds(values: seq<Member>)
    requires PrintableMembers(values)
    ensures Dump(Obj(values)) == [LBRACE] + ObjectFrom(values, true)
    ensures ObjectFrom([], true) == ObjectFrom([], false) == [RBRACE]
  {
    assert [RBRACE] + [] == [RBRACE];
  }

  method DumpObject(values: seq<Member>, out: bytes) returns (r: bytes)
    requires PrintableMembers(values)
    ensures r == out + Dump(Obj(values))
    decreases values, 0
  {
    hide Dump, ObjectFrom, QuotedText;
    var first := true;
    r := out + [LBRACE];
    ghost var goal := out + Dump(Obj(values));
    ObjectBounds(values);
    var k := 0;
    assert values[0..] == values;
    while k < |values|
      invariant 0 <= k <= |values| && PrintableMembers(values[k..])
      invariant goal == r + ObjectFrom(values[k..], first)
    {
      ghost var rest, before, sep := values[k..], r, if first then [] else [COMMA, SPACE];
      ObjectStep(rest, first);
      assert rest[0] == values[k] && rest[1..] == values[k + 1..];
      if !first {
        r := r + [COMMA, SPACE];
      }
      r := DumpString(values[k].key, r);
      r := r + [COLON, SPACE];
      r := DumpValue(values[k].value, r);
      assert r == before + sep + QuotedText(rest[0].key) + [COLON, SPACE] + Dump(rest[0].value);
      first := false;
      k := k + 1;
    }
    assert values[k..] == [];
    r := r + [RBRACE];
  }

  /** `Json::dump(out)` */
  method DumpValue(v: Json, out: bytes) returns (r: bytes)
    requires Printable(v)
    ensures r == out + Dump(v)
    decreases v
  {
    match v
    case Null => r := out + NULL_WORD;
    case Int(n) => r := DumpInt(n, out);
    case Dbl(d) =>
      if d.Finite? {
        r := DumpInt(d.v.Floor, out);
      } else {
        r := out + NULL_WORD;
      }
    case Bool(b) => r := out + if b then TRUE_WORD else FALSE_WORD;
    case Str(s) => r := DumpString(s, out);
    case Arr(items) => r := DumpArray(items, out);
    case Obj(ms) => r := DumpObject(ms, out);
  }

  // ----- what the parser makes of it

  predicate Finites(v: Json) {
    match v
    case Dbl(d) => d.Finite?
    case Arr(items) => FiniteItems(items)
    case Obj(ms) => FiniteMembers(ms)
    case _ => true
  }

  predicate FiniteItems(items: seq<Json>) {
    items == [] || (Finites(items[0]) && FiniteItems(items[1..]))
  }

  predicate FiniteMembers(ms: seq<Member>) {
    ms == [] || (Finites(ms[0].value) && FiniteMembers(ms[1..]))
  }

  function Depth(v: Json): nat {
    match v
    case Arr(items) => if items == [] then 0 else 1 + ItemsDepth(items)
    case Obj(ms) => if ms == [] then 0 else 1 + MembersDepth(ms)
    case _ => 0
  }

  function ItemsDepth(items: seq<Json>): nat {
    if items == [] then 0 else Max(Depth(items[0]), ItemsDepth(items[1..]))
  }

  function MembersDepth(ms: seq<Member>): nat {
    if ms == [] then 0 else Max(Depth(ms[0].value), MembersDepth(ms[1..]))
  }

  /** An integer comes back as an int when its text has at most nine characters, else as a double. */
  function RereadInteger(n: int): Json {
    if |Decimal.Signed(n)| <= INT_DIGITS then Int(n) else Dbl(Finite(n as real))
  }

  function Reread(v: Json): Json
    requires Printable(v)
    decreases v
  {
    match v
    case Int(n) => RereadInteger(n)
    case Dbl(d) => if d.Finite? then RereadInteger(d.v.Floor) else Null
    case Arr(items) => Arr(RereadItems(items))
    case Obj(ms) => Obj(RereadMembers(ms))
    case _ => v
  }

  function RereadItems(items: seq<Json>): seq<Json>
    requires PrintableItems(items)
    decreases items
  {
    if items == [] then [] else [Reread(items[0])] + RereadItems(items[1..])
  }

  function RereadMembers(ms: seq<Member>): (r: seq<Member>)
    requires PrintableMembers(ms)
    ensures |r| == |ms| && forall k :: 0 <= k < |r| ==> r[k].key == ms[k].key
    decreases ms
  {
    if ms == [] then [] else [Member(ms[0].key, Reread(ms[0].value))] + RereadMembers(ms[1..])
  }

  lemma {:induction false} EscapeOk(s: bytes)
    ensures ItemsOk(Escape(s))
    decreases |s|
  {
    if s != [] {
      EscapeOk(s[1..]);
      if |s| >= 3 { EscapeOk(s[3..]); }
    }
  }

  lemma ByteUnit(b: byte, more: Items)
    ensures Assemble([Byte(b)] + Units(more)) == [b] + StringValue(more)
  {
    assert ([Byte(b)] + Units(more))[1..] == Units(more);
  }

  lemma CodeUnit(u: unit16, more: Items)
    requires !Utf8.IsLead(u)
    ensures Assemble([Code(u)] + Units(more)) == Utf8.Encode(u) + StringValue(more)
  {
    assert ([Code(u)] + Units(more))[1..] == Units(more);
  }

  lemma ControlUnit(b: byte, more: Items)
    requires b < 0x20
    ensures Assemble([Code(HexValue(ZERO, ZERO, ZERO + b / 16, LowerHex(b % 16)))] + Units(more))
            == [b] + StringValue(more)
  {
    hide Assemble, StringValue, Units;
    assert HexValue(ZERO, ZERO, ZERO + b / 16, LowerHex(b % 16)) == b;
    CodeUnit(b, more);
  }

  lemma NothingAssembled()
    ensures Assemble([]) == []
  {
  }

  lemma SeparatorUnits(more: Items)
    ensures Assemble([Code(HexValue(0x32, 0x30, 0x32, 0x38))] + Units(more)) == LINE_SEPARATOR + StringValue(more)
    ensures Assemble([Code(HexValue(0x32, 0x30, 0x32, 0x39))] + Units(more)) == PARAGRAPH_SEPARATOR + StringValue(more)
  {
    hide Assemble, StringValue;
    assert HexValue(0x32, 0x30, 0x32, 0x38) == 0x2028 && HexValue(0x32, 0x30, 0x32, 0x39) == 0x2029;
    assert Utf8.Encode(0x2028) == LINE_SEPARATOR && Utf8.Encode(0x2029) == PARAGRAPH_SEPARATOR;
    CodeUnit(0x2028, more);
    CodeUnit(0x2029, more);
  }

  /** Escaping loses nothing, whatever the bytes. */
  lemma {:induction false} EscapeInverts(s: bytes)
    ensures StringValue(Escape(s)) == s
    decreases |s|
  {
    hide Assemble, HexValue, LowerHex;
    if s == [] {
      assert StringValue(Done) == [] by { NothingAssembled(); }
    } else if EscapeLetter(s[0]).Some? {
      EscapeInverts(s[1..]);
      ByteUnit(s[0], Escape(s[1..]));
    } else if s[0] < 0x20 {
      EscapeInverts(s[1..]);
      ControlUnit(s[0], Escape(s[1..]));
    } else if LINE_SEPARATOR <= s {
      EscapeInverts(s[3..]);
      SeparatorUnits(Escape(s[3..]));
      assert s == LINE_SEPARATOR + s[3..];
    } else if PARAGRAPH_SEPARATOR <= s {
      EscapeInverts(s[3..]);
      SeparatorUnits(Escape(s[3..]));
      assert s == PARAGRAPH_SEPARATOR + s[3..];
    } else {
      EscapeInverts(s[1..]);
      ByteUnit(s[0], Escape(s[1..]));
    }
  }

  lemma IntegerReread(n: int)
    ensures Value(IntegerTree(n)) == RereadInteger(n)
    ensures NumberOk(IntegerTree(n).num)
  {
    hide Decimal.Digits;
    var num := IntegerTree(n).num;
    Decimal.NumberOfDigits(if n < 0 then -n else n);
    assert num.whole + num.fraction == num.whole;
    assert PowerOfTen(0) == 1.0;
  }

  lemma {:induction false} PrintOk(v: Json, m: Mode)
    requires Printable(v)
    ensures TreeOk(Print(v), m)
    ensures Height(Print(v)) == Depth(v)
    decreases v
  {
    match v
    case Int(n) => IntegerReread(n);
    case Dbl(d) => if d.Finite? { IntegerReread(d.v.Floor); }
    case Str(s) => EscapeOk(s);
    case Arr(items) => if items != [] { PrintItemsOk(items, End, m); }
    case Obj(ms) => if ms != [] { PrintMembersOk(ms, End, m); }
    case _ =>
  }

  lemma {:induction false} PrintItemsOk(items: seq<Json>, pre: Gap, m: Mode)
    requires items != [] && PrintableItems(items) && GapOk(pre, m, false)
    ensures ElemsOk(PrintItems(items, pre), m)
    ensures ElemsHeight(PrintItems(items, pre)) == ItemsDepth(items)
    decreases items
  {
    PrintOk(items[0], m);
    if |items| > 1 {
      PrintItemsOk(items[1..], ONE_SPACE, m);
    }
  }

  lemma {:induction false} PrintMembersOk(ms: seq<Member>, pre: Gap, m: Mode)
    requires ms != [] && PrintableMembers(ms) && GapOk(pre, m, false)
    ensures PairsOk(PrintMembers(ms, pre), m)
    ensures PairsHeight(PrintMembers(ms, pre)) == MembersDepth(ms)
    decreases ms
  {
    EscapeOk(ms[0].key);
    PrintOk(ms[0].value, m);
    if |ms| > 1 {
      PrintMembersOk(ms[1..], ONE_SPACE, m);
    }
  }

  lemma {:induction false} PrintDenotes(v: Json)
    requires Printable(v) && WellFormed(v)
    ensures Value(Print(v)) == Reread(v)
    decreases v
  {
    hide Escape, StringValue, IntegerTree, RereadInteger, PrintItems, PrintMembers, ElemValues, PairValues;
    match v
    case Int(n) => IntegerReread(n);
    case Dbl(d) => if d.Finite? { IntegerReread(d.v.Floor); }
    case Str(s) => EscapeInverts(s);
    case Arr(items) => if items != [] { PrintItemsDenote(items, End); }
    case Obj(ms) =>
      if ms != [] {
        PrintMembersDenote([], ms, End);
        assert [] + RereadMembers(ms) == RereadMembers(ms);
      }
    case _ =>
  }

  lemma {:induction false} PrintItemsDenote(items: seq<Json>, pre: Gap)
    requires items != [] && PrintableItems(items) && forall k :: 0 <= k < |items| ==> WellFormed(items[k])
    ensures ElemValues(PrintItems(items, pre)) == RereadItems(items)
    decreases items
  {
    PrintDenotes(items[0]);
    if |items| > 1 {
      PrintItemsDenote(items[1..], ONE_SPACE);
    }
  }

  lemma FirstMemberDenotes(data: seq<Member>, ms: seq<Member>, pre: Gap)
    requires ms != [] && PrintableMembers(ms) && Value(Print(ms[0].value)) == Reread(ms[0].value)
    requires forall j :: 0 <= j < |data| ==> Below(data[j].key, ms[0].key)
    ensures var next := data + [Member(ms[0].key, Reread(ms[0].value))];
            PairValues(data, PrintMembers(ms, pre))
            == if |ms| == 1 then next else PairValues(next, PrintMembers(ms[1..], ONE_SPACE))
  {
    hide Escape, StringValue, Print, Value, Reread, Insert;
    EscapeInverts(ms[0].key);
    InsertLast(data, ms[0].key, Reread(ms[0].value));
  }

  /** Members in key order are appended one by one. */
  lemma {:induction false} PrintMembersDenote(data: seq<Member>, ms: seq<Member>, pre: Gap)
    requires ms != [] && PrintableMembers(ms) && forall k :: 0 <= k < |ms| ==> WellFormed(ms[k].value)
    requires KeyOrdered(ms)
    requires forall j, k :: 0 <= j < |data| && 0 <= k < |ms| ==> Below(data[j].key, ms[k].key)
    ensures PairValues(data, PrintMembers(ms, pre)) == data + RereadMembers(ms)
    decreases ms
  {
    hide Escape, StringValue, Print, Value, Reread, Insert, PrintMembers, PairValues;
    var next := data + [Member(ms[0].key, Reread(ms[0].value))];
    PrintDenotes(ms[0].value);
    FirstMemberDenotes(data, ms, pre);
    if |ms| > 1 {
      PrintMembersDenote(next, ms[1..], ONE_SPACE);
      assert next + RereadMembers(ms[1..]) == data + RereadMembers(ms);
    }
  }

  /** What comes back equals what was printed, unless a number was not finite. */
  lemma {:induction false} RereadEqual(v: Json)
    requires Printable(v)
    ensures JsonOrder.Equal(JsonOrder.NEVER, Reread(v), v) <==> Finites(v)
    decreases v
  {
    match v
    case Arr(items) => RereadItemsEqual(items);
    case Obj(ms) => RereadMembersEqual(ms);
    case _ =>
  }

  lemma {:induction false} RereadItemsEqual(items: seq<Json>)
    requires PrintableItems(items)
    ensures JsonOrder.EqualItems(JsonOrder.NEVER, RereadItems(items), items) <==> FiniteItems(items)
    decreases items
  {
    if items != [] {
      RereadEqual(items[0]);
      RereadItemsEqual(items[1..]);
    }
  }

  lemma {:induction false} RereadMembersEqual(ms: seq<Member>)
    requires PrintableMembers(ms)
    ensures JsonOrder.EqualMembers(JsonOrder.NEVER, RereadMembers(ms), ms) <==> FiniteMembers(ms)
    decreases ms
  {
    if ms != [] {
      RereadEqual(ms[0].value);
      RereadMembersEqual(ms[1..]);
    }
  }

  /** Parsing a dump gives the value back exactly when it nests at most 200 deep and its numbers are finite. */
  lemma RoundTrip(v: Json, m: Mode)
    requires Printable(v) && WellFormed(v)
    ensures Parse(Dump(v), m) == if Depth(v) <= MAX_DEPTH then Some(Reread(v)) else None
    ensures Depth(v) <= MAX_DEPTH && Finites(v) <==>
            Parse(Dump(v), m).Some? && JsonOrder.Equal(JsonOrder.NEVER, Parse(Dump(v), m).value, v)
  {
    PrintOk(v, m);
    PrintDenotes(v);
    RereadEqual(v);
    var d := Document.Document(Padded(End, Print(v)), End);
    assert DocumentText(d) == Dump(v) && DocumentOk(d, m);
    if Depth(v) <= MAX_DEPTH {
      JsonRecognition.Derivation(d, Dump(v), m);
    } else {
      JsonRecognition.TooDeep(d, m);
    }
  }

  // ----- up to the constructor

  function Power(k: nat): nat {
    if k == 0 then 1 else 10 * Power(k - 1)
  }

  lemma {:induction false} TenAtLeast(k: nat)
    requires k > 0
    ensures Power(k) >= 10
  {
    if k > 1 {
      TenAtLeast(k - 1);
    }
  }

  lemma {:induction false} DigitCount(n: nat, k: nat)
    requires k > 0
    ensures |Decimal.Digits(n)| <= k <==> n < Power(k)
    decreases n
  {
    if n >= 10 {
      if k == 1 {
        assert Power(1) == 10;
      } else {
        DigitCount(n / 10, k - 1);
      }
    } else {
      TenAtLeast(k);
    }
  }

  predicate NineCharacters(n: int) {
    -99_999_999 <= n <= 999_999_999
  }

  /** The integers whose text, sign included, has at most nine characters. */
  lemma NineCharactersExactly(n: int)
    ensures |Decimal.Signed(n)| <= INT_DIGITS <==> NineCharacters(n)
  {
    hide Decimal.Digits;
    assert Power(4) == 10_000 && Power(8) == 10_000 * Power(4);
    if n < 0 {
      DigitCount(-n, 8);
    } else {
      DigitCount(n, 9);
    }
  }

  /** Every int has at most nine characters, and every double is finite and has more. */
  predicate Exact(v: Json) {
    match v
    case Int(n) => NineCharacters(n)
    case Dbl(d) => d.Finite? && !NineCharacters(d.v.Floor)
    case Arr(items) => ExactItems(items)
    case Obj(ms) => ExactMembers(ms)
    case _ => true
  }

  predicate ExactItems(items: seq<Json>) {
    items == [] || (Exact(items[0]) && ExactItems(items[1..]))
  }

  predicate ExactMembers(ms: seq<Member>) {
    ms == [] || (Exact(ms[0].value) && ExactMembers(ms[1..]))
  }

  lemma {:induction false} RereadIdentical(v: Json)
    requires Printable(v)
    ensures Reread(v) == v <==> Exact(v)
    decreases v
  {
    hide Decimal.Signed;
    match v
    case Int(n) => NineCharactersExactly(n);
    case Dbl(d) => if d.Finite? { NineCharactersExactly(d.v.Floor); }
    case Arr(items) => RereadItemsIdentical(items);
    case Obj(ms) => RereadMembersIdentical(ms);
    case _ =>
  }

  lemma {:induction false} RereadItemsIdentical(items: seq<Json>)
    requires PrintableItems(items)
    ensures RereadItems(items) == items <==> ExactItems(items)
    decreases items
  {
    if items != [] {
      RereadIdentical(items[0]);
      RereadItemsIdentical(items[1..]);
      assert items == [items[0]] + items[1..];
      assert RereadItems(items)[0] == Reread(items[0]) && RereadItems(items)[1..] == RereadItems(items[1..]);
    }
  }

  lemma {:induction false} RereadMembersIdentical(ms: seq<Member>)
    requires PrintableMembers(ms)
    ensures RereadMembers(ms) == ms <==> ExactMembers(ms)
    decreases ms
  {
    if ms != [] {
      RereadIdentical(ms[0].value);
      RereadMembersIdentical(ms[1..]);
      assert ms == [ms[0]] + ms[1..];
      assert RereadMembers(ms)[0].value == Reread(ms[0].value) && RereadMembers(ms)[1..] == RereadMembers(ms[1..]);
    }
  }

  /** Parsing a dump gives the very value back, constructors included, exactly for such values. */
  lemma IdenticalRoundTrip(v: Json, m: Mode)
    requires Printable(v) && WellFormed(v)
    ensures Parse(Dump(v), m) == Some(v) <==> Depth(v) <= MAX_DEPTH && Exact(v)
  {
    hide Parse, Reread, Dump, Exact, Depth;
    RoundTrip(v, m);
    RereadIdentical(v);
  }

  /** A ten-digit int comes back as a double. */
  lemma LongIntComesBackDouble(m: Mode)
    ensures Parse(Dump(Int(1_234_567_890)), m) == Some(Dbl(Finite(1_234_567_890.0)))
  {
    hide Parse, Decimal.Signed;
    NineCharactersExactly(1_234_567_890);
    RoundTrip(Int(1_234_567_890), m);
  }

  // ----- streams

  function SpaceSeparated(vs: seq<Json>): bytes
    requires PrintableItems(vs)
  {
    if vs == [] then []
    else if |vs| == 1 then Dump(vs[0])
    else Dump(vs[0]) + ([SPACE] + SpaceSeparated(vs[1..]))
  }

  lemma DumpStarts(v: Json, m: Mode)
    requires Printable(v)
    ensures Dump(v) != [] && JsonRecognition.GapStop(Dump(v), m)
  {
    PrintOk(v, m);
    JsonRecognition.TreeComplete(Print(v), [], MAX_DEPTH - Depth(v), m);
  }

  lemma SeparatedStarts(vs: seq<Json>, m: Mode)
    requires vs != [] && PrintableItems(vs)
    ensures SpaceSeparated(vs) != [] && JsonRecognition.GapStop(SpaceSeparated(vs), m)
  {
    DumpStarts(vs[0], m);
  }

  lemma PrintedPadded(v: Json, k: bytes, m: Mode)
    requires Printable(v)
    ensures var p := Padded(End, Print(v));
            PaddedText(p, k) == Dump(v) + k && PaddedOk(p, m) && Height(p.v) == Depth(v)
  {
    hide TreeText, TreeOk, Print;
    PrintOk(v, m);
    PrintFollowed(v, k);
  }

  /** A printed value in front of a stream is read, or refused when it nests too deep. */
  lemma PrintedValue(v: Json, k: bytes, m: Mode)
    requires Printable(v) && WellFormed(v) && JsonRecognition.NumberStop(k)
    ensures ReadValue(Dump(v) + k, 0, m)
            == if Depth(v) <= MAX_DEPTH then Read(Padded(End, Print(v)), k) else Failed
    ensures Value(Print(v)) == Reread(v)
  {
    hide ReadValue, TreeText, Print, Value, Reread, PaddedOk, Depth;
    PrintDenotes(v);
    var p := Padded(End, Print(v));
    PrintedPadded(v, k, m);
    if Depth(v) <= MAX_DEPTH {
      JsonRecognition.ValueComplete(p, k, 0, m);
    } else {
      JsonRecognition.TooDeepValue(p, k, 0, m);
    }
  }

  /** The space between two values. */
  lemma SpaceBetween(rest: bytes, m: Mode)
    requires rest != [] && JsonRecognition.GapStop(rest, m)
    ensures ReadGap([SPACE] + rest, m) == Read(ONE_SPACE, rest)
    ensures ReadGap([], m) == Read(End, [])
  {
    JsonRecognition.GapComplete(ONE_SPACE, rest, m);
  }

  lemma {:induction false} StreamRead(vs: seq<Json>, m: Mode)
    requires PrintableItems(vs) && forall k :: 0 <= k < |vs| ==> WellFormed(vs[k])
    ensures var r := JsonParser.ReadStream(SpaceSeparated(vs), m);
            && (r.ok <==> ItemsDepth(vs) <= MAX_DEPTH)
            && (r.ok ==> r == JsonParser.Stream(RereadItems(vs), [], true))
    decreases vs
  {
    hide ReadValue, ReadGap, Dump, Depth, Reread, Print, Value, Printable;
    if |vs| == 1 {
      PrintedValue(vs[0], [], m);
      assert Dump(vs[0]) + [] == Dump(vs[0]);
      DumpStarts(vs[0], m);
      SpaceBetween(Dump(vs[0]), m);
    } else if |vs| > 1 {
      var rest := SpaceSeparated(vs[1..]);
      PrintedValue(vs[0], [SPACE] + rest, m);
      DumpStarts(vs[0], m);
      SeparatedStarts(vs[1..], m);
      SpaceBetween(rest, m);
      StreamRead(vs[1..], m);
    }
  }

  /** Dumps separated by single spaces are read as one stream to its end, and give an equal list back, exactly when no
      value nests deeper than 200 and all numbers are finite. */
  lemma StreamRoundTrip(vs: seq<Json>, m: Mode)
    requires PrintableItems(vs) && forall k :: 0 <= k < |vs| ==> WellFormed(vs[k])
    ensures var r := JsonParser.ReadStream(SpaceSeparated(vs), m);
            && (r.ok <==> ItemsDepth(vs) <= MAX_DEPTH)
            && (r.ok ==> r == JsonParser.Stream(RereadItems(vs), [], true))
            && (r.ok && r.rest == [] && JsonOrder.EqualItems(JsonOrder.NEVER, r.values, vs)
                <==> ItemsDepth(vs) <= MAX_DEPTH && FiniteItems(vs))
  {
    StreamRead(vs, m);
    RereadItemsEqual(vs);
  }
}
