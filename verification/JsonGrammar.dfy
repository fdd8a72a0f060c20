/** The grammar of sections 2 to 7 of RFC 8259 as concrete syntax trees: what a tree spells, and the value it denotes.
    In `Comments` mode a gap may also hold C and C++ comments. Every `XText(x, k)` is the text of `x` followed by
    `k`. */
module JsonGrammar {
  import opened Bytes
  import opened JsonValue
  import Decimal
  import Utf8

  /** `JsonParse` */
  datatype Mode = Standard | Comments

  /** Text between tokens. A line comment stops before its newline, which is then white space. */
  datatype Gap =
    | End
    | Blank(b: byte, more: Gap)
    | Line(body: bytes, more: Gap)
    | Block(body: bytes, more: Gap)

  datatype Number = Number(negative: bool, whole: bytes, fraction: bytes, exponent: Exponent)

  datatype Exponent = NoExponent | Exponent(mark: byte, sign: Option<byte>, digits: bytes)

  /** The characters of a string: raw bytes, two-character escapes, and escapes of four hexadecimal digits. */
  datatype Items =
    | Done
    | Raw(b: byte, more: Items)
    | Escaped(c: byte, more: Items)
    | Hex(a: byte, b: byte, c: byte, d: byte, more: Items)

  datatype Tree =
    | TNull
    | TTrue
    | TFalse
    | TNumber(num: Number)
    | TString(chars: Items)
    | TEmptyArray(gap: Gap)
    | TArray(elems: Elems)
    | TEmptyObject(gap: Gap)
    | TObject(pairs: Pairs)

  datatype Padded = Padded(pre: Gap, v: Tree)

  datatype Elems =
    | LastElem(item: Padded, post: Gap)
    | MoreElems(item: Padded, post: Gap, rest: Elems)

  datatype Key = Key(pre: Gap, chars: Items, post: Gap)

  datatype Pairs =
    | LastPair(key: Key, item: Padded, post: Gap)
    | MorePairs(key: Key, item: Padded, post: Gap, rest: Pairs)

  datatype Document = Document(item: Padded, post: Gap)

  const MAX_DEPTH := 200

  const LETTER_U: byte := 0x75
  const NULL_WORD: bytes := [0x6E, 0x75, 0x6C, 0x6C]
  const TRUE_WORD: bytes := [0x74, 0x72, 0x75, 0x65]
  const FALSE_WORD: bytes := [0x66, 0x61, 0x6C, 0x73, 0x65]

  predicate IsBlank(b: byte) {
    b == SPACE || b == CR || b == LF || b == TAB
  }

  predicate IsHexDigit(b: byte) {
    Decimal.IsDigit(b) || 0x61 <= b <= 0x66 || 0x41 <= b <= 0x46
  }

  predicate IsExponentMark(b: byte) {
    b == 0x65 || b == 0x45
  }

  /** The letter after a backslash in a two-character escape, and the byte it stands for. */
  function Unescape(c: byte): Option<byte> {
    if c == 0x62 then Some(0x08)
    else if c == 0x66 then Some(0x0C)
    else if c == 0x6E then Some(LF)
    else if c == 0x72 then Some(CR)
    else if c == 0x74 then Some(TAB)
    else if c == QUOTE || c == BACKSLASH || c == SLASH then Some(c)
    else None
  }

  // ----- what a tree spells

  function GapText(g: Gap, k: bytes): bytes {
    match g
    case End => k
    case Blank(b, more) => [b] + GapText(more, k)
    case Line(body, more) => [SLASH, SLASH] + (body + GapText(more, k))
    case Block(body, more) => [SLASH, STAR] + (body + ([STAR, SLASH] + GapText(more, k)))
  }

  function ExponentText(e: Exponent, k: bytes): bytes {
    match e
    case NoExponent => k
    case Exponent(mark, sign, digits) =>
      [mark] + ((if sign.Some? then [sign.value] else []) + (digits + k))
  }

  function NumberText(n: Number, k: bytes): bytes {
    (if n.negative then [MINUS] else [])
    + (n.whole + (if n.fraction != [] then [DOT] + (n.fraction + ExponentText(n.exponent, k))
                  else ExponentText(n.exponent, k)))
  }

  /** The characters and the closing quote. */
  function ItemsText(it: Items, k: bytes): bytes {
    match it
    case Done => [QUOTE] + k
    case Raw(b, more) => [b] + ItemsText(more, k)
    case Escaped(c, more) => [BACKSLASH, c] + ItemsText(more, k)
    case Hex(a, b, c, d, more) => [BACKSLASH, LETTER_U, a, b, c, d] + ItemsText(more, k)
  }

  function TreeText(t: Tree, k: bytes): bytes {
    match t
    case TNull => NULL_WORD + k
    case TTrue => TRUE_WORD + k
    case TFalse => FALSE_WORD + k
    case TNumber(num) => NumberText(num, k)
    case TString(chars) => [QUOTE] + ItemsText(chars, k)
    case TEmptyArray(gap) => [LBRACKET] + GapText(gap, [RBRACKET] + k)
    case TArray(elems) => [LBRACKET] + ElemsText(elems, k)
    case TEmptyObject(gap) => [LBRACE] + GapText(gap, [RBRACE] + k)
    case TObject(pairs) => [LBRACE] + PairsText(pairs, k)
  }

  function PaddedText(p: Padded, k: bytes): bytes {
    GapText(p.pre, TreeText(p.v, k))
  }

  /** The elements and the closing bracket. */
  function ElemsText(es: Elems, k: bytes): bytes {
    match es
    case LastElem(item, post) => PaddedText(item, GapText(post, [RBRACKET] + k))
    case MoreElems(item, post, rest) => PaddedText(item, GapText(post, [COMMA] + ElemsText(rest, k)))
  }

  function KeyText(key: Key, k: bytes): bytes {
    GapText(key.pre, [QUOTE] + ItemsText(key.chars, GapText(key.post, [COLON] + k)))
  }

  /** The members and the closing brace. */
  function PairsText(ps: Pairs, k: bytes): bytes {
    match ps
    case LastPair(key, item, post) => KeyText(key, PaddedText(item, GapText(post, [RBRACE] + k)))
    case MorePairs(key, item, post, rest) =>
      KeyText(key, PaddedText(item, GapText(post, [COMMA] + PairsText(rest, k))))
  }

  function DocumentText(d: Document): bytes {
    PaddedText(d.item, GapText(d.post, []))
  }

  // ----- which trees the grammar allows

  predicate NoClose(body: bytes) {
    forall k :: 0 <= k < |body| - 1 ==> !(body[k] == STAR && body[k + 1] == SLASH)
  }

  /** `last` says whether the gap runs up to the end of the text, where a line comment needs no newline. */
  predicate GapOk(g: Gap, m: Mode, last: bool) {
    match g
    case End => true
    case Blank(b, more) => IsBlank(b) && GapOk(more, m, last)
    case Line(body, more) =>
      && m.Comments? && LF !in body
      && ((more.Blank? && more.b == LF) || (more.End? && last))
      && GapOk(more, m, last)
    case Block(body, more) => m.Comments? && NoClose(body) && GapOk(more, m, last)
  }

  predicate ExponentOk(e: Exponent) {
    e.Exponent? ==>
      && IsExponentMark(e.mark)
      && (e.sign.Some? ==> e.sign.value == PLUS || e.sign.value == MINUS)
      && e.digits != [] && Decimal.AllDigits(e.digits)
  }

  predicate NumberOk(n: Number) {
    && n.whole != [] && Decimal.AllDigits(n.whole)
    && (n.whole[0] == ZERO ==> |n.whole| == 1)
    && Decimal.AllDigits(n.fraction)
    && ExponentOk(n.exponent)
  }

  predicate ItemsOk(it: Items) {
    match it
    case Done => true
    case Raw(b, more) => b >= 0x20 && b != QUOTE && b != BACKSLASH && ItemsOk(more)
    case Escaped(c, more) => Unescape(c).Some? && ItemsOk(more)
    case Hex(a, b, c, d, more) => IsHexDigit(a) && IsHexDigit(b) && IsHexDigit(c) && IsHexDigit(d) && ItemsOk(more)
  }

  predicate TreeOk(t: Tree, m: Mode) {
    match t
    case TNumber(num) => NumberOk(num)
    case TString(chars) => ItemsOk(chars)
    case TEmptyArray(gap) => GapOk(gap, m, false)
    case TArray(elems) => ElemsOk(elems, m)
    case TEmptyObject(gap) => GapOk(gap, m, false)
    case TObject(pairs) => PairsOk(pairs, m)
    case _ => true
  }

  predicate PaddedOk(p: Padded, m: Mode) {
    GapOk(p.pre, m, false) && TreeOk(p.v, m)
  }

  predicate ElemsOk(es: Elems, m: Mode) {
    PaddedOk(es.item, m) && GapOk(es.post, m, false) && (es.MoreElems? ==> ElemsOk(es.rest, m))
  }

  predicate KeyOk(key: Key, m: Mode) {
    GapOk(key.pre, m, false) && ItemsOk(key.chars) && GapOk(key.post, m, false)
  }

  predicate PairsOk(ps: Pairs, m: Mode) {
    && KeyOk(ps.key, m) && PaddedOk(ps.item, m) && GapOk(ps.post, m, false)
    && (ps.MorePairs? ==> PairsOk(ps.rest, m))
  }

  predicate DocumentOk(d: Document, m: Mode) {
    PaddedOk(d.item, m) && GapOk(d.post, m, true)
  }

  function Max(a: nat, b: nat): nat {
    if a < b then b else a
  }

  /** Nesting: scalars and empty containers have height 0. */
  function Height(t: Tree): nat {
    match t
    case TArray(elems) => 1 + ElemsHeight(elems)
    case TObject(pairs) => 1 + PairsHeight(pairs)
    case _ => 0
  }

  function ElemsHeight(es: Elems): nat {
    match es
    case LastElem(item, _) => Height(item.v)
    case MoreElems(item, _, rest) => Max(Height(item.v), ElemsHeight(rest))
  }

  function PairsHeight(ps: Pairs): nat {
    match ps
    case LastPair(_, item, _) => Height(item.v)
    case MorePairs(_, item, _, rest) => Max(Height(item.v), PairsHeight(rest))
  }

  // ----- what a tree denotes

  type unit16 = x: int | 0 <= x < 0x10000

  /** First pass over a string: raw bytes and 16-bit units. */
  datatype Unit = Byte(b: byte) | Code(u: unit16)

  function HexDigit(b: byte): (d: nat)
    ensures d < 16
  {
    if Decimal.IsDigit(b) then b - ZERO
    else if 0x61 <= b <= 0x66 then b - 0x61 + 10
    else if 0x41 <= b <= 0x46 then b - 0x41 + 10
    else 0
  }

  function HexValue(a: byte, b: byte, c: byte, d: byte): unit16 {
    0x1000 * HexDigit(a) + 0x100 * HexDigit(b) + 0x10 * HexDigit(c) + HexDigit(d)
  }

  function Units(it: Items): seq<Unit> {
    match it
    case Done => []
    case Raw(b, more) => [Byte(b)] + Units(more)
    case Escaped(c, more) => [Byte(if Unescape(c).Some? then Unescape(c).value else c)] + Units(more)
    case Hex(a, b, c, d, more) => [Code(HexValue(a, b, c, d))] + Units(more)
  }

  /** Second pass: a lead surrogate directly followed by a trail surrogate is one code point, then UTF-8. */
  function Assemble(us: seq<Unit>): bytes {
    if us == [] then []
    else
      match us[0]
      case Byte(b) => [b] + Assemble(us[1..])
      case Code(u) =>
        if Utf8.IsLead(u) && |us| > 1 && us[1].Code? && Utf8.IsTrail(us[1].u) then
          Utf8.Encode(Utf8.Pair(u, us[1].u)) + Assemble(us[2..])
        else
          Utf8.Encode(u) + Assemble(us[1..])
  }

  function StringValue(it: Items): bytes {
    Assemble(Units(it))
  }

  function PowerOfTen(e: int): real
    decreases if e < 0 then -e else e
  {
    if e == 0 then 1.0 else if e > 0 then 10.0 * PowerOfTen(e - 1) else PowerOfTen(e + 1) / 10.0
  }

  function ExponentValue(e: Exponent): int {
    match e
    case NoExponent => 0
    case Exponent(_, sign, digits) =>
      if sign == Some(MINUS) then -Decimal.NumberOf(digits) else Decimal.NumberOf(digits)
  }

  /** `std::numeric_limits<int>::digits10` */
  const INT_DIGITS := 9

  /** No fraction, no exponent, and at most nine characters counting the sign. */
  predicate IsShortInteger(n: Number) {
    n.fraction == [] && n.exponent.NoExponent? && (if n.negative then 1 else 0) + |n.whole| <= INT_DIGITS
  }

  /** `atoi` on the integer part. */
  function IntegerOf(n: Number): int {
    if n.negative then -Decimal.NumberOf(n.whole) else Decimal.NumberOf(n.whole)
  }

  /** `strtod` on the whole lexeme, without its rounding. */
  function RealOf(n: Number): real {
    var magnitude :=
      Decimal.NumberOf(n.whole + n.fraction) as real * PowerOfTen(ExponentValue(n.exponent) - |n.fraction|);
    if n.negative then -magnitude else magnitude
  }

  function NumberJson(n: Number): Json {
    if IsShortInteger(n) then Int(IntegerOf(n)) else Dbl(Finite(RealOf(n)))
  }

  function Value(t: Tree): Json {
    match t
    case TNull => Null
    case TTrue => Bool(true)
    case TFalse => Bool(false)
    case TNumber(num) => NumberJson(num)
    case TString(chars) => Str(StringValue(chars))
    case TEmptyArray(_) => Arr([])
    case TArray(elems) => Arr(ElemValues(elems))
    case TEmptyObject(_) => Obj([])
    case TObject(pairs) => Obj(PairValues([], pairs))
  }

  function ElemValues(es: Elems): seq<Json> {
    [Value(es.item.v)] + if es.MoreElems? then ElemValues(es.rest) else []
  }

  /** The members assigned into `data` from left to right. */
  function PairValues(data: seq<Member>, ps: Pairs): seq<Member>
    decreases ps
  {
    var next := Insert(data, StringValue(ps.key.chars), Value(ps.item.v));
    if ps.MorePairs? then PairValues(next, ps.rest) else next
  }

  /** The last member named `key`, if any. */
  function LastNamed(ps: Pairs, key: bytes): Option<Json> {
    var later := if ps.MorePairs? then LastNamed(ps.rest, key) else None;
    if later.Some? then later
    else if StringValue(ps.key.chars) == key then Some(Value(ps.item.v))
    else None
  }

  /** An object denotes a map in which the last of several equal keys wins. */
  lemma {:induction false} LastDuplicateWins(data: seq<Member>, ps: Pairs, key: bytes)
    requires KeyOrdered(data)
    ensures KeyOrdered(PairValues(data, ps))
    ensures Lookup(PairValues(data, ps), key)
            == if LastNamed(ps, key).Some? then LastNamed(ps, key) else Lookup(data, key)
    decreases ps
  {
    var name, value := StringValue(ps.key.chars), Value(ps.item.v);
    InsertIsAssignment(data, name, value);
    if ps.MorePairs? {
      LastDuplicateWins(Insert(data, name, value), ps.rest, key);
    }
  }

  /** Whatever a tree denotes, the objects inside are maps. */
  lemma {:induction false} DenotesMaps(t: Tree)
    ensures WellFormed(Value(t))
  {
    match t
    case TArray(elems) => ElemsDenoteMaps(elems);
    case TObject(pairs) => PairsDenoteMaps([], pairs);
    case _ =>
  }

  lemma {:induction false} ElemsDenoteMaps(es: Elems)
    ensures forall k :: 0 <= k < |ElemValues(es)| ==> WellFormed(ElemValues(es)[k])
  {
    DenotesMaps(es.item.v);
    if es.MoreElems? {
      ElemsDenoteMaps(es.rest);
    }
  }

  lemma {:induction false} PairsDenoteMaps(data: seq<Member>, ps: Pairs)
    requires KeyOrdered(data) && forall k :: 0 <= k < |data| ==> WellFormed(data[k].value)
    ensures KeyOrdered(PairValues(data, ps))
    ensures forall k :: 0 <= k < |PairValues(data, ps)| ==> WellFormed(PairValues(data, ps)[k].value)
    decreases ps
  {
    var name, value := StringValue(ps.key.chars), Value(ps.item.v);
    DenotesMaps(ps.item.v);
    InsertIsAssignment(data, name, value);
    var next := Insert(data, name, value);
    forall k | 0 <= k < |next| ensures WellFormed(next[k].value) {
      assert next[k] in next;
    }
    if ps.MorePairs? {
      PairsDenoteMaps(next, ps.rest);
    }
  }
}
