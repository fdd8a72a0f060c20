/** What the printer writes and the parser reads, spelled a second time in characters: an independent printer, the
    escapes of section 7 of RFC 8259 with code points in hexadecimal, numbers as decimal fractions, and the limits. */
module JsonReference {
  import opened Bytes
  import opened JsonValue
  import opened JsonGrammar
  import opened JsonReader
  import JsonOrder
  import JsonPrinter
  import JsonRecognition
  import Decimal
  import Utf8

  // ----- numerals

  const LOWER := Ascii("0123456789abcdef")
  const UPPER := Ascii("0123456789ABCDEF")

  /** The shortest decimal numeral. */
  function Numeral(n: nat): bytes {
    if n < 10 then [LOWER[n]] else Numeral(n / 10) + [LOWER[n % 10]]
  }

  /** Four hexadecimal digits. */
  function FourDigits(h: nat, digits: bytes): bytes
    requires h < 0x10000 && |digits| == 16
  {
    [digits[h / 16 / 16 / 16], digits[h / 16 / 16 % 16], digits[h / 16 % 16], digits[h % 16]]
  }

  lemma DigitIsRead(d: nat, digits: bytes)
    requires d < 16 && (digits == LOWER || digits == UPPER)
    ensures IsHexDigit(digits[d]) && HexDigit(digits[d]) == d
  {
  }

  /** Nothing else is a hexadecimal digit. */
  lemma HexDigitsExactly(b: byte)
    ensures IsHexDigit(b) <==> b in Ascii("0123456789abcdefABCDEF")
  {
    assert Ascii("0123456789abcdefABCDEF")
        == [48, 49, 50, 51, 52, 53, 54, 55, 56, 57, 97, 98, 99, 100, 101, 102, 65, 66, 67, 68, 69, 70];
  }

  /** Four hexadecimal digits, in either case, are read as the number they denote. */
  lemma FourDigitsAreRead(h: nat, digits: bytes)
    requires h < 0x10000 && (digits == LOWER || digits == UPPER)
    ensures var s := FourDigits(h, digits);
            && IsHexDigit(s[0]) && IsHexDigit(s[1]) && IsHexDigit(s[2]) && IsHexDigit(s[3])
            && HexValue(s[0], s[1], s[2], s[3]) == h
  {
    hide IsHexDigit, HexDigit;
    DigitIsRead(h / 16 / 16 / 16, digits);
    DigitIsRead(h / 16 / 16 % 16, digits);
    DigitIsRead(h / 16 % 16, digits);
    DigitIsRead(h % 16, digits);
  }

  /** `%d` */
  lemma {:induction false} DigitsAreDecimal(n: nat)
    ensures Decimal.Digits(n) == Numeral(n)
  {
    if n >= 10 {
      DigitsAreDecimal(n / 10);
    }
  }

  function DecimalText(n: int): bytes {
    if n < 0 then Ascii("-") + Numeral(-n) else Numeral(n)
  }

  // ----- strings

  /** The escape of one code point: `\u` and four digits, twice for a code point beyond the basic plane. */
  function EscapeOf(pt: nat, digits: bytes): bytes
    requires pt <= 0x10FFFF && |digits| == 16
  {
    if pt < 0x10000 then Ascii("\\u") + FourDigits(pt, digits)
    else
      Ascii("\\u") + FourDigits(0xD800 + (pt - 0x10000) / 0x400, digits)
      + (Ascii("\\u") + FourDigits(0xDC00 + (pt - 0x10000) % 0x400, digits))
  }

  function Quoted(body: bytes): bytes {
    Ascii("\"") + body + Ascii("\"")
  }

  /** The text of a tree of the grammar parses to what the tree denotes. */
  lemma TreeIsRead(t: Tree, m: Mode)
    requires TreeOk(t, m) && Height(t) <= MAX_DEPTH
    ensures Parse(TreeText(t, []), m) == Some(Value(t))
  {
    hide TreeText, TreeOk, Height, ReadDocument, Value;
    var d := Document.Document(Padded(End, t), End);
    assert DocumentText(d) == TreeText(t, []) && DocumentOk(d, m);
    JsonRecognition.Derivation(d, DocumentText(d), m);
  }

  /** Whatever is parsed, every object inside the value is a `std::map`. */
  lemma ParsedIsWellFormed(s: bytes, m: Mode)
    ensures Parse(s, m).Some? ==> WellFormed(Parse(s, m).value)
  {
    hide WellFormed, ReadDocument, Value;
    if ReadDocument(s, m).Some? {
      DenotesMaps(ReadDocument(s, m).value.item.v);
    }
  }

  /** A text between quotes parses to what its items denote, and to nothing else. */
  lemma QuotedItems(it: Items, m: Mode)
    requires ItemsOk(it)
    ensures Parse([QUOTE] + ItemsText(it, []), m) == Some(Str(StringValue(it)))
  {
    var d := Document.Document(Padded(End, TString(it)), End);
    assert DocumentText(d) == [QUOTE] + ItemsText(it, []) && DocumentOk(d, m);
    JsonRecognition.Derivation(d, DocumentText(d), m);
  }

  lemma OneUnit(u: Unit)
    ensures Assemble([u]) == if u.Byte? then [u.b] else Utf8.Encode(u.u)
  {
    hide Utf8.Encode;
    assert [u][1..] == [] && Assemble([]) == [];
  }

  lemma UnitFirst(u: unit16, more: seq<Unit>)
    requires !Utf8.IsLead(u)
    ensures Assemble([Code(u)] + more) == Utf8.Encode(u) + Assemble(more)
  {
    hide Utf8.Encode;
    assert ([Code(u)] + more)[1..] == more;
  }

  lemma PairFirst(lead: unit16, trail: unit16, more: seq<Unit>)
    requires Utf8.IsLead(lead) && Utf8.IsTrail(trail)
    ensures Assemble([Code(lead)] + ([Code(trail)] + more)) == Utf8.Encode(Utf8.Pair(lead, trail)) + Assemble(more)
  {
    hide Utf8.Encode;
    assert ([Code(lead)] + ([Code(trail)] + more))[2..] == more;
  }

  lemma HexText(digits: bytes, more: Items)
    requires |digits| == 4
    ensures ItemsText(Hex(digits[0], digits[1], digits[2], digits[3], more), [])
            == Ascii("\\u") + digits + ItemsText(more, [])
  {
    hide HexValue, IsHexDigit;
    assert Ascii("\\u") == [BACKSLASH, LETTER_U];
  }

  lemma HexItem(h: nat, digits: bytes, more: Items) returns (it: Items)
    requires h < 0x10000 && (digits == LOWER || digits == UPPER) && ItemsOk(more)
    ensures ItemsOk(it) && Units(it) == [Code(h)] + Units(more)
    ensures ItemsText(it, []) == Ascii("\\u") + FourDigits(h, digits) + ItemsText(more, [])
  {
    hide HexValue, IsHexDigit, ItemsText, Ascii;
    var s := FourDigits(h, digits);
    FourDigitsAreRead(h, digits);
    HexText(s, more);
    it := Hex(s[0], s[1], s[2], s[3], more);
  }

  /** A code point outside the surrogates. */
  type scalar = pt: nat | pt <= 0x10FFFF && !(0xD800 <= pt <= 0xDFFF)

  /** A string of code points, each escaped, and their UTF-8. */
  function Escapes(pts: seq<scalar>, digits: bytes): bytes
    requires |digits| == 16
  {
    if pts == [] then [] else EscapeOf(pts[0], digits) + Escapes(pts[1..], digits)
  }

  function Utf8Of(pts: seq<scalar>): bytes
  {
    if pts == [] then [] else Utf8.Encode(pts[0]) + Utf8Of(pts[1..])
  }

  lemma EscapeItems(pt: scalar, digits: bytes, more: Items) returns (it: Items)
    requires (digits == LOWER || digits == UPPER) && ItemsOk(more)
    ensures ItemsOk(it) && ItemsText(it, []) == EscapeOf(pt, digits) + ItemsText(more, [])
    ensures StringValue(it) == Utf8.Encode(pt) + StringValue(more)
  {
    hide FourDigits, Utf8.Encode, ItemsText, Ascii, Assemble, Units;
    if pt < 0x10000 {
      it := HexItem(pt, digits, more);
      UnitFirst(pt, Units(more));
    } else {
      var lead, trail := 0xD800 + (pt - 0x10000) / 0x400, 0xDC00 + (pt - 0x10000) % 0x400;
      var low := HexItem(trail, digits, more);
      it := HexItem(lead, digits, low);
      PairFirst(lead, trail, Units(more));
      assert Utf8.Pair(lead, trail) == pt;
    }
  }

  lemma {:induction false} EscapesItems(pts: seq<scalar>, digits: bytes) returns (it: Items)
    requires (digits == LOWER || digits == UPPER)
    ensures ItemsOk(it) && ItemsText(it, []) == Escapes(pts, digits) + Ascii("\"")
    ensures StringValue(it) == Utf8Of(pts)
    decreases |pts|
  {
    hide EscapeOf, Utf8.Encode;
    if pts == [] {
      it := Done;
      assert ItemsText(Done, []) == [QUOTE] && Ascii("\"") == [QUOTE];
    } else {
      var more := EscapesItems(pts[1..], digits);
      it := EscapeItems(pts[0], digits, more);
    }
  }

  /** Whatever code points outside the surrogates a string spells with escapes, it is read as their UTF-8. */
  lemma EscapesAreRead(pts: seq<scalar>, digits: bytes, m: Mode)
    requires (digits == LOWER || digits == UPPER)
    ensures Parse(Quoted(Escapes(pts, digits)), m) == Some(Str(Utf8Of(pts)))
  {
    hide Parse, EscapeOf, Utf8.Encode;
    var it := EscapesItems(pts, digits);
    QuotedItems(it, m);
    assert Ascii("\"") == [QUOTE];
    assert Quoted(Escapes(pts, digits)) == [QUOTE] + ItemsText(it, []);
  }

  /** Every code point outside the surrogates is read from its escape as its UTF-8 encoding. */
  lemma EscapeIsRead(pt: scalar, digits: bytes, m: Mode)
    requires digits == LOWER || digits == UPPER
    ensures Parse(Quoted(EscapeOf(pt, digits)), m) == Some(Str(Utf8.Encode(pt)))
  {
    hide Parse, EscapeOf, Utf8.Encode;
    EscapesAreRead([pt], digits, m);
    assert Escapes([pt], digits) == EscapeOf(pt, digits) + Escapes([], digits) == EscapeOf(pt, digits);
    assert Utf8Of([pt]) == Utf8.Encode(pt) + Utf8Of([]) == Utf8.Encode(pt);
  }

  /** A surrogate on its own is encoded like any other unit. */
  lemma LoneSurrogateIsRead(h: nat, digits: bytes, m: Mode)
    requires 0xD800 <= h <= 0xDFFF && (digits == LOWER || digits == UPPER)
    ensures Parse(Quoted(Ascii("\\u") + FourDigits(h, digits)), m) == Some(Str(Utf8.Encode(h)))
  {
    hide Parse, FourDigits, Utf8.Encode;
    assert Ascii("\"") == [QUOTE];
    var it := HexItem(h, digits, Done);
    QuotedItems(it, m);
    OneUnit(Code(h));
    assert Quoted(Ascii("\\u") + FourDigits(h, digits)) == [QUOTE] + ItemsText(it, []);
  }

  /** The two-character escapes. */
  const ESCAPES := Ascii("\"\\/bfnrt")
  const ESCAPED: bytes := [34, 92, 47, 8, 12, 10, 13, 9]

  lemma EscapeTable(c: byte)
    ensures forall k :: 0 <= k < 8 && ESCAPES[k] == c ==> Unescape(c) == Some(ESCAPED[k])
    ensures Unescape(c).Some? <==> c in ESCAPES
  {
    assert ESCAPES == [34, 92, 47, 98, 102, 110, 114, 116];
  }

  lemma ShortEscapeIsRead(k: nat, m: Mode)
    requires k < 8
    ensures Parse(Quoted(Ascii("\\") + [ESCAPES[k]]), m) == Some(Str([ESCAPED[k]]))
  {
    hide Parse, Unescape;
    EscapeTable(ESCAPES[k]);
    var it := Escaped(ESCAPES[k], Done);
    QuotedItems(it, m);
    assert Ascii("\"") == [QUOTE] && Ascii("\\") == [BACKSLASH];
    assert Quoted(Ascii("\\") + [ESCAPES[k]]) == [QUOTE] + ItemsText(it, []);
    assert Units(it) == [Byte(ESCAPED[k])];
    OneUnit(Byte(ESCAPED[k]));
  }

  // ----- an independent printer

  /** How the front of a string is written, and how many bytes of it that covers. */
  function Head(s: bytes): (r: (bytes, nat))
    requires s != []
    ensures 1 <= r.1 <= |s|
  {
    var c := s[0];
    if c == 34 then (Ascii("\\\""), 1)
    else if c == 92 then (Ascii("\\\\"), 1)
    else if c == 8 then (Ascii("\\b"), 1)
    else if c == 9 then (Ascii("\\t"), 1)
    else if c == 10 then (Ascii("\\n"), 1)
    else if c == 12 then (Ascii("\\f"), 1)
    else if c == 13 then (Ascii("\\r"), 1)
    else if c < 32 then (Ascii("\\u") + FourDigits(c, LOWER), 1)
    else if [226, 128, 168] <= s then (Ascii("\\u2028"), 3)
    else if [226, 128, 169] <= s then (Ascii("\\u2029"), 3)
    else ([c], 1)
  }

  function Body(s: bytes): bytes {
    if s == [] then [] else Head(s).0 + Body(s[Head(s).1..])
  }

  lemma HeadIsPrinted(s: bytes)
    requires s != []
    ensures Head(s) == JsonPrinter.EscapeHead(s)
  {
    var c := s[0];
    assert Ascii("\\\"") == [92, 34] && Ascii("\\\\") == [92, 92];
    assert Ascii("\\b") == [92, 98] && Ascii("\\t") == [92, 116] && Ascii("\\n") == [92, 110];
    assert Ascii("\\f") == [92, 102] && Ascii("\\r") == [92, 114];
    assert Ascii("\\u2028") == [92, 117, 50, 48, 50, 56] && Ascii("\\u2029") == [92, 117, 50, 48, 50, 57];
    if c < 32 {
      assert Ascii("\\u") + FourDigits(c, LOWER)
          == [92, 117, LOWER[c / 16 / 16 / 16], LOWER[c / 16 / 16 % 16], LOWER[c / 16 % 16], LOWER[c % 16]];
      assert LOWER[c % 16] == JsonPrinter.LowerHex(c % 16);
    }
  }

  lemma {:induction false} BodyIsPrinted(s: bytes)
    ensures Quoted(Body(s)) == JsonPrinter.QuotedText(s)
    decreases |s|
  {
    hide JsonPrinter.Escape, JsonPrinter.EscapeHead, ItemsText, Head;
    assert Ascii("\"") == [34];
    if s == [] {
      JsonPrinter.EscapeEnd();
    } else {
      var rest := s[Head(s).1..];
      HeadIsPrinted(s);
      JsonPrinter.EscapeStep(s);
      BodyIsPrinted(rest);
      var tail := ItemsText(JsonPrinter.Escape(rest), []);
      assert [34] + (Body(rest) + [34]) == [34] + tail;
      assert (Body(rest) + [34]) == ([34] + (Body(rest) + [34]))[1..] == ([34] + tail)[1..] == tail;
      assert [34] + (Head(s).0 + Body(rest)) + [34] == [34] + (Head(s).0 + (Body(rest) + [34]));
    }
  }

  /** The text of a value. */
  function Printed(v: Json): bytes
    requires JsonPrinter.Printable(v)
    decreases v
  {
    match v
    case Null => Ascii("null")
    case Int(n) => DecimalText(n)
    case Dbl(d) => if d.Finite? then DecimalText(d.v.Floor) else Ascii("null")
    case Bool(b) => if b then Ascii("true") else Ascii("false")
    case Str(s) => Quoted(Body(s))
    case Arr(items) => Ascii("[") + PrintedItems(items, true)
    case Obj(ms) => Ascii("{") + PrintedMembers(ms, true)
  }

  function PrintedItems(items: seq<Json>, first: bool): bytes
    requires JsonPrinter.PrintableItems(items)
    decreases items
  {
    if items == [] then Ascii("]")
    else (if first then [] else Ascii(", ")) + (Printed(items[0]) + PrintedItems(items[1..], false))
  }

  function PrintedMembers(ms: seq<Member>, first: bool): bytes
    requires JsonPrinter.PrintableMembers(ms)
    decreases ms
  {
    if ms == [] then Ascii("}")
    else
      (if first then [] else Ascii(", "))
      + (Quoted(Body(ms[0].key)) + (Ascii(": ") + (Printed(ms[0].value) + PrintedMembers(ms[1..], false))))
  }

  lemma Words()
    ensures Ascii("null") == NULL_WORD && Ascii("true") == TRUE_WORD && Ascii("false") == FALSE_WORD
    ensures Ascii("[") == [LBRACKET] && Ascii("]") == [RBRACKET] && Ascii("{") == [LBRACE] && Ascii("}") == [RBRACE]
    ensures Ascii(", ") == [COMMA, SPACE] && Ascii(": ") == [COLON, SPACE] && Ascii("-") == [MINUS]
  {
  }

  lemma IntegerIsPrinted(n: int)
    ensures DecimalText(n) == TreeText(JsonPrinter.IntegerTree(n), [])
  {
    Words();
    DigitsAreDecimal(if n < 0 then -n else n);
    hide Numeral, Decimal.Digits;
  }

  lemma ScalarText(v: Json)
    requires v.Null? || v.Bool? || (v.Dbl? && !v.d.Finite?)
    ensures JsonPrinter.Printable(v) && JsonPrinter.Dump(v) == Printed(v)
  {
    Words();
    assert NULL_WORD + [] == NULL_WORD && TRUE_WORD + [] == TRUE_WORD && FALSE_WORD + [] == FALSE_WORD;
  }

  lemma {:induction false} EveryItemPrintable(items: seq<Json>)
    ensures JsonPrinter.PrintableItems(items) <==> forall k :: 0 <= k < |items| ==> JsonPrinter.Printable(items[k])
  {
    hide JsonPrinter.Printable;
    if items != [] {
      EveryItemPrintable(items[1..]);
      assert items == [items[0]] + items[1..];
    }
  }

  lemma {:induction false} EveryMemberPrintable(ms: seq<Member>)
    ensures JsonPrinter.PrintableMembers(ms) <==> forall k :: 0 <= k < |ms| ==> JsonPrinter.Printable(ms[k].value)
  {
    hide JsonPrinter.Printable;
    if ms != [] {
      EveryMemberPrintable(ms[1..]);
      assert ms == [ms[0]] + ms[1..];
    }
  }

  /** What these statements about printing range over: 32-bit ints, doubles that are whole up to 2^53 or not finite, and
      everything built from them, null, booleans and strings. */
  lemma PrintableExactly(n: int, x: real, s: bytes, items: seq<Json>, ms: seq<Member>)
    ensures JsonPrinter.Printable(Null) && JsonPrinter.Printable(Bool(true)) && JsonPrinter.Printable(Bool(false))
    ensures JsonPrinter.Printable(Str(s)) && JsonPrinter.Printable(Dbl(NaN))
    ensures JsonPrinter.Printable(Dbl(PosInfinity)) && JsonPrinter.Printable(Dbl(NegInfinity))
    ensures JsonPrinter.Printable(Int(n)) <==> -2_147_483_648 <= n <= 2_147_483_647
    ensures JsonPrinter.Printable(Dbl(Finite(x))) <==>
            x == x.Floor as real && -9_007_199_254_740_992.0 <= x <= 9_007_199_254_740_992.0
    ensures JsonPrinter.Printable(Arr(items)) <==> forall k :: 0 <= k < |items| ==> JsonPrinter.Printable(items[k])
    ensures JsonPrinter.Printable(Obj(ms)) <==> forall k :: 0 <= k < |ms| ==> JsonPrinter.Printable(ms[k].value)
  {
    EveryItemPrintable(items);
    EveryMemberPrintable(ms);
  }

  /** The printer writes exactly this text. */
  lemma {:induction false} DumpIsPrinted(v: Json)
    requires JsonPrinter.Printable(v)
    ensures JsonPrinter.Dump(v) == Printed(v)
    decreases v
  {
    hide JsonPrinter.Escape, ItemsText, Body, DecimalText, JsonPrinter.ArrayFrom, JsonPrinter.ObjectFrom;
    Words();
    match v
    case Int(n) => IntegerIsPrinted(n);
    case Dbl(d) => if d.Finite? { IntegerIsPrinted(d.v.Floor); } else { ScalarText(v); }
    case Str(s) => BodyIsPrinted(s);
    case Arr(items) =>
      JsonPrinter.ArrayBounds(items);
      ItemsArePrinted(items, true);
    case Obj(ms) =>
      JsonPrinter.ObjectBounds(ms);
      MembersArePrinted(ms, true);
    case _ => ScalarText(v);
  }

  lemma {:induction false} ItemsArePrinted(items: seq<Json>, first: bool)
    requires JsonPrinter.PrintableItems(items)
    ensures JsonPrinter.ArrayFrom(items, first) == PrintedItems(items, first)
    decreases items
  {
    hide JsonPrinter.Dump, Printed, JsonPrinter.ArrayFrom;
    Words();
    JsonPrinter.ArrayBounds([]);
    if items != [] {
      JsonPrinter.ArrayStep(items, first);
      DumpIsPrinted(items[0]);
      ItemsArePrinted(items[1..], false);
    }
  }

  lemma {:induction false} MembersArePrinted(ms: seq<Member>, first: bool)
    requires JsonPrinter.PrintableMembers(ms)
    ensures JsonPrinter.ObjectFrom(ms, first) == PrintedMembers(ms, first)
    decreases ms
  {
    hide JsonPrinter.Dump, Printed, JsonPrinter.ObjectFrom, JsonPrinter.QuotedText, Body;
    Words();
    JsonPrinter.ObjectBounds([]);
    if ms != [] {
      JsonPrinter.ObjectStep(ms, first);
      BodyIsPrinted(ms[0].key);
      DumpIsPrinted(ms[0].value);
      MembersArePrinted(ms[1..], false);
    }
  }

  // ----- numbers

  /** A run of digits, read from the front; `acc` is what has been read. */
  function Natural(s: bytes, acc: nat): nat
    requires Decimal.AllDigits(s)
  {
    if s == [] then acc else Natural(s[1..], 10 * acc + (s[0] as int - 48))
  }

  lemma {:induction false} NaturalLast(s: bytes, d: byte, acc: nat)
    requires Decimal.AllDigits(s) && Decimal.IsDigit(d)
    ensures Natural(s + [d], acc) == 10 * Natural(s, acc) + (d as int - 48)
    decreases |s|
  {
    if s == [] {
      assert [d][1..] == [] && [] + [d] == [d];
    } else {
      NaturalLast(s[1..], d, 10 * acc + (s[0] as int - 48));
      assert (s + [d])[1..] == s[1..] + [d];
    }
  }

  lemma {:induction false} NaturalIsNumber(s: bytes)
    requires Decimal.AllDigits(s)
    ensures Natural(s, 0) == Decimal.NumberOf(s)
    decreases |s|
  {
    if s != [] {
      var n := |s| - 1;
      NaturalIsNumber(s[..n]);
      NaturalLast(s[..n], s[n], 0);
      assert s == s[..n] + [s[n]];
    }
  }

  /** The decimal point moved `e` places to the right. */
  function Shifted(x: real, e: int): real
    decreases if e < 0 then -e else e
  {
    if e == 0 then x else if e > 0 then Shifted(10.0 * x, e - 1) else Shifted(x / 10.0, e + 1)
  }

  lemma {:induction false} ShiftedIsProduct(x: real, e: int)
    ensures Shifted(x, e) == x * PowerOfTen(e)
    decreases if e < 0 then -e else e
  {
    if e > 0 {
      ShiftedIsProduct(10.0 * x, e - 1);
      assert 10.0 * x * PowerOfTen(e - 1) == x * (10.0 * PowerOfTen(e - 1));
    } else if e < 0 {
      ShiftedIsProduct(x / 10.0, e + 1);
      assert x / 10.0 * PowerOfTen(e + 1) == x * (PowerOfTen(e + 1) / 10.0);
    }
  }

  lemma {:induction false} ShiftedStep(x: real, d: int)
    ensures Shifted(x, d + 1) == 10.0 * Shifted(x, d)
    decreases if d < 0 then -d else d
  {
    if d > 0 {
      ShiftedStep(10.0 * x, d - 1);
    } else if d < -1 {
      ShiftedStep(x / 10.0, d + 1);
    } else {
      assert Shifted(10.0 * x, 0) == 10.0 * x && Shifted(x / 10.0, 0) == x / 10.0;
    }
  }

  lemma {:induction false} ShiftedTwice(x: real, d: int, e: int)
    ensures Shifted(Shifted(x, d), e) == Shifted(x, d + e)
    decreases if e < 0 then -e else e
  {
    if e > 0 {
      ShiftedStep(x, d);
      ShiftedTwice(x, d + 1, e - 1);
    } else if e < 0 {
      ShiftedStep(x, d - 1);
      ShiftedTwice(x, d - 1, e + 1);
    }
  }

  lemma {:induction false} ShiftedSum(x: real, y: real, e: int)
    ensures Shifted(x + y, e) == Shifted(x, e) + Shifted(y, e)
    decreases if e < 0 then -e else e
  {
    if e > 0 {
      ShiftedSum(10.0 * x, 10.0 * y, e - 1);
      assert 10.0 * (x + y) == 10.0 * x + 10.0 * y;
    } else if e < 0 {
      ShiftedSum(x / 10.0, y / 10.0, e + 1);
      assert (x + y) / 10.0 == x / 10.0 + y / 10.0;
    }
  }

  /** Digits behind digits: the first ones are worth more by as many places. */
  lemma {:induction false} DigitsBehind(a: bytes, b: bytes)
    ensures Decimal.NumberOf(a + b) as real == Shifted(Decimal.NumberOf(a) as real, |b|) + Decimal.NumberOf(b) as real
    decreases |b|
  {
    if b == [] {
      assert a + b == a;
    } else {
      var n := |b| - 1;
      DigitsBehind(a, b[..n]);
      assert (a + b)[..|a + b| - 1] == a + b[..n] && (a + b)[|a + b| - 1] == b[n];
      ShiftedStep(Decimal.NumberOf(a) as real, n);
    }
  }

  function ExponentOf(e: Exponent): int
    requires ExponentOk(e)
  {
    if e.NoExponent? then 0 else if e.sign == Some(45) then -(Natural(e.digits, 0) as int) else Natural(e.digits, 0)
  }

  /** Whole part and fraction, moved by the exponent. */
  function Magnitude(n: Number): real
    requires NumberOk(n)
  {
    var fraction := Shifted(Natural(n.fraction, 0) as real, -|n.fraction|);
    Shifted(Natural(n.whole, 0) as real + fraction, ExponentOf(n.exponent))
  }

  lemma RealIsShifted(n: Number)
    ensures var magnitude := Shifted(Decimal.NumberOf(n.whole + n.fraction) as real,
                                     ExponentValue(n.exponent) - |n.fraction|);
            RealOf(n) == if n.negative then -magnitude else magnitude
  {
    hide PowerOfTen, Shifted, Decimal.NumberOf, ExponentValue;
    ShiftedIsProduct(Decimal.NumberOf(n.whole + n.fraction) as real, ExponentValue(n.exponent) - |n.fraction|);
  }

  /** Digits in front of and behind the point, moved by the exponent, are all the digits moved by less. */
  lemma PointMoves(w: bytes, f: bytes, e: int)
    ensures Shifted(Decimal.NumberOf(w) as real + Shifted(Decimal.NumberOf(f) as real, -|f|), e)
            == Shifted(Decimal.NumberOf(w + f) as real, e - |f|)
  {
    hide Decimal.NumberOf, Shifted;
    var d, x, y := |f|, Decimal.NumberOf(w) as real, Decimal.NumberOf(f) as real;
    DigitsBehind(w, f);
    ShiftedSum(Shifted(x, d), y, e - d);
    ShiftedTwice(x, d, e - d);
    ShiftedTwice(y, -d, e);
    ShiftedSum(x, Shifted(y, -d), e);
    assert d + (e - d) == e && -d + e == e - d;
  }

  lemma ExponentIsNumber(e: Exponent)
    requires ExponentOk(e)
    ensures ExponentOf(e) == ExponentValue(e)
  {
    hide Decimal.NumberOf, Natural;
    if e.Exponent? { NaturalIsNumber(e.digits); }
  }

  lemma MagnitudeIsReal(n: Number)
    requires NumberOk(n)
    ensures RealOf(n) == if n.negative then -Magnitude(n) else Magnitude(n)
  {
    hide RealOf, Decimal.NumberOf, Natural, Shifted, ExponentOf, ExponentValue;
    RealIsShifted(n);
    NaturalIsNumber(n.whole);
    NaturalIsNumber(n.fraction);
    ExponentIsNumber(n.exponent);
    PointMoves(n.whole, n.fraction, ExponentOf(n.exponent));
  }

  /** The text of a number. */
  function NumberSpelled(n: Number): bytes {
    (if n.negative then Ascii("-") else []) + n.whole
    + (if n.fraction == [] then [] else Ascii(".") + n.fraction)
    + (if n.exponent.NoExponent? then []
       else [n.exponent.mark] + (if n.exponent.sign.Some? then [n.exponent.sign.value] else []) + n.exponent.digits)
  }

  lemma NumberTextIsSpelled(n: Number)
    ensures NumberText(n, []) == NumberSpelled(n)
  {
    assert Ascii("-") == [MINUS] && Ascii(".") == [DOT];
    var e := ExponentText(n.exponent, []);
    assert e == if n.exponent.NoExponent? then []
                else [n.exponent.mark] + (if n.exponent.sign.Some? then [n.exponent.sign.value] else [])
                     + n.exponent.digits;
  }

  /** The characters of section 6 of RFC 8259, and its blanks. */
  lemma NumberCharacters(b: byte, e: Exponent)
    ensures Decimal.IsDigit(b) <==> b in Ascii("0123456789")
    ensures IsBlank(b) <==> b in Ascii(" \t\n\r")
    ensures ExponentOk(e) <==>
            e.NoExponent?
            || (e.mark in Ascii("eE") && (e.sign.Some? ==> e.sign.value in Ascii("+-"))
                && e.digits != [] && Decimal.AllDigits(e.digits))
  {
    assert Ascii("0123456789") == [48, 49, 50, 51, 52, 53, 54, 55, 56, 57] && Ascii(" \t\n\r") == [32, 9, 10, 13];
    assert Ascii("eE") == [101, 69] && Ascii("+-") == [43, 45];
  }

  lemma NumberLength(n: Number)
    requires n.fraction == [] && n.exponent.NoExponent?
    ensures |NumberSpelled(n)| == (if n.negative then 1 else 0) + |n.whole|
  {
  }

  /** A number parses to its value: an int when it is written with at most nine characters, all digits or sign, a double
      otherwise. */
  lemma NumberIsRead(n: Number, m: Mode)
    requires NumberOk(n)
    ensures Parse(NumberSpelled(n), m)
            == Some(if n.fraction == [] && n.exponent.NoExponent? && |NumberSpelled(n)| <= 9 then
                      Int(if n.negative then -(Natural(n.whole, 0) as int) else Natural(n.whole, 0))
                    else Dbl(Finite(if n.negative then -Magnitude(n) else Magnitude(n))))
  {
    NumberTextIsSpelled(n);
    MagnitudeIsReal(n);
    NaturalIsNumber(n.whole);
    hide RealOf, Magnitude, Natural, Decimal.NumberOf, NumberText, NumberOk, Parse;
    TreeIsRead(TNumber(n), m);
    assert TreeText(TNumber(n), []) == NumberText(n, []) && TreeOk(TNumber(n), m);
    if n.fraction == [] && n.exponent.NoExponent? { NumberLength(n); }
  }

  // ----- what may stand in front

  /** Texts whose leading gaps end at the same place parse alike. */
  lemma SameBehindGap(s: bytes, t: bytes, m: Mode)
    requires ReadGap(s, m).Failed? == ReadGap(t, m).Failed?
    requires ReadGap(s, m).Read? ==> ReadGap(s, m).rest == ReadGap(t, m).rest
    ensures Parse(s, m) == Parse(t, m)
  {
    hide ReadGap, ReadBare, Value;
  }

  /** A blank in front of a text changes nothing. */
  lemma BlankIsSkipped(b: byte, s: bytes, m: Mode)
    requires b in Ascii(" \t\n\r")
    ensures Parse([b] + s, m) == Parse(s, m)
  {
    NumberCharacters(b, NoExponent);
    hide IsBlank, Parse;
    assert ([b] + s)[1..] == s;
    SameBehindGap([b] + s, s, m);
  }

  lemma LineGap(body: bytes, s: bytes)
    requires 10 !in body
    ensures var t := [47, 47] + (body + ([10] + s));
            ReadGap(t, Comments).Failed? == ReadGap(s, Comments).Failed?
            && (ReadGap(s, Comments).Read? ==> ReadGap(t, Comments).rest == ReadGap(s, Comments).rest)
  {
    hide SpanLine;
    var t := [47, 47] + (body + ([10] + s));
    assert t[2..] == body + ([10] + s) && ([10] + s)[1..] == s;
    JsonRecognition.SpanLineFinds(body, [10] + s);
  }

  /** A line comment in front, up to and including its line feed, changes nothing in COMMENTS mode. */
  lemma LineIsSkipped(body: bytes, s: bytes)
    requires 10 !in body
    ensures Parse(Ascii("//") + body + [10] + s, Comments) == Parse(s, Comments)
  {
    hide Parse, ReadGap;
    LineGap(body, s);
    assert Ascii("//") == [47, 47];
    assert Ascii("//") + body + [10] + s == [47, 47] + (body + ([10] + s));
    SameBehindGap(Ascii("//") + body + [10] + s, s, Comments);
  }

  lemma BlockGap(body: bytes, s: bytes)
    requires NoClose(body)
    ensures var t := [47, 42] + (body + ([42, 47] + s));
            ReadGap(t, Comments).Failed? == ReadGap(s, Comments).Failed?
            && (ReadGap(s, Comments).Read? ==> ReadGap(t, Comments).rest == ReadGap(s, Comments).rest)
  {
    hide SpanBlock, NoClose;
    var t := [47, 42] + (body + ([42, 47] + s));
    assert t[2..] == body + ([42, 47] + s);
    JsonRecognition.SpanBlockFinds(body, s);
  }

  /** So does a block comment up to its first close. */
  lemma BlockIsSkipped(body: bytes, s: bytes)
    requires forall k :: 0 < k < |body| && body[k] == 47 ==> body[k - 1] != 42
    ensures Parse(Ascii("/*") + body + Ascii("*/") + s, Comments) == Parse(s, Comments)
  {
    assert NoClose(body);
    hide Parse, ReadGap, NoClose;
    BlockGap(body, s);
    assert Ascii("/*") == [47, 42] && Ascii("*/") == [42, 47];
    assert Ascii("/*") + body + Ascii("*/") + s == [47, 42] + (body + ([42, 47] + s));
    SameBehindGap(Ascii("/*") + body + Ascii("*/") + s, s, Comments);
  }

  /** STANDARD mode knows no comments. */
  lemma SlashIsRefused(s: bytes)
    ensures Parse([47] + s, Standard) == None
  {
    var t := [47] + s;
    assert t[0] == 47 && ReadGap(t, Standard) == Read(End, t);
    assert ReadBare(t, 0, Standard) == Failed;
  }

  // ----- the limit

  function Nested(n: nat): bytes {
    if n == 0 then [] else Ascii("[") + Nested(n - 1) + Ascii("]")
  }

  function NestedTree(n: nat): Tree
    requires n > 0
  {
    if n == 1 then TEmptyArray(End) else TArray(LastElem(Padded(End, NestedTree(n - 1)), End))
  }

  lemma {:induction false} NestedText(n: nat, k: bytes, m: Mode)
    requires n > 0
    ensures TreeText(NestedTree(n), k) == Nested(n) + k
    ensures TreeOk(NestedTree(n), m) && Height(NestedTree(n)) == n - 1
    decreases n
  {
    assert Ascii("[") == [LBRACKET] && Ascii("]") == [RBRACKET];
    if n == 1 {
      assert Nested(0) == [] && Nested(1) == [LBRACKET, RBRACKET];
      assert [LBRACKET] + ([RBRACKET] + k) == [LBRACKET, RBRACKET] + k;
    } else {
      var inner := NestedTree(n - 1);
      NestedText(n - 1, [RBRACKET] + k, m);
      assert ElemsText(LastElem(Padded(End, inner), End), k) == TreeText(inner, [RBRACKET] + k);
      assert Nested(n) == [LBRACKET] + Nested(n - 1) + [RBRACKET];
      assert [LBRACKET] + (Nested(n - 1) + ([RBRACKET] + k)) == [LBRACKET] + Nested(n - 1) + [RBRACKET] + k;
    }
  }

  /** Arrays nest 201 deep and no deeper. */
  lemma NestingLimit(n: nat, m: Mode)
    requires n > 0
    ensures Parse(Nested(n), m).Some? <==> n <= 201
  {
    hide Nested, NestedTree, TreeText;
    NestedText(n, [], m);
    var d := Document.Document(Padded(End, NestedTree(n)), End);
    assert DocumentText(d) == Nested(n) + [] == Nested(n) && DocumentOk(d, m);
    if n <= 201 {
      JsonRecognition.Derivation(d, Nested(n), m);
    } else {
      JsonRecognition.TooDeep(d, m);
    }
  }
}
