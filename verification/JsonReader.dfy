/** Recursive descent as a function: each reader takes a text and returns the tree it found in front and what is
    left. */
module JsonReader {
  import opened Bytes
  import opened JsonValue
  import opened JsonGrammar
  import Decimal

  datatype Reading<+T> = Failed | Read(value: T, rest: bytes)

  function SpanDigits(s: bytes): (r: (bytes, bytes))
    ensures r.0 + r.1 == s && Decimal.AllDigits(r.0)
    ensures r.1 != [] ==> !Decimal.IsDigit(r.1[0])
  {
    if s != [] && Decimal.IsDigit(s[0]) then
      var (ds, rest) := SpanDigits(s[1..]);
      ([s[0]] + ds, rest)
    else ([], s)
  }

  function SpanLine(s: bytes): (r: (bytes, bytes))
    ensures r.0 + r.1 == s && LF !in r.0
    ensures r.1 != [] ==> r.1[0] == LF
  {
    if s != [] && s[0] != LF then
      var (body, rest) := SpanLine(s[1..]);
      ([s[0]] + body, rest)
    else ([], s)
  }

  /** Up to the first comment close, which is dropped. */
  function SpanBlock(s: bytes): (r: Reading<bytes>)
    ensures r.Read? ==> r.value + ([STAR, SLASH] + r.rest) == s && NoClose(r.value)
  {
    if |s| < 2 then Failed
    else if s[0] == STAR && s[1] == SLASH then Read([], s[2..])
    else
      match SpanBlock(s[1..])
      case Failed => Failed
      case Read(body, rest) => Read([s[0]] + body, rest)
  }

  function ReadGap(s: bytes, m: Mode): (r: Reading<Gap>)
    ensures r.Read? ==> |r.rest| <= |s|
    decreases |s|
  {
    if s == [] then Read(End, s)
    else if IsBlank(s[0]) then
      match ReadGap(s[1..], m)
      case Failed => Failed
      case Read(g, rest) => Read(Blank(s[0], g), rest)
    else if m.Comments? && s[0] == SLASH then
      if |s| < 2 then Failed
      else if s[1] == SLASH then
        var (body, t) := SpanLine(s[2..]);
        match ReadGap(t, m)
        case Failed => Failed
        case Read(g, rest) => Read(Line(body, g), rest)
      else if s[1] == STAR then
        match SpanBlock(s[2..])
        case Failed => Failed
        case Read(body, t) =>
          match ReadGap(t, m)
          case Failed => Failed
          case Read(g, rest) => Read(Block(body, g), rest)
      else Failed
    else Read(End, s)
  }

  function ReadWhole(s: bytes): Reading<bytes> {
    if s == [] then Failed
    else if s[0] == ZERO then
      if |s| > 1 && Decimal.IsDigit(s[1]) then Failed else Read([ZERO], s[1..])
    else
      var (ds, rest) := SpanDigits(s);
      if ds == [] then Failed else Read(ds, rest)
  }

  function ReadFraction(s: bytes): Reading<bytes> {
    if s != [] && s[0] == DOT then
      var (ds, rest) := SpanDigits(s[1..]);
      if ds == [] then Failed else Read(ds, rest)
    else Read([], s)
  }

  function ReadExponent(s: bytes): Reading<Exponent> {
    if s != [] && IsExponentMark(s[0]) then
      var sign := if |s| > 1 && (s[1] == PLUS || s[1] == MINUS) then Some(s[1]) else None;
      var (ds, rest) := SpanDigits(if sign.Some? then s[2..] else s[1..]);
      if ds == [] then Failed else Read(Exponent.Exponent(s[0], sign, ds), rest)
    else Read(NoExponent, s)
  }

  function ReadNumber(s: bytes): Reading<Number> {
    var negative := s != [] && s[0] == MINUS;
    match ReadWhole(if negative then s[1..] else s)
    case Failed => Failed
    case Read(whole, t) =>
      match ReadFraction(t)
      case Failed => Failed
      case Read(fraction, u) =>
        match ReadExponent(u)
        case Failed => Failed
        case Read(exponent, rest) => Read(Number.Number(negative, whole, fraction, exponent), rest)
  }

  /** After the opening quote, up to and including the closing one. */
  function ReadItems(s: bytes): Reading<Items> {
    if s == [] then Failed
    else if s[0] == QUOTE then Read(Done, s[1..])
    else if s[0] < 0x20 then Failed
    else if s[0] != BACKSLASH then
      match ReadItems(s[1..])
      case Failed => Failed
      case Read(more, rest) => Read(Raw(s[0], more), rest)
    else if |s| < 2 then Failed
    else if s[1] == LETTER_U then
      if |s| < 6 || !IsHexDigit(s[2]) || !IsHexDigit(s[3]) || !IsHexDigit(s[4]) || !IsHexDigit(s[5]) then Failed
      else
        match ReadItems(s[6..])
        case Failed => Failed
        case Read(more, rest) => Read(Hex(s[2], s[3], s[4], s[5], more), rest)
    else if Unescape(s[1]).None? then Failed
    else
      match ReadItems(s[2..])
      case Failed => Failed
      case Read(more, rest) => Read(Escaped(s[1], more), rest)
  }

  function ReadWord(s: bytes, word: bytes, t: Tree): Reading<Tree> {
    if word <= s then Read(t, s[|word|..]) else Failed
  }

  predicate StartsNumber(b: byte) {
    b == MINUS || Decimal.IsDigit(b)
  }

  /** A value at nesting depth `depth`, with the gap before it. */
  function ReadValue(s: bytes, depth: int, m: Mode): (r: Reading<Padded>)
    ensures r.Read? ==> |r.rest| < |s|
    decreases |s|, 1
  {
    if depth > MAX_DEPTH then Failed
    else
      match ReadGap(s, m)
      case Failed => Failed
      case Read(g, t) =>
        if t == [] then Failed
        else
          match ReadBare(t, depth, m)
          case Failed => Failed
          case Read(v, rest) => Read(Padded(g, v), rest)
  }

  lemma {:induction false} ReadItemsShrinks(s: bytes)
    ensures ReadItems(s).Read? ==> |ReadItems(s).rest| < |s|
    decreases |s|
  {
    if |s| > 0 { ReadItemsShrinks(s[1..]); }
    if |s| > 1 { ReadItemsShrinks(s[2..]); }
    if |s| > 5 { ReadItemsShrinks(s[6..]); }
  }

  lemma ReadNumberShrinks(s: bytes)
    ensures ReadNumber(s).Read? ==> |ReadNumber(s).rest| < |s|
  {
  }

  function ReadBare(s: bytes, depth: int, m: Mode): (r: Reading<Tree>)
    requires s != []
    ensures r.Read? ==> |r.rest| < |s|
    decreases |s|, 0
  {
    var c := s[0];
    if StartsNumber(c) then
      match ReadNumber(s)
      case Failed => Failed
      case Read(num, rest) =>
        ReadNumberShrinks(s);
        Read(TNumber(num), rest)
    else if c == TRUE_WORD[0] then ReadWord(s, TRUE_WORD, TTrue)
    else if c == FALSE_WORD[0] then ReadWord(s, FALSE_WORD, TFalse)
    else if c == NULL_WORD[0] then ReadWord(s, NULL_WORD, TNull)
    else if c == QUOTE then
      match ReadItems(s[1..])
      case Failed => Failed
      case Read(chars, rest) =>
        ReadItemsShrinks(s[1..]);
        Read(TString(chars), rest)
    else if c == LBRACE then
      match ReadGap(s[1..], m)
      case Failed => Failed
      case Read(g, t) =>
        if t != [] && t[0] == RBRACE then Read(TEmptyObject(g), t[1..])
        else
          match ReadPairs(s[1..], depth + 1, m)
          case Failed => Failed
          case Read(pairs, rest) => Read(TObject(pairs), rest)
    else if c == LBRACKET then
      match ReadGap(s[1..], m)
      case Failed => Failed
      case Read(g, t) =>
        if t != [] && t[0] == RBRACKET then Read(TEmptyArray(g), t[1..])
        else
          match ReadElems(s[1..], depth + 1, m)
          case Failed => Failed
          case Read(elems, rest) => Read(TArray(elems), rest)
    else Failed
  }

  function ReadElems(s: bytes, depth: int, m: Mode): (r: Reading<Elems>)
    ensures r.Read? ==> |r.rest| < |s|
    decreases |s|, 2
  {
    match ReadValue(s, depth, m)
    case Failed => Failed
    case Read(item, t) =>
      match ReadGap(t, m)
      case Failed => Failed
      case Read(post, u) =>
        if u != [] && u[0] == RBRACKET then Read(LastElem(item, post), u[1..])
        else if u != [] && u[0] == COMMA then
          match ReadElems(u[1..], depth, m)
          case Failed => Failed
          case Read(more, rest) => Read(MoreElems(item, post, more), rest)
        else Failed
  }

  /** A member name with its colon. */
  function ReadKey(s: bytes, m: Mode): (r: Reading<Key>)
    ensures r.Read? ==> |r.rest| < |s|
  {
    match ReadGap(s, m)
    case Failed => Failed
    case Read(pre, t) =>
      if t == [] || t[0] != QUOTE then Failed
      else
        match ReadItems(t[1..])
        case Failed => Failed
        case Read(chars, u) =>
          ReadItemsShrinks(t[1..]);
          match ReadGap(u, m)
          case Failed => Failed
          case Read(post, w) =>
            if w != [] && w[0] == COLON then Read(Key.Key(pre, chars, post), w[1..]) else Failed
  }

  function ReadPairs(s: bytes, depth: int, m: Mode): (r: Reading<Pairs>)
    ensures r.Read? ==> |r.rest| < |s|
    decreases |s|, 2
  {
    match ReadKey(s, m)
    case Failed => Failed
    case Read(key, t) =>
      match ReadValue(t, depth, m)
      case Failed => Failed
      case Read(item, u) =>
        match ReadGap(u, m)
        case Failed => Failed
        case Read(post, w) =>
          if w != [] && w[0] == RBRACE then Read(LastPair(key, item, post), w[1..])
          else if w != [] && w[0] == COMMA then
            match ReadPairs(w[1..], depth, m)
            case Failed => Failed
            case Read(more, rest) => Read(MorePairs(key, item, post, more), rest)
          else Failed
  }

  function ReadDocument(s: bytes, m: Mode): Option<Document> {
    match ReadValue(s, 0, m)
    case Failed => None
    case Read(item, t) =>
      match ReadGap(t, m)
      case Failed => None
      case Read(post, rest) => if rest == [] then Some(Document.Document(item, post)) else None
  }

  /** `Json::parse`: the value, or nothing when an error is reported. */
  function Parse(s: bytes, m: Mode): Option<Json> {
    match ReadDocument(s, m)
    case None => None
    case Some(d) => Some(Value(d.item.v))
  }
}
