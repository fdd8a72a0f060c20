/** The byte-cursor parser: one-character push-back, a sticky failure flag, deferred surrogates, a depth limit. */
module JsonParser {
  import opened Bytes
  import opened JsonValue
  import opened JsonGrammar
  import opened JsonReader
  import JsonRecognition
  import Decimal
  import Utf8

  // ----- what the loops compute, told by the readers

  /** What is left of `s` after the gap in front of it. */
  function AfterGap(s: bytes, m: Mode): Option<bytes> {
    match ReadGap(s, m)
    case Failed => None
    case Read(_, rest) => Some(rest)
  }

  /** What follows the first comment close. */
  function AfterBlock(s: bytes): Option<bytes> {
    match SpanBlock(s)
    case Failed => None
    case Read(_, rest) => Some(rest)
  }

  /** A comment dropped from the front. */
  function SkipComment(s: bytes): Option<bytes>
    requires s != [] && s[0] == SLASH
  {
    if |s| < 2 then None
    else if s[1] == SLASH then Some(SpanLine(s[2..]).1)
    else if s[1] == STAR then AfterBlock(s[2..])
    else None
  }

  lemma CommentInGap(s: bytes)
    requires s != [] && s[0] == SLASH
    ensures AfterGap(s, Comments)
            == if SkipComment(s).None? then None else AfterGap(SkipComment(s).value, Comments)
  {
  }

  /** The escaped unit a string loop has not written out yet; -1 for none. */
  function Pending(last: int): seq<Unit>
    requires -1 <= last < 0x10000
  {
    if last < 0 then [] else [Code(last)]
  }

  function Flushed(last: int): bytes
    requires -1 <= last < 0x10000
  {
    if last < 0 then [] else Utf8.Encode(last)
  }

  lemma AssembleFlush(last: int, us: seq<Unit>)
    requires -1 <= last < 0x10000
    requires us != [] && us[0].Code? ==> !(Utf8.IsLead(last) && Utf8.IsTrail(us[0].u))
    ensures Assemble(Pending(last) + us) == Flushed(last) + Assemble(us)
  {
    if last >= 0 {
      assert (Pending(last) + us)[1..] == us;
    } else {
      assert Pending(last) + us == us;
    }
  }

  lemma AssemblePair(lead: unit16, trail: unit16, us: seq<Unit>)
    requires Utf8.IsLead(lead) && Utf8.IsTrail(trail)
    ensures Assemble([Code(lead)] + ([Code(trail)] + us)) == Utf8.Encode(Utf8.Pair(lead, trail)) + Assemble(us)
  {
    assert ([Code(lead)] + ([Code(trail)] + us))[2..] == us;
  }

  /** `out`, the pending unit, and then the characters still to be read. */
  function StringFrom(out: bytes, last: int, r: Reading<Items>): Reading<bytes>
    requires -1 <= last < 0x10000
  {
    match r
    case Failed => Failed
    case Read(it, rest) => Read(out + Assemble(Pending(last) + Units(it)), rest)
  }

  lemma AssembleByte(last: int, b: byte, us: seq<Unit>)
    requires -1 <= last < 0x10000
    ensures Assemble(Pending(last) + ([Byte(b)] + us)) == Flushed(last) + ([b] + Assemble(us))
  {
    AssembleFlush(last, [Byte(b)] + us);
    assert ([Byte(b)] + us)[1..] == us;
  }

  lemma Written(out: bytes, last: int, b: byte, r: Reading<Items>)
    requires -1 <= last < 0x10000
    ensures StringFrom(out + Flushed(last) + [b], -1, r)
            == if r.Failed? then Failed
               else Read(out + Assemble(Pending(last) + ([Byte(b)] + Units(r.value))), r.rest)
  {
    if r.Read? {
      AssembleByte(last, b, Units(r.value));
      var tail := Assemble(Units(r.value));
      assert Pending(-1) + Units(r.value) == Units(r.value);
      assert out + Flushed(last) + [b] + tail == out + (Flushed(last) + ([b] + tail));
    }
  }

  lemma Deferred(out: bytes, last: int, u: unit16, r: Reading<Items>)
    requires -1 <= last < 0x10000 && !(Utf8.IsLead(last) && Utf8.IsTrail(u))
    ensures StringFrom(out + Flushed(last), u, r)
            == if r.Failed? then Failed
               else Read(out + Assemble(Pending(last) + ([Code(u)] + Units(r.value))), r.rest)
  {
    if r.Read? {
      var us := Units(r.value);
      AssembleFlush(last, [Code(u)] + us);
      assert out + Flushed(last) + Assemble([Code(u)] + us) == out + (Flushed(last) + Assemble([Code(u)] + us));
    }
  }

  lemma Paired(out: bytes, lead: unit16, trail: unit16, r: Reading<Items>)
    requires Utf8.IsLead(lead) && Utf8.IsTrail(trail)
    ensures StringFrom(out + Utf8.Encode(Utf8.Pair(lead, trail)), -1, r)
            == if r.Failed? then Failed
               else Read(out + Assemble(Pending(lead) + ([Code(trail)] + Units(r.value))), r.rest)
  {
    if r.Read? {
      var us := Units(r.value);
      AssemblePair(lead, trail, us);
      var e := Utf8.Encode(Utf8.Pair(lead, trail));
      assert Pending(-1) + us == us;
      assert out + e + Assemble(us) == out + (e + Assemble(us));
    }
  }

  lemma StringStarts(s: bytes)
    ensures StringFrom([], -1, ReadItems(s))
            == match ReadItems(s) case Failed => Failed case Read(it, rest) => Read(StringValue(it), rest)
  {
    if ReadItems(s).Read? {
      var us := Units(ReadItems(s).value);
      assert Pending(-1) + us == us && [] + Assemble(us) == Assemble(us);
    }
  }

  /** Where a string cannot go on: at the end, at a control byte, after a lone backslash, at a malformed `\u`. */
  lemma StringStuck(s: bytes)
    requires s != [] && s[0] == BACKSLASH && |s| >= 2 ==>
               s[1] == LETTER_U &&
               (|s| < 6 || !IsHexDigit(s[2]) || !IsHexDigit(s[3]) || !IsHexDigit(s[4]) || !IsHexDigit(s[5]))
    requires s != [] && s[0] != BACKSLASH ==> s[0] < 0x20
    ensures ReadItems(s).Failed?
  {
  }

  lemma FailedString(out: bytes, last: int, s: bytes)
    requires -1 <= last < 0x10000
    ensures StringFrom(out, last, ReadItems(s)).Failed? == ReadItems(s).Failed?
  {
  }

  lemma StringEnds(out: bytes, last: int, s: bytes)
    requires -1 <= last < 0x10000 && s != [] && s[0] == QUOTE
    ensures StringFrom(out, last, ReadItems(s)) == Read(out + Flushed(last), s[1..])
  {
    AssembleFlush(last, []);
    assert Pending(last) + [] == Pending(last) && Flushed(last) + [] == Flushed(last);
  }

  lemma StringStep(out: bytes, last: int, s: bytes)
    requires -1 <= last < 0x10000 && s != [] && s[0] != QUOTE && s[0] >= 0x20 && s[0] != BACKSLASH
    ensures StringFrom(out, last, ReadItems(s)) == StringFrom(out + Flushed(last) + [s[0]], -1, ReadItems(s[1..]))
  {
    Written(out, last, s[0], ReadItems(s[1..]));
  }

  lemma EscapeStep(out: bytes, last: int, s: bytes)
    requires -1 <= last < 0x10000 && |s| >= 2 && s[0] == BACKSLASH && s[1] != LETTER_U
    ensures StringFrom(out, last, ReadItems(s))
            == if Unescape(s[1]).None? then Failed
               else StringFrom(out + Flushed(last) + [Unescape(s[1]).value], -1, ReadItems(s[2..]))
  {
    if Unescape(s[1]).Some? {
      Written(out, last, Unescape(s[1]).value, ReadItems(s[2..]));
    }
  }

  lemma HexStep(out: bytes, last: int, s: bytes)
    requires -1 <= last < 0x10000 && |s| >= 6 && s[0] == BACKSLASH && s[1] == LETTER_U
    requires IsHexDigit(s[2]) && IsHexDigit(s[3]) && IsHexDigit(s[4]) && IsHexDigit(s[5])
    ensures var u := HexValue(s[2], s[3], s[4], s[5]);
            StringFrom(out, last, ReadItems(s))
            == if Utf8.IsLead(last) && Utf8.IsTrail(u) then
                 StringFrom(out + Utf8.Encode(Utf8.Pair(last, u)), -1, ReadItems(s[6..]))
               else StringFrom(out + Flushed(last), u, ReadItems(s[6..]))
  {
    var u := HexValue(s[2], s[3], s[4], s[5]);
    if Utf8.IsLead(last) && Utf8.IsTrail(u) {
      Paired(out, last, u, ReadItems(s[6..]));
    } else {
      Deferred(out, last, u, ReadItems(s[6..]));
    }
  }

  /** Elements already collected, then those still to be read. */
  function ElemsFrom(data: seq<Json>, r: Reading<Elems>): Reading<seq<Json>> {
    match r
    case Failed => Failed
    case Read(es, rest) => Read(data + ElemValues(es), rest)
  }

  function PairsFrom(data: seq<Member>, r: Reading<Pairs>): Reading<seq<Member>> {
    match r
    case Failed => Failed
    case Read(ps, rest) => Read(PairValues(data, ps), rest)
  }

  lemma GapStopReads(s: bytes, m: Mode)
    requires JsonRecognition.GapStop(s, m)
    ensures ReadGap(s, m) == Read(End, s)
  {
  }

  /** A gap skipped once may be skipped again: the array branch re-reads the token it peeked at. */
  lemma ElemsAfterGap(data: seq<Json>, s: bytes, depth: int, m: Mode)
    ensures var g := AfterGap(s, m);
            ElemsFrom(data, ReadElems(s, depth, m))
            == if g.None? || g.value == [] then Failed else ElemsFrom(data, ReadElems(g.value, depth, m))
  {
    if AfterGap(s, m).Some? {
      JsonRecognition.GapSound(s, m);
      GapStopReads(AfterGap(s, m).value, m);
    }
  }

  /** A value and the token behind it: `close` ends the container, a comma (`true`) asks for more. */
  function ReadItem(s: bytes, close: byte, depth: int, m: Mode): Reading<(Json, bool)> {
    match ReadValue(s, depth, m)
    case Failed => Failed
    case Read(item, t) =>
      var g := AfterGap(t, m);
      if g.None? || g.value == [] then Failed
      else if g.value[0] == close then Read((Value(item.v), false), g.value[1..])
      else if g.value[0] == COMMA then Read((Value(item.v), true), g.value[1..])
      else Failed
  }

  /** One turn of the array loop. */
  function ElemsOnward(data: seq<Json>, s: bytes, depth: int, m: Mode): Reading<seq<Json>> {
    match ReadItem(s, RBRACKET, depth, m)
    case Failed => Failed
    case Read((item, more), t) =>
      if more then ElemsFrom(data + [item], ReadElems(t, depth, m)) else Read(data + [item], t)
  }

  lemma ElemsStep(data: seq<Json>, s: bytes, depth: int, m: Mode)
    ensures ElemsFrom(data, ReadElems(s, depth, m)) == ElemsOnward(data, s, depth, m)
  {
    hide ReadValue, ReadGap;
    var r := ReadElems(s, depth, m);
    if r.Read? && r.value.LastElem? {
      assert ElemValues(r.value) == [Value(r.value.item.v)];
    } else if r.Read? {
      assert data + ElemValues(r.value) == data + [Value(r.value.item.v)] + ElemValues(r.value.rest);
    }
  }

  lemma PairsAfterGap(data: seq<Member>, s: bytes, depth: int, m: Mode)
    ensures var g := AfterGap(s, m);
            PairsFrom(data, ReadPairs(s, depth, m))
            == if g.None? || g.value == [] || g.value[0] != QUOTE then Failed
               else PairsFrom(data, ReadPairs(g.value, depth, m))
  {
    if AfterGap(s, m).Some? {
      JsonRecognition.GapSound(s, m);
      GapStopReads(AfterGap(s, m).value, m);
    }
  }

  /** A member name after its opening quote, and its colon. */
  function ReadName(s: bytes, m: Mode): Reading<bytes> {
    match ReadItems(s)
    case Failed => Failed
    case Read(chars, t) =>
      var g := AfterGap(t, m);
      if g.None? || g.value == [] || g.value[0] != COLON then Failed
      else Read(StringValue(chars), g.value[1..])
  }

  /** One turn of the object loop, from a quote on. */
  function PairsOnward(data: seq<Member>, s: bytes, depth: int, m: Mode): Reading<seq<Member>>
    requires s != []
  {
    match ReadName(s[1..], m)
    case Failed => Failed
    case Read(name, t) =>
      match ReadItem(t, RBRACE, depth, m)
      case Failed => Failed
      case Read((item, more), u) =>
        var next := Insert(data, name, item);
        if more then PairsFrom(next, ReadPairs(u, depth, m)) else Read(next, u)
  }

  lemma PairsStep(data: seq<Member>, s: bytes, depth: int, m: Mode)
    requires s != [] && s[0] == QUOTE
    ensures PairsFrom(data, ReadPairs(s, depth, m)) == PairsOnward(data, s, depth, m)
  {
    hide ReadValue, ReadGap;
    GapStopReads(s, m);
  }

  /** A value without its tree. */
  function ValueFrom(s: bytes, depth: int, m: Mode): Reading<Json> {
    match ReadValue(s, depth, m)
    case Failed => Failed
    case Read(p, rest) => Read(Value(p.v), rest)
  }

  function BareFrom(s: bytes, depth: int, m: Mode): Reading<Json>
    requires s != []
  {
    match ReadBare(s, depth, m)
    case Failed => Failed
    case Read(t, rest) => Read(Value(t), rest)
  }

  /** An array after its opening bracket. */
  function ArrayFrom(s: bytes, depth: int, m: Mode): Reading<Json> {
    var g := AfterGap(s, m);
    if g.Some? && g.value != [] && g.value[0] == RBRACKET then Read(Arr([]), g.value[1..])
    else
      match ElemsFrom([], ReadElems(s, depth + 1, m))
      case Failed => Failed
      case Read(items, rest) => Read(Arr(items), rest)
  }

  /** An object after its opening brace. */
  function ObjectFrom(s: bytes, depth: int, m: Mode): Reading<Json> {
    var g := AfterGap(s, m);
    if g.Some? && g.value != [] && g.value[0] == RBRACE then Read(Obj([]), g.value[1..])
    else
      match PairsFrom([], ReadPairs(s, depth + 1, m))
      case Failed => Failed
      case Read(members, rest) => Read(Obj(members), rest)
  }

  function NumberReading(s: bytes): Reading<Json> {
    match ReadNumber(s)
    case Failed => Failed
    case Read(num, rest) => Read(NumberJson(num), rest)
  }

  lemma ValueAfterGap(s: bytes, depth: int, m: Mode)
    ensures var g := AfterGap(s, m);
            ValueFrom(s, depth, m)
            == if depth > MAX_DEPTH || g.None? || g.value == [] then Failed else BareFrom(g.value, depth, m)
  {
    hide ReadBare, ReadGap;
  }

  function WordFrom(s: bytes, word: bytes, v: Json): Reading<Json> {
    if word <= s then Read(v, s[|word|..]) else Failed
  }

  /** A value that is neither array nor object. */
  function ScalarFrom(s: bytes): Reading<Json>
    requires s != []
  {
    if StartsNumber(s[0]) then NumberReading(s)
    else if s[0] == TRUE_WORD[0] then WordFrom(s, TRUE_WORD, Bool(true))
    else if s[0] == FALSE_WORD[0] then WordFrom(s, FALSE_WORD, Bool(false))
    else if s[0] == NULL_WORD[0] then WordFrom(s, NULL_WORD, Null)
    else if s[0] == QUOTE then
      match ReadItems(s[1..])
      case Failed => Failed
      case Read(chars, rest) => Read(Str(StringValue(chars)), rest)
    else Failed
  }

  /** What a failing parse returns: the empty string for a string that breaks off, null for everything else. */
  function Leftover(s: bytes, depth: int, m: Mode): Json {
    match AfterGap(s, m)
    case Some(t) => if depth <= MAX_DEPTH && t != [] && t[0] == QUOTE then Str([]) else Null
    case None => Null
  }

  lemma BareScalar(s: bytes, depth: int, m: Mode)
    requires s != [] && s[0] != LBRACE && s[0] != LBRACKET
    ensures BareFrom(s, depth, m) == ScalarFrom(s)
  {
    hide ReadNumber, ReadItems, NumberJson, StringValue;
  }

  lemma BareArray(s: bytes, depth: int, m: Mode)
    requires s != [] && s[0] == LBRACKET
    ensures BareFrom(s, depth, m) == ArrayFrom(s[1..], depth, m)
  {
    hide ReadElems, ReadGap;
    var es := ReadElems(s[1..], depth + 1, m);
    ElemsAfterGap([], s[1..], depth + 1, m);
    if es.Read? {
      assert [] + ElemValues(es.value) == ElemValues(es.value);
    }
  }

  lemma BareObject(s: bytes, depth: int, m: Mode)
    requires s != [] && s[0] == LBRACE
    ensures BareFrom(s, depth, m) == ObjectFrom(s[1..], depth, m)
  {
    hide ReadPairs, ReadGap;
    PairsAfterGap([], s[1..], depth + 1, m);
  }

  /** A number from its parts. */
  lemma WholeEndsNumber(t: bytes)
    requires t != [] ==> t[0] != DOT && !IsExponentMark(t[0])
    ensures ReadFraction(t) == Read([], t) && ReadExponent(t) == Read(NoExponent, t)
  {
  }

  lemma NumberGoesOn(t: bytes)
    requires t != [] && (t[0] == DOT || IsExponentMark(t[0])) && ReadFraction(t).Read?
    ensures ReadFraction(t).value == [] && ReadExponent(ReadFraction(t).rest).Read? ==>
              ReadExponent(ReadFraction(t).rest).value.Exponent?
  {
  }

  lemma NumberFails(s: bytes)
    requires ReadWhole(if s != [] && s[0] == MINUS then s[1..] else s).Failed?
    ensures ReadNumber(s).Failed? && NumberReading(s) == Failed
  {
  }

  lemma NumberFrom(s: bytes, negative: bool, whole: bytes, t: bytes)
    requires negative == (s != [] && s[0] == MINUS)
    requires ReadWhole(if negative then s[1..] else s) == Read(whole, t)
    ensures ReadNumber(s)
            == if ReadFraction(t).Failed? || ReadExponent(ReadFraction(t).rest).Failed? then Failed
               else
                 var e := ReadExponent(ReadFraction(t).rest);
                 Read(Number.Number(negative, whole, ReadFraction(t).value, e.value), e.rest)
  {
  }

  /** A number that ends with its integer part and has at most nine characters is an int, */
  lemma ShortNumber(s: bytes, negative: bool, whole: bytes, t: bytes)
    requires negative == (s != [] && s[0] == MINUS)
    requires ReadWhole(if negative then s[1..] else s) == Read(whole, t)
    requires (if negative then 1 else 0) + |whole| <= INT_DIGITS
    requires t != [] ==> t[0] != DOT && !IsExponentMark(t[0])
    ensures NumberReading(s) == Read(Int(IntegerOf(Number.Number(negative, whole, [], NoExponent))), t)
  {
    hide ReadNumber, ReadWhole, ReadFraction, ReadExponent, IntegerOf;
    NumberFrom(s, negative, whole, t);
    WholeEndsNumber(t);
  }

  /** and every other number is a double. */
  lemma LongNumber(s: bytes, negative: bool, whole: bytes, t: bytes)
    requires negative == (s != [] && s[0] == MINUS)
    requires ReadWhole(if negative then s[1..] else s) == Read(whole, t)
    requires (if negative then 1 else 0) + |whole| > INT_DIGITS || (t != [] && (t[0] == DOT || IsExponentMark(t[0])))
    ensures var f := ReadFraction(t);
            NumberReading(s)
            == if f.Failed? || ReadExponent(f.rest).Failed? then Failed
               else
                 var e := ReadExponent(f.rest);
                 Read(Dbl(Finite(RealOf(Number.Number(negative, whole, f.value, e.value)))), e.rest)
  {
    hide ReadNumber, ReadWhole, ReadFraction, ReadExponent, RealOf;
    NumberFrom(s, negative, whole, t);
    if (if negative then 1 else 0) + |whole| <= INT_DIGITS && ReadFraction(t).Read? {
      NumberGoesOn(t);
    }
  }

  class JsonParser {
    const str: bytes
    const strategy: Mode
    var i: nat
    var failed: bool

    constructor (input: bytes, mode: Mode)
      ensures str == input && strategy == mode && i == 0 && !failed
    {
      str, strategy, i, failed := input, mode, 0, false;
    }

    ghost predicate Valid()
      reads this
    {
      i <= |str|
    }

    ghost function Rest(): bytes
      reads this
      requires Valid()
    {
      str[i..]
    }

    /** The method either failed where the reader fails, or returns its value at its place. */
    ghost predicate Returns(r: Json, want: Reading<Json>)
      reads this
      requires Valid()
    {
      failed == want.Failed? && (!failed ==> want == Read(r, Rest()))
    }

    method Fail()
      modifies `failed
      ensures failed
    {
      failed := true;
    }

    method ConsumeWhitespace()
      requires Valid()
      modifies `i
      ensures Valid() && old(i) <= i
      ensures forall k :: old(i) <= k < i ==> IsBlank(str[k])
      ensures Rest() != [] ==> !IsBlank(Rest()[0])
      ensures AfterGap(Rest(), strategy) == AfterGap(old(Rest()), strategy)
    {
      while IsBlank(At(str, i))
        invariant Valid() && old(i) <= i
        invariant forall k :: old(i) <= k < i ==> IsBlank(str[k])
        invariant AfterGap(Rest(), strategy) == AfterGap(old(Rest()), strategy)
        decreases |str| - i
      {
        assert str[i..][1..] == str[i + 1..];
        i := i + 1;
      }
    }

    /** Up to the newline that ends a line comment, or the end of the text. */
    method SkipLine()
      requires Valid()
      modifies `i
      ensures Valid() && old(i) <= i && Rest() == SpanLine(old(Rest())).1
    {
      while i < |str| && str[i] != LF
        invariant old(i) <= i <= |str|
        invariant SpanLine(str[i..]).1 == SpanLine(old(Rest())).1
      {
        assert str[i..][1..] == str[i + 1..];
        i := i + 1;
      }
    }

    /** Past the first comment close. */
    method SkipBlock() returns (closed: bool)
      requires Valid()
      modifies `i
      ensures Valid() && old(i) <= i
      ensures AfterBlock(old(Rest())) == if closed then Some(Rest()) else None
    {
      if i + 2 > |str| {
        return false;
      }
      while !(str[i] == STAR && str[i + 1] == SLASH)
        invariant old(i) <= i && i + 2 <= |str|
        invariant AfterBlock(str[i..]) == AfterBlock(old(Rest()))
        decreases |str| - i
      {
        assert str[i..][1..] == str[i + 1..];
        i := i + 1;
        if i + 2 > |str| {
          return false;
        }
      }
      assert str[i..][2..] == str[i + 2..];
      i := i + 2;
      return true;
    }

    method ConsumeComment() returns (found: bool)
      requires Valid() && strategy.Comments?
      modifies `i, `failed
      ensures Valid() && old(i) <= i
      ensures At(str, old(i)) != SLASH ==> !found && i == old(i) && failed == old(failed)
      ensures At(str, old(i)) == SLASH ==>
                SkipComment(old(Rest())) == if found then Some(Rest()) else None
      ensures At(str, old(i)) == SLASH ==> if found then failed == old(failed) && i > old(i) else failed
    {
      hide SpanLine, AfterBlock;
      found := false;
      if At(str, i) == SLASH {
        ghost var s := str[i..];
        i := i + 1;
        if i == |str| {
          Fail();
          return;
        }
        assert s[1] == str[i] && s[2..] == str[i + 1..];
        if str[i] == SLASH {
          i := i + 1;
          SkipLine();
          found := true;
        } else if str[i] == STAR {
          i := i + 1;
          found := SkipBlock();
          if !found {
            Fail();
          }
        } else {
          Fail();
        }
      }
    }

    method ConsumeGarbage()
      requires Valid()
      modifies `i, `failed
      ensures Valid() && old(i) <= i
      ensures old(failed) ==> failed
      ensures !old(failed) ==> failed == AfterGap(old(Rest()), strategy).None?
      ensures !failed ==> AfterGap(old(Rest()), strategy) == Some(Rest())
    {
      ConsumeWhitespace();
      if strategy.Comments? {
        var found := true;
        while found
          invariant Valid() && old(i) <= i
          invariant failed == old(failed)
          invariant Rest() != [] ==> !IsBlank(Rest()[0])
          invariant AfterGap(Rest(), strategy) == AfterGap(old(Rest()), strategy)
          invariant !failed && !found ==> At(str, i) != SLASH
          decreases |str| - i, found
        {
          if At(str, i) == SLASH {
            CommentInGap(Rest());
          }
          found := ConsumeComment();
          if failed {
            return;
          }
          ConsumeWhitespace();
        }
      }
    }

    /** The token is pushed back by the caller's `i--`, so the contract speaks of `str[i - 1..]`. */
    method GetNextToken() returns (ch: byte)
      requires Valid()
      modifies `i, `failed
      ensures Valid() && old(i) <= i
      ensures old(failed) ==> failed
      ensures failed ==> ch == NUL
      ensures !failed ==> old(i) < i && AfterGap(old(Rest()), strategy) == Some(str[i - 1..]) && ch == str[i - 1]
      ensures !old(failed) && failed ==>
                var g := AfterGap(old(Rest()), strategy); g.None? || g.value == []
    {
      ConsumeGarbage();
      if failed {
        return NUL;
      }
      if i == |str| {
        Fail();
        return NUL;
      }
      ch := str[i];
      i := i + 1;
    }

    /** A negative `pt` stands for "nothing pending". */
    static method EncodeUtf8(pt: int, out: bytes) returns (r: bytes)
      requires pt <= 0x10FFFF
      ensures r == out + if pt < 0 then [] else Utf8.Encode(pt)
    {
      r := out;
      if pt < 0 {
        return;
      }
      if pt < 0x80 {
        r := r + [pt];
      } else if pt < 0x800 {
        r := r + [pt / 0x40 + 0xC0];
        r := r + [pt % 0x40 + 0x80];
      } else if pt < 0x10000 {
        r := r + [pt / 0x1000 + 0xE0];
        r := r + [pt / 0x40 % 0x40 + 0x80];
        r := r + [pt % 0x40 + 0x80];
      } else {
        r := r + [pt / 0x40000 + 0xF0];
        r := r + [pt / 0x1000 % 0x40 + 0x80];
        r := r + [pt / 0x40 % 0x40 + 0x80];
        r := r + [pt % 0x40 + 0x80];
      }
    }

    static method AllHex(esc: bytes) returns (ok: bool)
      requires |esc| == 4
      ensures ok <==> IsHexDigit(esc[0]) && IsHexDigit(esc[1]) && IsHexDigit(esc[2]) && IsHexDigit(esc[3])
    {
      for j := 0 to 4
        invariant forall k :: 0 <= k < j ==> IsHexDigit(esc[k])
      {
        if !IsHexDigit(esc[j]) {
          return false;
        }
      }
      return true;
    }

    method ParseString() returns (out: bytes)
      requires Valid() && !failed
      modifies `i, `failed
      ensures Valid() && old(i) <= i
      ensures failed == ReadItems(old(Rest())).Failed?
      ensures !failed ==> var r := ReadItems(old(Rest())); r.rest == Rest() && out == StringValue(r.value)
      ensures failed ==> out == []
    {
      hide ReadItems, StringFrom, Assemble, Units, HexValue, Utf8.Encode;
      out := [];
      var last: int := -1;
      StringStarts(Rest());
      ghost var answer := StringFrom(out, last, ReadItems(Rest()));
      while true
        invariant Valid() && old(i) <= i && !failed
        invariant -1 <= last < 0x10000
        invariant StringFrom(out, last, ReadItems(str[i..])) == answer
        decreases |str| - i
      {
        ghost var s := str[i..];
        FailedString(out, last, s);
        if i == |str| {
          StringStuck(s);
          Fail();
          return [];
        }
        var ch := str[i];
        i := i + 1;
        assert str[i..] == s[1..];
        if ch == QUOTE {
          StringEnds(out, last, s);
          out := EncodeUtf8(last, out);
          return out;
        }
        if ch < 0x20 {
          StringStuck(s);
          Fail();
          return [];
        }
        if ch != BACKSLASH {
          StringStep(out, last, s);
          out := EncodeUtf8(last, out);
          last := -1;
          out := out + [ch];
          continue;
        }
        if i == |str| {
          StringStuck(s);
          Fail();
          return [];
        }
        ch := str[i];
        i := i + 1;
        assert ch == s[1] && str[i..] == s[2..];
        if ch == LETTER_U {
          if |str| - i < 4 {
            StringStuck(s);
            Fail();
            return [];
          }
          var esc := str[i..i + 4];
          assert esc[0] == s[2] && esc[1] == s[3] && esc[2] == s[4] && esc[3] == s[5];
          var hex := AllHex(esc);
          if !hex {
            StringStuck(s);
            Fail();
            return [];
          }
          var codepoint := HexValue(esc[0], esc[1], esc[2], esc[3]);
          HexStep(out, last, s);
          if Utf8.IsLead(last) && Utf8.IsTrail(codepoint) {
            var astral := (last - 0xD800) * 0x400 + (codepoint - 0xDC00) + 0x10000;
            assert astral == Utf8.Pair(last, codepoint);
            out := EncodeUtf8(astral, out);
            last := -1;
          } else {
            out := EncodeUtf8(last, out);
            last := codepoint;
          }
          i := i + 4;
          assert str[i..] == s[6..];
          continue;
        }
        EscapeStep(out, last, s);
        out := EncodeUtf8(last, out);
        last := -1;
        if Unescape(ch).None? {
          Fail();
          return [];
        }
        out := out + [Unescape(ch).value];
      }
    }

    /** Moves past the digits at the cursor. */
    method SkipDigits()
      requires Valid()
      modifies `i
      ensures Valid() && old(i) <= i
      ensures SpanDigits(old(Rest())) == (str[old(i)..i], Rest())
    {
      ghost var s := str[i..];
      ghost var n := 0;
      while Decimal.IsDigit(At(str, i))
        invariant old(i) + n == i <= |str|
        invariant forall k :: 0 <= k < n ==> Decimal.IsDigit(s[k])
        decreases |str| - i
      {
        i, n := i + 1, n + 1;
      }
      assert s == s[..n] + s[n..] && s[..n] == str[old(i)..i] && s[n..] == str[i..];
      JsonRecognition.SpanDigitsFinds(s[..n], s[n..]);
    }

    /** The digits before the dot. */
    method ParseWhole()
      requires Valid() && !failed
      modifies `i, `failed
      ensures Valid() && old(i) <= i
      ensures failed == ReadWhole(old(Rest())).Failed?
      ensures !failed ==> ReadWhole(old(Rest())) == Read(str[old(i)..i], Rest()) && old(i) < i
    {
      ghost var s := str[i..];
      if At(str, i) == ZERO {
        i := i + 1;
        assert str[i..] == s[1..] && str[old(i)..i] == [ZERO];
        if Decimal.IsDigit(At(str, i)) {
          assert s[1] == str[i];
          Fail();
          return;
        }
      } else if 0x31 <= At(str, i) <= NINE {
        SkipDigits();
      } else {
        Fail();
      }
    }

    method ParseFraction()
      requires Valid() && !failed
      modifies `i, `failed
      ensures Valid() && old(i) <= i
      ensures failed == ReadFraction(old(Rest())).Failed?
      ensures !failed ==> ReadFraction(old(Rest())) == Read(str[if i == old(i) then i else old(i) + 1..i], Rest())
    {
      ghost var s := str[i..];
      if At(str, i) == DOT {
        i := i + 1;
        assert str[i..] == s[1..];
        if !Decimal.IsDigit(At(str, i)) {
          Fail();
          return;
        }
        SkipDigits();
      } else {
        assert str[i..i] == [];
      }
    }

    method ParseExponent() returns (e: Exponent)
      requires Valid() && !failed
      modifies `i, `failed
      ensures Valid() && old(i) <= i
      ensures failed == ReadExponent(old(Rest())).Failed?
      ensures !failed ==> ReadExponent(old(Rest())) == Read(e, Rest())
    {
      e := NoExponent;
      ghost var s := str[i..];
      if IsExponentMark(At(str, i)) {
        var mark := str[i];
        i := i + 1;
        assert str[i..] == s[1..];
        var sign := None;
        if At(str, i) == PLUS || At(str, i) == MINUS {
          sign := Some(str[i]);
          i := i + 1;
          assert str[i..] == s[2..];
        }
        if !Decimal.IsDigit(At(str, i)) {
          Fail();
          return;
        }
        var start := i;
        SkipDigits();
        e := Exponent.Exponent(mark, sign, str[start..i]);
      }
    }

    method ParseNumber() returns (r: Json)
      requires Valid() && !failed
      modifies `i, `failed
      ensures Valid() && old(i) <= i
      ensures Returns(r, NumberReading(old(Rest())))
      ensures if failed then r == Null else old(i) < i
    {
      hide NumberReading, ReadWhole, ReadFraction, ReadExponent, RealOf, IntegerOf;
      var start := i;
      ghost var s := str[i..];
      var negative := At(str, i) == MINUS;
      if negative {
        i := i + 1;
        assert str[i..] == s[1..];
      }
      var wholeStart := i;
      ParseWhole();
      if failed {
        NumberFails(s);
        return Null;
      }
      var whole := str[wholeStart..i];
      ghost var t := str[i..];
      if At(str, i) != DOT && !IsExponentMark(At(str, i)) && i - start <= INT_DIGITS {
        ShortNumber(s, negative, whole, t);
        return Int(IntegerOf(Number.Number(negative, whole, [], NoExponent)));
      }
      LongNumber(s, negative, whole, t);
      var dot := i;
      ParseFraction();
      if failed {
        return Null;
      }
      var fraction := str[if i == dot then i else dot + 1..i];
      var exponent := ParseExponent();
      if failed {
        return Null;
      }
      return Dbl(Finite(RealOf(Number.Number(negative, whole, fraction, exponent))));
    }

    method Expect(expected: bytes, res: Json) returns (r: Json)
      requires Valid() && !failed && 0 < i
      modifies `i, `failed
      ensures Valid()
      ensures failed <==> !(expected <= str[old(i) - 1..])
      ensures !failed ==> r == res && Rest() == str[old(i) - 1..][|expected|..]
      ensures !failed && expected != [] ==> old(i) <= i
      ensures failed ==> r == Null
    {
      i := i - 1;
      if i + |expected| <= |str| && str[i..i + |expected|] == expected {
        assert str[i..][..|expected|] == expected;
        i := i + |expected|;
        return res;
      }
      Fail();
      return Null;
    }

    /** The branches of `parse_json` that do not recurse. */
    method ParseScalar(ch: byte) returns (r: Json)
      requires Valid() && !failed && 0 < i && ch == str[i - 1] && ch != LBRACE && ch != LBRACKET
      modifies `i, `failed
      ensures Valid()
      ensures Returns(r, ScalarFrom(old(str[i - 1..])))
      ensures failed ==> r == if ch == QUOTE then Str([]) else Null
      ensures !failed ==> old(i) <= i
    {
      hide ReadNumber, ReadItems, NumberReading, StringValue;
      assert str[i - 1..][1..] == str[i..];
      if ch == MINUS || Decimal.IsDigit(ch) {
        i := i - 1;
        r := ParseNumber();
      } else if ch == TRUE_WORD[0] {
        r := Expect(TRUE_WORD, Bool(true));
      } else if ch == FALSE_WORD[0] {
        r := Expect(FALSE_WORD, Bool(false));
      } else if ch == NULL_WORD[0] {
        r := Expect(NULL_WORD, Null);
      } else if ch == QUOTE {
        var out := ParseString();
        r := Str(out);
      } else {
        Fail();
        r := Null;
      }
    }

    /** `MAX_DEPTH` bounds the recursion; within one level the cursor moves on or the parse has failed. */
    method ParseJson(depth: nat) returns (r: Json)
      requires Valid()
      modifies this
      ensures Valid()
      ensures old(failed) ==> failed
      ensures !old(failed) ==> Returns(r, ValueFrom(old(Rest()), depth, strategy))
      ensures !old(failed) && failed ==> r == Leftover(old(Rest()), depth, strategy)
      ensures !failed ==> old(i) < i
      decreases MAX_DEPTH - depth, 2
    {
      hide ValueFrom, BareFrom, ScalarFrom, ArrayFrom, ObjectFrom, AfterGap;
      ValueAfterGap(str[i..], depth, strategy);
      if depth > MAX_DEPTH {
        Fail();
        return Null;
      }
      var ch := GetNextToken();
      if failed {
        return Null;
      }
      ghost var t := str[i - 1..];
      assert t[1..] == str[i..];
      if ch == LBRACE {
        BareObject(t, depth, strategy);
        r := ParseObject(depth);
      } else if ch == LBRACKET {
        BareArray(t, depth, strategy);
        r := ParseArray(depth);
      } else {
        BareScalar(t, depth, strategy);
        r := ParseScalar(ch);
      }
    }

    /** `parse_json` for an element or member, and the token behind it. */
    method ParseItem(close: byte, depth: nat) returns (item: Json, more: bool)
      requires Valid() && close != COMMA && 0 < depth <= MAX_DEPTH + 1
      modifies this
      ensures Valid()
      ensures old(failed) ==> failed
      ensures !old(failed) ==>
                var r := ReadItem(old(Rest()), close, depth, strategy);
                failed == r.Failed? && (!failed ==> r == Read((item, more), Rest()))
      ensures !failed ==> old(i) < i
      decreases MAX_DEPTH - depth, 3
    {
      more := false;
      item := ParseJson(depth);
      if failed {
        return;
      }
      var ch := GetNextToken();
      if ch == close {
        assert str[i - 1..][1..] == str[i..];
        return;
      }
      if ch != COMMA {
        Fail();
        return;
      }
      assert str[i - 1..][1..] == str[i..];
      more := true;
    }

    /** The array branch of `parse_json`, after its bracket. */
    method ParseArray(depth: nat) returns (r: Json)
      requires Valid() && !failed && 0 < i && depth <= MAX_DEPTH
      modifies this
      ensures Valid()
      ensures Returns(r, ArrayFrom(old(Rest()), depth, strategy))
      ensures if failed then r == Null else old(i) <= i
      decreases MAX_DEPTH - depth, 1
    {
      hide ReadElems, ReadGap, ReadItem, ElemsFrom, AfterGap;
      ghost var answer := ElemsFrom([], ReadElems(str[i..], depth + 1, strategy));
      ElemsAfterGap([], str[i..], depth + 1, strategy);
      var data := [];
      var ch := GetNextToken();
      if ch == RBRACKET {
        assert str[i - 1..][1..] == str[i..];
        return Arr(data);
      }
      while true
        invariant Valid() && 0 < old(i) <= i
        invariant failed ==> answer.Failed?
        invariant !failed ==> answer == ElemsFrom(data, ReadElems(str[i - 1..], depth + 1, strategy))
        decreases if failed then 0 else |str| - i + 1
      {
        i := i - 1;
        ElemsStep(data, str[i..], depth + 1, strategy);
        var item, more := ParseItem(RBRACKET, depth + 1);
        data := data + [item];
        if failed {
          return Null;
        }
        if !more {
          return Arr(data);
        }
        ElemsAfterGap(data, str[i..], depth + 1, strategy);
        ch := GetNextToken();
      }
    }

    method ParseName() returns (key: bytes)
      requires Valid() && !failed
      modifies `i, `failed
      ensures Valid() && old(i) <= i
      ensures failed == ReadName(old(Rest()), strategy).Failed?
      ensures !failed ==> ReadName(old(Rest()), strategy) == Read(key, Rest())
    {
      key := ParseString();
      if failed {
        return;
      }
      var ch := GetNextToken();
      if ch != COLON {
        Fail();
        return;
      }
      assert str[i - 1..][1..] == str[i..];
    }

    /** The object branch of `parse_json`, after its brace. */
    method ParseObject(depth: nat) returns (r: Json)
      requires Valid() && !failed && 0 < i && depth <= MAX_DEPTH
      modifies this
      ensures Valid()
      ensures Returns(r, ObjectFrom(old(Rest()), depth, strategy))
      ensures if failed then r == Null else old(i) <= i
      decreases MAX_DEPTH - depth, 1
    {
      hide ReadPairs, ReadGap, ReadName, ReadItem, Insert, PairsFrom, AfterGap;
      ghost var answer := PairsFrom([], ReadPairs(str[i..], depth + 1, strategy));
      PairsAfterGap([], str[i..], depth + 1, strategy);
      var data := [];
      var ch := GetNextToken();
      if ch == RBRACE {
        assert str[i - 1..][1..] == str[i..];
        return Obj(data);
      }
      while true
        invariant Valid() && 0 < old(i) <= i
        invariant failed ==> answer.Failed? && ch == NUL
        invariant !failed ==> ch == str[i - 1]
        invariant !failed ==> answer == if ch != QUOTE then Failed
                                        else PairsFrom(data, ReadPairs(str[i - 1..], depth + 1, strategy))
        decreases if failed then 0 else |str| - i + 1
      {
        if ch != QUOTE {
          Fail();
          return Null;
        }
        PairsStep(data, str[i - 1..], depth + 1, strategy);
        assert str[i - 1..][1..] == str[i..];
        var key := ParseName();
        if failed {
          return Null;
        }
        var item, more := ParseItem(RBRACE, depth + 1);
        data := Insert(data, key, item);
        if failed {
          return Null;
        }
        if !more {
          return Obj(data);
        }
        PairsAfterGap(data, str[i..], depth + 1, strategy);
        ch := GetNextToken();
      }
    }
  }

  /** `Json::parse`; `failed` stands for a non-empty error text. */
  method Parse(input: bytes, strategy: Mode) returns (r: Json, failed: bool)
    ensures failed == JsonReader.Parse(input, strategy).None?
    ensures !failed ==> JsonReader.Parse(input, strategy) == Some(r)
    ensures failed ==> r == Null
  {
    var parser := new JsonParser(input, strategy);
    assert input[0..] == input;
    r := parser.ParseJson(0);
    parser.ConsumeGarbage();
    if parser.failed {
      return Null, true;
    }
    if parser.i != |input| {
      parser.Fail();
      return Null, true;
    }
    failed := false;
  }

  /** Values one after another, with what is left behind the last complete one. */
  datatype Stream = Stream(values: seq<Json>, rest: bytes, ok: bool)

  function ReadStream(s: bytes, m: Mode): Stream
    decreases |s|
  {
    if s == [] then Stream([], s, true)
    else
      match ReadValue(s, 0, m)
      case Failed => Stream([], s, false)
      case Read(p, t) =>
        match ReadGap(t, m)
        case Failed => Stream([], s, false)
        case Read(_, u) =>
          var more := ReadStream(u, m);
          more.(values := [Value(p.v)] + more.values)
  }

  lemma StreamStep(s: bytes, m: Mode)
    ensures var v := ValueFrom(s, 0, m);
            ReadStream(s, m)
            == if s == [] then Stream([], s, true)
               else if v.Failed? || AfterGap(v.rest, m).None? then Stream([], s, false)
               else
                 var more := ReadStream(AfterGap(v.rest, m).value, m);
                 more.(values := [v.value] + more.values)
  {
    hide ReadValue, ReadGap;
  }

  /** What a run that fails at `s` pushes last: a value with a broken comment behind it, or what the failing parse
      returned. */
  function LastPushed(s: bytes, m: Mode): Json {
    match ValueFrom(s, 0, m)
    case Read(v, _) => v
    case Failed => Leftover(s, 0, m)
  }

  lemma LastPushedIs(s: bytes, m: Mode)
    ensures LastPushed(s, m) == if ValueFrom(s, 0, m).Read? then ValueFrom(s, 0, m).value else Leftover(s, 0, m)
  {
    hide ReadValue, Leftover;
  }

  /** `Json::parse_multi` */
  method ParseMulti(input: bytes, strategy: Mode) returns (values: seq<Json>, stop: nat, failed: bool)
    ensures var all := ReadStream(input, strategy);
            && failed == !all.ok
            && stop <= |input| && input[stop..] == all.rest
            && values == all.values + if failed then [LastPushed(all.rest, strategy)] else []
  {
    hide ReadValue, ReadGap, ValueFrom, AfterGap, ReadStream, Leftover, LastPushed;
    var parser := new JsonParser(input, strategy);
    stop, values, failed := 0, [], false;
    ghost var all := ReadStream(input, strategy);
    assert input[0..] == input;
    while parser.i != |input| && !parser.failed
      invariant fresh(parser) && parser.Valid() && parser.str == input && parser.strategy == strategy
      invariant !parser.failed && !failed && stop == parser.i
      invariant var more := ReadStream(input[stop..], strategy);
                all == more.(values := values + more.values)
      decreases |input| - parser.i
    {
      StreamStep(input[stop..], strategy);
      LastPushedIs(input[stop..], strategy);
      ghost var before := values;
      var item := parser.ParseJson(0);
      values := values + [item];
      if parser.failed {
        failed := true;
        break;
      }
      parser.ConsumeGarbage();
      if parser.failed {
        failed := true;
        break;
      }
      stop := parser.i;
      ghost var more := ReadStream(input[stop..], strategy);
      assert before + ([item] + more.values) == values + more.values;
    }
    StreamStep(input[stop..], strategy);
    assert values + [] == values;
  }
}
