/** What the packer's stream operators write and the unpacker's read, for integers, strings, vectors, maps and
    records. */
module Wire {
  import opened Bytes
  import opened Floors

  type width = w: nat | w == 1 || w == 2 || w == 4 || w == 8 witness 1

  /** The C++ types the operators are instantiated with. */
  datatype Type =
    | Unsigned(w: width)
    | Signed(w: width)
    | Text
    | Vector(elem: Type)
    | Map(kw: width, elem: Type)
    | Record(fields: seq<Type>)

  datatype Value =
    | Number(n: int)
    | Chars(s: bytes)
    | Items(items: seq<Value>)
    | Entries(entries: seq<Entry>)
    | Fields(fields: seq<Value>)

  datatype Entry = Entry(key: int, value: Value)

  /** The number of values of a `w`-byte integer. */
  function Span(w: nat): (n: int)
    ensures n >= 1
  {
    if w == 0 then 1 else 256 * Span(w - 1)
  }

  const COUNTS := 0x1_0000

  /** `memcpy` of an integer, least significant byte first. */
  function LittleEndian(n: nat, w: nat): (s: bytes)
    ensures |s| == w
  {
    if w == 0 then [] else [n % 256] + LittleEndian(n / 256, w - 1)
  }

  function FromLittleEndian(s: bytes): nat {
    if s == [] then 0 else s[0] + 256 * FromLittleEndian(s[1..])
  }

  lemma {:induction false} LittleEndianInverts(n: nat, w: nat)
    requires n < Span(w)
    ensures FromLittleEndian(LittleEndian(n, w)) == n
    decreases w
  {
    if w > 0 {
      LittleEndianInverts(n / 256, w - 1);
      assert LittleEndian(n, w)[1..] == LittleEndian(n / 256, w - 1);
    }
  }

  /** `static_cast` between a signed integer and the unsigned one of its width. */
  function ToUnsigned(n: int, w: width): nat {
    n % Span(w)
  }

  function ToSigned(n: nat, w: width): int {
    if 2 * n < Span(w) then n else n - Span(w)
  }

  predicate InRange(n: int, t: Type) {
    match t
    case Unsigned(w) => 0 <= n < Span(w)
    case Signed(w) => -Span(w) <= 2 * n < Span(w)
    case _ => false
  }

  /** A `std::map`: keys distinct, in order. */
  predicate Increasing(es: seq<Entry>) {
    forall i, j :: 0 <= i < j < |es| ==> es[i].key < es[j].key
  }

  /** `v` is a value of the C++ type `t`. */
  predicate Typed(v: Value, t: Type)
    decreases v
  {
    match v
    case Number(n) => InRange(n, t)
    case Chars(_) => t.Text?
    case Items(items) => t.Vector? && TypedItems(items, t.elem)
    case Entries(es) => t.Map? && TypedEntries(es, t.kw, t.elem) && Increasing(es)
    case Fields(vs) => t.Record? && TypedFields(vs, t.fields)
  }

  predicate TypedItems(vs: seq<Value>, t: Type)
    decreases vs
  {
    vs == [] || (Typed(vs[0], t) && TypedItems(vs[1..], t))
  }

  predicate TypedEntries(es: seq<Entry>, kw: width, t: Type)
    decreases es
  {
    es == [] ||
    (var Entry(key, value) := es[0];
     assert es decreases to es[0];
     0 <= key < Span(kw) && Typed(value, t) && TypedEntries(es[1..], kw, t))
  }

  predicate TypedFields(vs: seq<Value>, ts: seq<Type>)
    decreases vs
  {
    |vs| == |ts| && (vs == [] || (Typed(vs[0], ts[0]) && TypedFields(vs[1..], ts[1..])))
  }

  /** Every string and container inside fits its 16-bit count. */
  predicate Short(v: Value)
    decreases v
  {
    match v
    case Number(_) => true
    case Chars(s) => |s| < COUNTS
    case Items(items) => |items| < COUNTS && ShortItems(items)
    case Entries(es) => |es| < COUNTS && ShortEntries(es)
    case Fields(vs) => ShortItems(vs)
  }

  predicate ShortItems(vs: seq<Value>)
    decreases vs
  {
    vs == [] || (Short(vs[0]) && ShortItems(vs[1..]))
  }

  predicate ShortEntries(es: seq<Entry>)
    decreases es
  {
    es == [] || (assert es decreases to es[0]; Short(es[0].value) && ShortEntries(es[1..]))
  }

  // ----- writing; counts and lengths are cut to 16 bits

  function Count(n: nat): (s: bytes)
    ensures |s| == 2
  {
    LittleEndian(n % COUNTS, 2)
  }

  function NumberBytes(n: int, t: Type): bytes {
    match t
    case Unsigned(w) => LittleEndian(ToUnsigned(n, w), w)
    case Signed(w) => LittleEndian(ToUnsigned(n, w), w)
    case _ => []
  }

  function Encode(v: Value, t: Type): bytes
    decreases v
  {
    match (v, t)
    case (Number(n), _) => NumberBytes(n, t)
    case (Chars(s), _) => Count(|s|) + s
    case (Items(items), Vector(elem)) => Count(|items|) + EncodeItems(items, |items| % COUNTS, elem)
    case (Entries(es), Map(kw, elem)) => Count(|es|) + EncodeEntries(es, kw, elem)
    case (Fields(vs), Record(ts)) => EncodeFields(vs, ts)
    case (_, _) => []
  }

  /** The first `n` items: a vector is written as far as its 16-bit count says. */
  function EncodeItems(vs: seq<Value>, n: nat, t: Type): bytes
    decreases vs
  {
    if vs == [] || n == 0 then [] else Encode(vs[0], t) + EncodeItems(vs[1..], n - 1, t)
  }

  function EncodeEntries(es: seq<Entry>, kw: width, t: Type): bytes
    decreases es
  {
    if es == [] then []
    else
      var Entry(key, value) := es[0];
      assert es decreases to es[0];
      LittleEndian(ToUnsigned(key, kw), kw) + (Encode(value, t) + EncodeEntries(es[1..], kw, t))
  }

  function EncodeFields(vs: seq<Value>, ts: seq<Type>): bytes
    decreases vs
  {
    if vs == [] || ts == [] then [] else Encode(vs[0], ts[0]) + EncodeFields(vs[1..], ts[1..])
  }

  // ----- reading; `None` where the unpacker throws

  function TakeUnsigned(w: nat, s: bytes): Option<(nat, bytes)> {
    if |s| < w then None else Some((FromLittleEndian(s[..w]), s[w..]))
  }

  function TakeText(s: bytes): Option<(bytes, bytes)> {
    match TakeUnsigned(2, s)
    case None => None
    case Some((n, rest)) => if |rest| < n then None else Some((rest[..n], rest[n..]))
  }

  /** `std::map::insert`: an entry already there stays. */
  function InsertEntry(es: seq<Entry>, e: Entry): seq<Entry> {
    if es == [] || e.key < es[0].key then [e] + es
    else if e.key == es[0].key then es
    else [es[0]] + InsertEntry(es[1..], e)
  }

  function Decode(t: Type, s: bytes): Option<(Value, bytes)>
    decreases t, 0
  {
    match t
    case Unsigned(w) =>
      (match TakeUnsigned(w, s)
       case None => None
       case Some((n, rest)) => Some((Number(n), rest)))
    case Signed(w) =>
      (match TakeUnsigned(w, s)
       case None => None
       case Some((n, rest)) => Some((Number(ToSigned(n, w)), rest)))
    case Text =>
      (match TakeText(s)
       case None => None
       case Some((chars, rest)) => Some((Chars(chars), rest)))
    case Vector(elem) =>
      (match TakeUnsigned(2, s)
       case None => None
       case Some((n, rest)) =>
         match DecodeItems([], elem, n, rest)
         case None => None
         case Some((items, u)) => Some((Items(items), u)))
    case Map(kw, elem) =>
      (match TakeUnsigned(2, s)
       case None => None
       case Some((n, rest)) =>
         match DecodeEntries([], kw, elem, n, rest)
         case None => None
         case Some((es, u)) => Some((Entries(es), u)))
    case Record(ts) =>
      match DecodeFields([], ts, s)
      case None => None
      case Some((vs, rest)) => Some((Fields(vs), rest))
  }

  /** `n` more items after those in `done`. */
  function DecodeItems(done: seq<Value>, t: Type, n: nat, s: bytes): Option<(seq<Value>, bytes)>
    decreases t, 1 + n
  {
    if n == 0 then Some((done, s))
    else
      match Decode(t, s)
      case None => None
      case Some((v, rest)) => DecodeItems(done + [v], t, n - 1, rest)
  }

  function DecodeEntries(done: seq<Entry>, kw: width, t: Type, n: nat, s: bytes): Option<(seq<Entry>, bytes)>
    decreases t, 1 + n
  {
    if n == 0 then Some((done, s))
    else
      match TakeUnsigned(kw, s)
      case None => None
      case Some((k, u)) =>
        match Decode(t, u)
        case None => None
        case Some((v, rest)) => DecodeEntries(InsertEntry(done, Entry(k, v)), kw, t, n - 1, rest)
  }

  function DecodeFields(done: seq<Value>, ts: seq<Type>, s: bytes): Option<(seq<Value>, bytes)>
    decreases ts
  {
    if ts == [] then Some((done, s))
    else
      match Decode(ts[0], s)
      case None => None
      case Some((v, rest)) => DecodeFields(done + [v], ts[1..], rest)
  }

  // ----- the round trip

  lemma TakeBack(n: nat, w: nat, rest: bytes)
    requires n < Span(w)
    ensures TakeUnsigned(w, LittleEndian(n, w) + rest) == Some((n, rest))
  {
    var s := LittleEndian(n, w) + rest;
    LittleEndianInverts(n, w);
    assert s[..w] == LittleEndian(n, w) && s[w..] == rest;
  }

  lemma CountBack(n: nat, rest: bytes)
    requires n < COUNTS
    ensures TakeUnsigned(2, Count(n) + rest) == Some((n, rest))
  {
    assert Span(2) == COUNTS;
    TakeBack(n, 2, rest);
  }

  lemma UnsignedBack(n: int, w: width)
    requires 0 <= n < Span(w)
    ensures ToUnsigned(n, w) == n
  {
    hide Span;
    RemainderOf(0, Span(w), n);
  }

  lemma SignBack(n: int, w: width)
    requires -Span(w) <= 2 * n < Span(w)
    ensures ToUnsigned(n, w) < Span(w) && ToSigned(ToUnsigned(n, w), w) == n
  {
    hide Span;
    if n < 0 {
      WrapNegative(n, Span(w));
    } else {
      RemainderOf(0, Span(w), n);
    }
  }

  lemma {:induction false} InsertEntryLast(es: seq<Entry>, e: Entry)
    requires forall k :: 0 <= k < |es| ==> es[k].key < e.key
    ensures InsertEntry(es, e) == es + [e]
  {
    if es != [] {
      InsertEntryLast(es[1..], e);
      assert es == [es[0]] + es[1..];
    }
  }

  lemma NumberBack(n: int, t: Type, rest: bytes)
    requires InRange(n, t)
    ensures Decode(t, Encode(Number(n), t) + rest) == Some((Number(n), rest))
  {
    hide Span, TakeUnsigned, ToUnsigned, ToSigned;
    if t.Signed? { SignBack(n, t.w); } else { UnsignedBack(n, t.w); }
    TakeBack(ToUnsigned(n, t.w), t.w, rest);
  }

  /** Popping returns what was pushed and leaves what came after it. */
  lemma {:induction false} DecodeEncode(v: Value, t: Type, rest: bytes)
    requires Typed(v, t) && Short(v)
    ensures Decode(t, Encode(v, t) + rest) == Some((v, rest))
    decreases v
  {
    hide TakeUnsigned, Count, Span, EncodeItems, DecodeItems, EncodeEntries, DecodeEntries, TypedItems, TypedEntries;
    match v
    case Number(n) => NumberBack(n, t, rest);
    case Chars(s) =>
      assert Encode(v, t) + rest == Count(|s|) + (s + rest);
      CountBack(|s|, s + rest);
      assert (s + rest)[..|s|] == s && (s + rest)[|s|..] == rest;
    case Items(items) =>
      var body := EncodeItems(items, |items|, t.elem);
      assert Encode(v, t) + rest == Count(|items|) + (body + rest);
      CountBack(|items|, body + rest);
      DecodeEncodeItems([], items, t.elem, rest);
      assert [] + items == items;
    case Entries(es) =>
      var body := EncodeEntries(es, t.kw, t.elem);
      assert Encode(v, t) + rest == Count(|es|) + (body + rest);
      CountBack(|es|, body + rest);
      DecodeEncodeEntries([], es, t.kw, t.elem, rest);
      assert [] + es == es;
    case Fields(vs) =>
      DecodeEncodeFields([], vs, t.fields, rest);
      assert [] + vs == vs;
  }

  lemma {:induction false} DecodeEncodeItems(done: seq<Value>, vs: seq<Value>, t: Type, rest: bytes)
    requires TypedItems(vs, t) && ShortItems(vs)
    ensures DecodeItems(done, t, |vs|, EncodeItems(vs, |vs|, t) + rest) == Some((done + vs, rest))
    decreases vs
  {
    if vs == [] {
      assert [] + rest == rest && done + vs == done;
    } else {
      var tail := EncodeItems(vs[1..], |vs| - 1, t) + rest;
      assert EncodeItems(vs, |vs|, t) + rest == Encode(vs[0], t) + tail;
      DecodeEncode(vs[0], t, tail);
      DecodeEncodeItems(done + [vs[0]], vs[1..], t, rest);
      assert done + [vs[0]] + vs[1..] == done + vs;
    }
  }

  lemma EntryText(es: seq<Entry>, kw: width, t: Type, rest: bytes)
    requires es != []
    ensures EncodeEntries(es, kw, t) + rest
            == LittleEndian(ToUnsigned(es[0].key, kw), kw)
               + (Encode(es[0].value, t) + (EncodeEntries(es[1..], kw, t) + rest))
  {
    hide Encode, LittleEndian, ToUnsigned;
  }

  lemma EntryIsNext(done: seq<Entry>, es: seq<Entry>)
    requires es != [] && Increasing(done + es)
    ensures InsertEntry(done, es[0]) == done + [es[0]]
  {
    forall k | 0 <= k < |done| ensures done[k].key < es[0].key {
      assert (done + es)[k] == done[k] && (done + es)[|done|] == es[0];
    }
    InsertEntryLast(done, es[0]);
  }

  lemma {:induction false} DecodeEncodeEntries(done: seq<Entry>, es: seq<Entry>, kw: width, t: Type, rest: bytes)
    requires TypedEntries(es, kw, t) && ShortEntries(es) && Increasing(done + es)
    ensures DecodeEntries(done, kw, t, |es|, EncodeEntries(es, kw, t) + rest) == Some((done + es, rest))
    decreases es
  {
    hide Encode, Decode, TakeUnsigned, Typed, LittleEndian, ToUnsigned, Span, InsertEntry;
    if es == [] {
      assert [] + rest == rest && done + es == done;
    } else {
      var Entry(key, value) := es[0];
      var tail := EncodeEntries(es[1..], kw, t) + rest;
      UnsignedBack(key, kw);
      EntryText(es, kw, t, rest);
      TakeBack(key, kw, Encode(value, t) + tail);
      assert es decreases to es[0];
      DecodeEncode(value, t, tail);
      EntryIsNext(done, es);
      assert done + [es[0]] + es[1..] == done + es;
      DecodeEncodeEntries(done + [es[0]], es[1..], kw, t, rest);
    }
  }

  lemma {:induction false} DecodeEncodeFields(done: seq<Value>, vs: seq<Value>, ts: seq<Type>, rest: bytes)
    requires TypedFields(vs, ts) && ShortItems(vs)
    ensures DecodeFields(done, ts, EncodeFields(vs, ts) + rest) == Some((done + vs, rest))
    decreases vs
  {
    if vs == [] {
      assert [] + rest == rest && done + vs == done;
    } else {
      var tail := EncodeFields(vs[1..], ts[1..]) + rest;
      assert EncodeFields(vs, ts) + rest == Encode(vs[0], ts[0]) + tail;
      DecodeEncode(vs[0], ts[0], tail);
      DecodeEncodeFields(done + [vs[0]], vs[1..], ts[1..], rest);
      assert done + [vs[0]] + vs[1..] == done + vs;
    }
  }

  // ----- what is read is well formed

  lemma {:induction false} FromLittleEndianFits(s: bytes)
    ensures FromLittleEndian(s) < Span(|s|)
  {
    if s != [] {
      FromLittleEndianFits(s[1..]);
    }
  }

  lemma SignFits(n: nat, w: width)
    requires n < Span(w)
    ensures -Span(w) <= 2 * ToSigned(n, w) < Span(w)
  {
    hide Span;
  }

  lemma IncreasingCons(e: Entry, es: seq<Entry>)
    requires Increasing(es) && forall k :: 0 <= k < |es| ==> e.key < es[k].key
    ensures Increasing([e] + es)
  {
    var r := [e] + es;
    forall i, j | 0 <= i < j < |r| ensures r[i].key < r[j].key {
      assert r[j] == es[j - 1] && (i > 0 ==> r[i] == es[i - 1]);
    }
  }

  lemma {:induction false} InsertEntryKeeps(es: seq<Entry>, e: Entry, kw: width, t: Type)
    requires TypedEntries(es, kw, t) && Increasing(es)
    requires 0 <= e.key < Span(kw) && Typed(e.value, t)
    ensures TypedEntries(InsertEntry(es, e), kw, t) && Increasing(InsertEntry(es, e))
    ensures forall k :: 0 <= k < |InsertEntry(es, e)| ==> InsertEntry(es, e)[k] == e || InsertEntry(es, e)[k] in es
  {
    hide Typed, Span;
    if es == [] || e.key < es[0].key {
      IncreasingCons(e, es);
      assert InsertEntry(es, e)[1..] == es;
    } else if e.key > es[0].key {
      InsertEntryKeeps(es[1..], e, kw, t);
      var tail := InsertEntry(es[1..], e);
      assert InsertEntry(es, e)[1..] == tail;
      IncreasingCons(es[0], tail);
    }
  }

  /** Whatever the bytes, what is popped is a value of the type. */
  lemma {:induction false} DecodeTyped(t: Type, s: bytes)
    ensures Decode(t, s).Some? ==> Typed(Decode(t, s).value.0, t)
    decreases t, 0
  {
    hide Span;
    match t
    case Unsigned(w) =>
      if |s| >= w { FromLittleEndianFits(s[..w]); }
    case Signed(w) =>
      if |s| >= w {
        FromLittleEndianFits(s[..w]);
        SignFits(FromLittleEndian(s[..w]), w);
      }
    case Text =>
    case Vector(elem) =>
      if |s| >= 2 { DecodeItemsTyped([], elem, FromLittleEndian(s[..2]), s[2..]); }
    case Map(kw, elem) =>
      if |s| >= 2 { DecodeEntriesTyped([], kw, elem, FromLittleEndian(s[..2]), s[2..]); }
    case Record(ts) =>
      DecodeFieldsTyped([], [], ts, s);
      assert [] + ts == ts;
  }

  lemma {:induction false} TypedItemsLast(vs: seq<Value>, v: Value, t: Type)
    requires TypedItems(vs, t) && Typed(v, t)
    ensures TypedItems(vs + [v], t)
  {
    hide Typed;
    if vs != [] {
      TypedItemsLast(vs[1..], v, t);
      assert (vs + [v])[1..] == vs[1..] + [v];
    }
  }

  lemma {:induction false} TypedFieldsLast(vs: seq<Value>, v: Value, ts: seq<Type>, t: Type)
    requires TypedFields(vs, ts) && Typed(v, t)
    ensures TypedFields(vs + [v], ts + [t])
  {
    hide Typed;
    if vs != [] {
      TypedFieldsLast(vs[1..], v, ts[1..], t);
      assert (vs + [v])[1..] == vs[1..] + [v] && (ts + [t])[1..] == ts[1..] + [t];
    }
  }

  lemma {:induction false} DecodeItemsTyped(done: seq<Value>, t: Type, n: nat, s: bytes)
    requires TypedItems(done, t)
    ensures DecodeItems(done, t, n, s).Some? ==> TypedItems(DecodeItems(done, t, n, s).value.0, t)
    decreases t, 1 + n
  {
    hide Typed;
    if n > 0 {
      DecodeTyped(t, s);
      match Decode(t, s) {
        case None =>
        case Some((v, rest)) =>
          TypedItemsLast(done, v, t);
          DecodeItemsTyped(done + [v], t, n - 1, rest);
      }
    }
  }

  lemma {:induction false} DecodeEntriesTyped(done: seq<Entry>, kw: width, t: Type, n: nat, s: bytes)
    requires TypedEntries(done, kw, t) && Increasing(done)
    ensures var r := DecodeEntries(done, kw, t, n, s);
            r.Some? ==> TypedEntries(r.value.0, kw, t) && Increasing(r.value.0)
    decreases t, 1 + n
  {
    hide Typed, Span, TypedEntries, Increasing, InsertEntry;
    if n > 0 && |s| >= kw {
      FromLittleEndianFits(s[..kw]);
      DecodeTyped(t, s[kw..]);
      match Decode(t, s[kw..]) {
        case None =>
        case Some((v, rest)) =>
          var e := Entry(FromLittleEndian(s[..kw]), v);
          InsertEntryKeeps(done, e, kw, t);
          DecodeEntriesTyped(InsertEntry(done, e), kw, t, n - 1, rest);
      }
    }
  }

  lemma {:induction false} DecodeFieldsTyped(done: seq<Value>, before: seq<Type>, ts: seq<Type>, s: bytes)
    requires TypedFields(done, before)
    ensures DecodeFields(done, ts, s).Some? ==> TypedFields(DecodeFields(done, ts, s).value.0, before + ts)
    decreases ts, 0
  {
    hide Typed;
    if ts == [] {
      assert before + ts == before;
    } else {
      assert ts decreases to ts[0];
      DecodeTyped(ts[0], s);
      match Decode(ts[0], s) {
        case None =>
        case Some((v, rest)) =>
          TypedFieldsLast(done, v, before, ts[0]);
          DecodeFieldsTyped(done + [v], before + [ts[0]], ts[1..], rest);
          assert before + [ts[0]] + ts[1..] == before + ts;
      }
    }
  }

  /** Equal bytes, equal values. */
  lemma EncodeInjective(v: Value, w: Value, t: Type)
    requires Typed(v, t) && Typed(w, t) && Short(v) && Short(w) && Encode(v, t) == Encode(w, t)
    ensures v == w
  {
    DecodeEncode(v, t, []);
    DecodeEncode(w, t, []);
  }
}
