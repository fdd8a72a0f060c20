/** The packer over its growing buffer, and the unpacker over a finished one. */
module Packer {
  import opened Bytes
  import opened Wire

  const BUFFER_SIZE := 1024
  const BUFFER_MAX := 0x1_0000

  /** The sizes of the separate pushes that writing `v` makes. */
  function Sizes(v: Value, t: Type): seq<nat>
    decreases v
  {
    match (v, t)
    case (Number(n), _) => [|NumberBytes(n, t)|]
    case (Chars(s), _) => [2, |s|]
    case (Items(items), Vector(elem)) => [2] + ItemSizes(items, |items| % COUNTS, elem)
    case (Entries(es), Map(kw, elem)) => [2] + EntrySizes(es, kw, elem)
    case (Fields(vs), Record(ts)) => FieldSizes(vs, ts)
    case (_, _) => []
  }

  function ItemSizes(vs: seq<Value>, n: nat, t: Type): seq<nat>
    decreases vs
  {
    if vs == [] || n == 0 then [] else Sizes(vs[0], t) + ItemSizes(vs[1..], n - 1, t)
  }

  function EntrySizes(es: seq<Entry>, kw: width, t: Type): seq<nat>
    decreases es
  {
    if es == [] then []
    else
      assert es decreases to es[0];
      [kw] + (Sizes(es[0].value, t) + EntrySizes(es[1..], kw, t))
  }

  function FieldSizes(vs: seq<Value>, ts: seq<Type>): seq<nat>
    decreases vs
  {
    if vs == [] || ts == [] then [] else Sizes(vs[0], ts[0]) + FieldSizes(vs[1..], ts[1..])
  }

  function Total(sizes: seq<nat>): nat {
    if sizes == [] then 0 else sizes[0] + Total(sizes[1..])
  }

  lemma {:induction false} TotalSplits(a: seq<nat>, b: seq<nat>)
    ensures Total(a + b) == Total(a) + Total(b)
  {
    if a == [] {
      assert a + b == b;
    } else {
      TotalSplits(a[1..], b);
      assert (a + b)[1..] == a[1..] + b;
    }
  }

  /** The pushes of a value add up to its encoding. */
  lemma {:induction false} SizesAddUp(v: Value, t: Type)
    ensures Total(Sizes(v, t)) == |Encode(v, t)|
    decreases v
  {
    match (v, t)
    case (Chars(s), _) => TotalSplits([2], [|s|]);
    case (Items(items), Vector(elem)) =>
      ItemSizesAddUp(items, |items| % COUNTS, elem);
      TotalSplits([2], ItemSizes(items, |items| % COUNTS, elem));
    case (Entries(es), Map(kw, elem)) =>
      EntrySizesAddUp(es, kw, elem);
      TotalSplits([2], EntrySizes(es, kw, elem));
    case (Fields(vs), Record(ts)) => FieldSizesAddUp(vs, ts);
    case (_, _) =>
  }

  lemma {:induction false} ItemSizesAddUp(vs: seq<Value>, n: nat, t: Type)
    ensures Total(ItemSizes(vs, n, t)) == |EncodeItems(vs, n, t)|
    decreases vs
  {
    if vs != [] && n > 0 {
      SizesAddUp(vs[0], t);
      ItemSizesAddUp(vs[1..], n - 1, t);
      TotalSplits(Sizes(vs[0], t), ItemSizes(vs[1..], n - 1, t));
    }
  }

  lemma {:induction false} EntrySizesAddUp(es: seq<Entry>, kw: width, t: Type)
    ensures Total(EntrySizes(es, kw, t)) == |EncodeEntries(es, kw, t)|
    decreases es
  {
    if es != [] {
      assert es decreases to es[0];
      SizesAddUp(es[0].value, t);
      EntrySizesAddUp(es[1..], kw, t);
      TotalSplits(Sizes(es[0].value, t), EntrySizes(es[1..], kw, t));
      TotalSplits([kw], Sizes(es[0].value, t) + EntrySizes(es[1..], kw, t));
    }
  }

  lemma {:induction false} FieldSizesAddUp(vs: seq<Value>, ts: seq<Type>)
    ensures Total(FieldSizes(vs, ts)) == |EncodeFields(vs, ts)|
    decreases vs
  {
    if vs != [] && ts != [] {
      SizesAddUp(vs[0], ts[0]);
      FieldSizesAddUp(vs[1..], ts[1..]);
      TotalSplits(Sizes(vs[0], ts[0]), FieldSizes(vs[1..], ts[1..]));
    }
  }

  function EntryBytes(e: Entry, kw: width, t: Type): bytes {
    LittleEndian(ToUnsigned(e.key, kw), kw) + Encode(e.value, t)
  }

  /** One entry of a map, and the rest of the map. */
  lemma EntryStep(es: seq<Entry>, kw: width, t: Type)
    ensures EntrySizes(es, kw, t)
            == if es == [] then [] else ([kw] + Sizes(es[0].value, t)) + EntrySizes(es[1..], kw, t)
    ensures EncodeEntries(es, kw, t)
            == if es == [] then [] else EntryBytes(es[0], kw, t) + EncodeEntries(es[1..], kw, t)
    ensures es != [] && TypedEntries(es, kw, t) ==>
              0 <= es[0].key < Span(kw) && Typed(es[0].value, t) && TypedEntries(es[1..], kw, t)
  {
    hide Encode, Sizes, LittleEndian, ToUnsigned, Span;
  }

  /** One item of a vector, and the rest of the vector. */
  lemma ItemStep(vs: seq<Value>, n: nat, t: Type)
    ensures ItemSizes(vs, n, t)
            == if vs == [] || n == 0 then [] else Sizes(vs[0], t) + ItemSizes(vs[1..], n - 1, t)
    ensures EncodeItems(vs, n, t)
            == if vs == [] || n == 0 then [] else Encode(vs[0], t) + EncodeItems(vs[1..], n - 1, t)
    ensures vs != [] && TypedItems(vs, t) ==> Typed(vs[0], t) && TypedItems(vs[1..], t)
  {
    hide Encode, Sizes, Typed;
  }

  // ----- what becomes of the buffer

  /** How pushes end: with room left in a buffer, behind the cursor; with an `overflow_error`; with a `memcpy` past the
      end; with a 16-bit cursor that wrapped. */
  datatype Ending = Room(cap: nat, pos: nat) | Thrown | PastTheEnd | Wrapped

  /** `check_size`: one growth by four per push, up to the maximum. */
  function Grown(cap: nat, pos: nat, more: nat): Option<nat>
    requires pos <= cap
  {
    if cap - pos < more then
      if cap * 4 > BUFFER_MAX then None else Some(cap * 4)
    else Some(cap)
  }

  function AfterPush(r: Ending, size: nat): Ending
    requires r.Room? ==> r.pos <= r.cap
  {
    if !r.Room? then r
    else
      match Grown(r.cap, r.pos, size)
      case None => Thrown
      case Some(cap) =>
        if r.pos + size > cap then PastTheEnd
        else if r.pos + size >= COUNTS then Wrapped
        else Room(cap, r.pos + size)
  }

  function AfterPushes(r: Ending, sizes: seq<nat>): (q: Ending)
    requires r.Room? ==> r.pos <= r.cap
    ensures q.Room? ==> q.pos <= q.cap
    decreases |sizes|
  {
    if sizes == [] then r else AfterPushes(AfterPush(r, sizes[0]), sizes[1..])
  }

  lemma {:induction false} PushesSplit(r: Ending, a: seq<nat>, b: seq<nat>)
    requires r.Room? ==> r.pos <= r.cap
    ensures AfterPushes(r, a + b) == AfterPushes(AfterPushes(r, a), b)
    decreases |a|
  {
    if a == [] {
      assert a + b == b;
    } else {
      PushesSplit(AfterPush(r, a[0]), a[1..], b);
      assert (a + b)[1..] == a[1..] + b;
    }
  }

  lemma {:induction false} StaysBroken(r: Ending, sizes: seq<nat>)
    requires !r.Room?
    ensures AfterPushes(r, sizes) == r
    decreases |sizes|
  {
    if sizes != [] {
      StaysBroken(r, sizes[1..]);
    }
  }

  /** A sequence of pushes in two parts: if the first part is no success, neither is the whole. */
  lemma PushInParts(r: Ending, a: seq<nat>, b: seq<nat>)
    requires r.Room? ==> r.pos <= r.cap
    ensures AfterPushes(r, a + b)
            == if AfterPushes(r, a).Room? then AfterPushes(AfterPushes(r, a), b) else AfterPushes(r, a)
  {
    PushesSplit(r, a, b);
    if !AfterPushes(r, a).Room? {
      StaysBroken(AfterPushes(r, a), b);
    }
  }

  lemma OnePush(r: Ending, size: nat)
    requires r.Room? ==> r.pos <= r.cap
    ensures AfterPushes(r, [size]) == AfterPush(r, size)
    ensures AfterPushes(r, []) == r
  {
    assert [size][1..] == [];
  }

  /** Pushes that went well moved the cursor by what they wrote. */
  lemma {:induction false} PushesMove(r: Ending, sizes: seq<nat>)
    requires r.Room? && r.pos <= r.cap && AfterPushes(r, sizes).Room?
    ensures AfterPushes(r, sizes).pos == r.pos + Total(sizes)
    decreases |sizes|
  {
    if sizes != [] {
      if !AfterPush(r, sizes[0]).Room? {
        StaysBroken(AfterPush(r, sizes[0]), sizes[1..]);
      }
      PushesMove(AfterPush(r, sizes[0]), sizes[1..]);
    }
  }

  predicate IsBufferSize(cap: nat) {
    cap == BUFFER_SIZE || cap == 4 * BUFFER_SIZE || cap == 16 * BUFFER_SIZE || cap == 64 * BUFFER_SIZE
  }

  /** Single pushes of at most 3072 bytes always find room, as long as the cursor does not leave 16 bits. */
  lemma {:induction false} SmallPushesFit(r: Ending, sizes: seq<nat>)
    requires r.Room? && r.pos <= r.cap && IsBufferSize(r.cap)
    requires forall k :: 0 <= k < |sizes| ==> sizes[k] <= 3 * BUFFER_SIZE
    requires r.pos + Total(sizes) < COUNTS
    ensures AfterPushes(r, sizes).Room?
    decreases |sizes|
  {
    if sizes != [] {
      SmallPushesFit(AfterPush(r, sizes[0]), sizes[1..]);
    }
  }

  /** So do pushes of any size that stay within the first growth. */
  lemma {:induction false} FirstGrowthFits(r: Ending, sizes: seq<nat>)
    requires r.Room? && r.pos <= r.cap && (r.cap == BUFFER_SIZE || r.cap == 4 * BUFFER_SIZE)
    requires r.pos + Total(sizes) <= 4 * BUFFER_SIZE
    ensures AfterPushes(r, sizes).Room?
    decreases |sizes|
  {
    if sizes != [] {
      FirstGrowthFits(AfterPush(r, sizes[0]), sizes[1..]);
    }
  }

  const FRESH := Room(BUFFER_SIZE, 2)

  /** A single string finds room in a fresh packer exactly up to 4092 bytes; a longer one is copied past the end. */
  lemma StringFits(s: bytes)
    ensures AfterPushes(FRESH, Sizes(Chars(s), Text)).Room? <==> |s| <= 4 * BUFFER_SIZE - 4
    ensures |s| > 4 * BUFFER_SIZE - 4 ==> AfterPushes(FRESH, Sizes(Chars(s), Text)) == PastTheEnd
  {
    assert AfterPush(FRESH, 2) == Room(BUFFER_SIZE, 4);
    assert [2, |s|][1..] == [|s|];
    assert AfterPushes(FRESH, [2, |s|]) == AfterPushes(Room(BUFFER_SIZE, 4), [|s|]);
    assert [|s|][1..] == [];
  }

  class Packer {
    var buffer: bytes
    var length: nat
    var position: nat

    constructor ()
      ensures Valid() && |buffer| == BUFFER_SIZE && position == 2 && length == 0
    {
      buffer, length, position := seq(BUFFER_SIZE, _ => NUL), 0, 2;
    }

    ghost predicate Valid()
      reads this
    {
      2 <= position <= |buffer| && position < COUNTS && length < COUNTS
    }

    ghost function State(): Ending
      reads this
    {
      Room(|buffer|, position)
    }

    /** Everything in front of the cursor. */
    ghost function Written(): bytes
      reads this
      requires Valid()
    {
      buffer[..position]
    }

    method CheckSize(more: nat) returns (ok: bool)
      requires Valid()
      modifies `buffer
      ensures Valid() && ok == Grown(old(|buffer|), position, more).Some?
      ensures !ok ==> buffer == old(buffer)
      ensures ok ==> Some(|buffer|) == Grown(old(|buffer|), position, more) && old(buffer) <= buffer
    {
      if |buffer| - position < more {
        var newSize := |buffer| * 4;
        if newSize > BUFFER_MAX {
          return false;
        }
        buffer := buffer + seq(newSize - |buffer|, _ => NUL);
      }
      return true;
    }

    /** One push. Where the sources copy past the end of the buffer, or their cursor wraps to a smaller value, the model
        stops and says so. */
    method PushBytes(data: bytes) returns (end: Ending)
      requires Valid()
      modifies this
      ensures Valid() && length == old(length)
      ensures end == AfterPush(old(State()), |data|)
      ensures end.Room? ==> State() == end && Written() == old(Written()) + data
    {
      var ok := CheckSize(|data|);
      if !ok {
        return Thrown;
      }
      if position + |data| > |buffer| {
        return PastTheEnd;
      }
      if position + |data| >= COUNTS {
        return Wrapped;
      }
      buffer := buffer[..position] + data + buffer[position + |data|..];
      position := position + |data|;
      return Room(|buffer|, position);
    }

    /** `push(const std::string &)`: the length, then the characters. */
    method PushText(s: bytes) returns (end: Ending)
      requires Valid()
      modifies this
      ensures Valid() && length == old(length)
      ensures end == AfterPushes(old(State()), Sizes(Chars(s), Text))
      ensures end.Room? ==> State() == end && Written() == old(Written()) + Encode(Chars(s), Text)
    {
      assert Sizes(Chars(s), Text) == [2] + [|s|];
      PushInParts(State(), [2], [|s|]);
      OnePush(State(), 2);
      end := PushBytes(Count(|s|));
      if !end.Room? {
        return;
      }
      OnePush(State(), |s|);
      ghost var w := Written();
      end := PushBytes(s);
      assert end.Room? ==> Written() == old(Written()) + (Count(|s|) + s);
    }

    /** The stream operators, `operator<<`. */
    method Push(v: Value, t: Type) returns (end: Ending)
      requires Typed(v, t) && Valid()
      modifies this
      ensures Valid() && length == old(length)
      ensures end == AfterPushes(old(State()), Sizes(v, t))
      ensures end.Room? ==> State() == end && Written() == old(Written()) + Encode(v, t)
      decreases v
    {
      match v
      case Number(n) =>
        OnePush(State(), |NumberBytes(n, t)|);
        end := PushBytes(NumberBytes(n, t));
      case Chars(s) => end := PushText(s);
      case Items(items) => end := PushItems(items, t.elem);
      case Entries(es) => end := PushEntries(es, t.kw, t.elem);
      case Fields(vs) => end := PushFields(vs, t.fields);
    }

    /** The first of the items still to come: what it leaves is to write the others. */
    method PushNextItem(items: seq<Value>, i: nat, count: nat, t: Type) returns (end: Ending)
      requires i < count <= |items| && TypedItems(items[i..], t) && Valid()
      modifies this
      ensures Valid() && length == old(length) && TypedItems(items[i + 1..], t)
      ensures !end.Room? ==> AfterPushes(old(State()), ItemSizes(items[i..], count - i, t)) == end
      ensures end.Room? ==>
                && State() == end
                && AfterPushes(end, ItemSizes(items[i + 1..], count - i - 1, t))
                   == AfterPushes(old(State()), ItemSizes(items[i..], count - i, t))
                && Written() + EncodeItems(items[i + 1..], count - i - 1, t)
                   == old(Written()) + EncodeItems(items[i..], count - i, t)
      decreases items, 0
    {
      hide AfterPushes, AfterPush, Sizes, Encode, Typed, ItemSizes, EncodeItems, TypedItems;
      ghost var rest, before := items[i..], Written();
      assert rest[0] == items[i] && rest[1..] == items[i + 1..];
      ItemStep(rest, count - i, t);
      PushInParts(State(), Sizes(rest[0], t), ItemSizes(rest[1..], count - i - 1, t));
      end := Push(items[i], t);
      if end.Room? {
        assert before + (Encode(rest[0], t) + EncodeItems(rest[1..], count - i - 1, t))
            == Written() + EncodeItems(rest[1..], count - i - 1, t);
      }
    }

    method PushItems(items: seq<Value>, t: Type) returns (end: Ending)
      requires TypedItems(items, t) && Valid()
      modifies this
      ensures Valid() && length == old(length)
      ensures end == AfterPushes(old(State()), [2] + ItemSizes(items, |items| % COUNTS, t))
      ensures end.Room? ==>
                && State() == end
                && Written() == old(Written()) + (Count(|items|) + EncodeItems(items, |items| % COUNTS, t))
      decreases items, 1
    {
      hide AfterPushes, AfterPush, Count, ItemSizes, EncodeItems, TypedItems, Written;
      var count: nat := |items| % COUNTS;
      assert count <= |items|;
      ghost var goal := AfterPushes(State(), [2] + ItemSizes(items, count, t));
      ghost var text := Written() + (Count(|items|) + EncodeItems(items, count, t));
      PushInParts(State(), [2], ItemSizes(items, count, t));
      OnePush(State(), 2);
      end := PushBytes(Count(|items|));
      if !end.Room? {
        return;
      }
      var i := 0;
      assert items[0..] == items;
      while i < count
        invariant end == State() && 0 <= i <= count <= |items| && Valid() && length == old(length)
        invariant TypedItems(items[i..], t)
        invariant AfterPushes(State(), ItemSizes(items[i..], count - i, t)) == goal
        invariant Written() + EncodeItems(items[i..], count - i, t) == text
      {
        end := PushNextItem(items, i, count, t);
        if !end.Room? {
          return;
        }
        i := i + 1;
      }
      ItemStep(items[i..], 0, t);
      OnePush(State(), 0);
      assert Written() + [] == Written();
    }

    /** `operator<<` of a `std::pair` */
    method PushEntry(e: Entry, kw: width, t: Type) returns (end: Ending)
      requires 0 <= e.key < Span(kw) && Typed(e.value, t) && Valid()
      modifies this
      ensures Valid() && length == old(length)
      ensures end == AfterPushes(old(State()), [kw] + Sizes(e.value, t))
      ensures end.Room? ==> State() == end && Written() == old(Written()) + EntryBytes(e, kw, t)
      decreases e
    {
      PushInParts(State(), [kw], Sizes(e.value, t));
      OnePush(State(), kw);
      ghost var key := LittleEndian(ToUnsigned(e.key, kw), kw);
      end := PushBytes(LittleEndian(ToUnsigned(e.key, kw), kw));
      if end.Room? {
        end := Push(e.value, t);
        assert end.Room? ==> Written() == old(Written()) + key + Encode(e.value, t);
      }
    }

    /** The first of the entries still to come: what it leaves is to write the others. */
    method PushNextEntry(es: seq<Entry>, i: nat, kw: width, t: Type) returns (end: Ending)
      requires i < |es| && TypedEntries(es[i..], kw, t) && Valid()
      modifies this
      ensures Valid() && length == old(length) && TypedEntries(es[i + 1..], kw, t)
      ensures !end.Room? ==> AfterPushes(old(State()), EntrySizes(es[i..], kw, t)) == end
      ensures end.Room? ==>
                && State() == end
                && AfterPushes(end, EntrySizes(es[i + 1..], kw, t))
                   == AfterPushes(old(State()), EntrySizes(es[i..], kw, t))
                && Written() + EncodeEntries(es[i + 1..], kw, t) == old(Written()) + EncodeEntries(es[i..], kw, t)
      decreases es, 0
    {
      hide AfterPushes, AfterPush, Sizes, Encode, Typed, EntrySizes, EncodeEntries, EntryBytes, TypedEntries, Span;
      ghost var rest, before := es[i..], Written();
      assert rest[0] == es[i] && rest[1..] == es[i + 1..];
      assert es decreases to es[i];
      EntryStep(rest, kw, t);
      PushInParts(State(), [kw] + Sizes(rest[0].value, t), EntrySizes(rest[1..], kw, t));
      end := PushEntry(es[i], kw, t);
      if end.Room? {
        assert before + (EntryBytes(rest[0], kw, t) + EncodeEntries(rest[1..], kw, t))
            == Written() + EncodeEntries(rest[1..], kw, t);
      }
    }

    /** The count is cut to 16 bits, but every entry is written. */
    method PushEntries(es: seq<Entry>, kw: width, t: Type) returns (end: Ending)
      requires TypedEntries(es, kw, t) && Valid()
      modifies this
      ensures Valid() && length == old(length)
      ensures end == AfterPushes(old(State()), [2] + EntrySizes(es, kw, t))
      ensures end.Room? ==> State() == end && Written() == old(Written()) + (Count(|es|) + EncodeEntries(es, kw, t))
      decreases es, 1
    {
      hide AfterPushes, AfterPush, Count, EntrySizes, EncodeEntries, TypedEntries, Written;
      ghost var goal := AfterPushes(State(), [2] + EntrySizes(es, kw, t));
      ghost var text := Written() + (Count(|es|) + EncodeEntries(es, kw, t));
      PushInParts(State(), [2], EntrySizes(es, kw, t));
      OnePush(State(), 2);
      end := PushBytes(Count(|es|));
      if !end.Room? {
        return;
      }
      var i := 0;
      assert es[0..] == es;
      while i < |es|
        invariant end == State() && 0 <= i <= |es| && Valid() && length == old(length)
        invariant TypedEntries(es[i..], kw, t)
        invariant AfterPushes(State(), EntrySizes(es[i..], kw, t)) == goal
        invariant Written() + EncodeEntries(es[i..], kw, t) == text
      {
        end := PushNextEntry(es, i, kw, t);
        if !end.Room? {
          return;
        }
        i := i + 1;
      }
      EntryStep(es[i..], kw, t);
      OnePush(State(), 0);
      assert Written() + [] == Written();
    }

    /** Fields one after another; a record's own operator. */
    method PushFields(vs: seq<Value>, ts: seq<Type>) returns (end: Ending)
      requires TypedFields(vs, ts) && Valid()
      modifies this
      ensures Valid() && length == old(length)
      ensures end == AfterPushes(old(State()), FieldSizes(vs, ts))
      ensures end.Room? ==> State() == end && Written() == old(Written()) + EncodeFields(vs, ts)
      decreases vs
    {
      hide AfterPushes, AfterPush, Sizes, Encode, Typed, Written;
      OnePush(State(), 0);
      end := Room(|buffer|, position);
      if vs != [] {
        ghost var w, rest := Written(), EncodeFields(vs[1..], ts[1..]);
        assert w + (Encode(vs[0], ts[0]) + rest) == w + Encode(vs[0], ts[0]) + rest;
        PushInParts(State(), Sizes(vs[0], ts[0]), FieldSizes(vs[1..], ts[1..]));
        end := Push(vs[0], ts[0]);
        if end.Room? {
          end := PushFields(vs[1..], ts[1..]);
        }
      }
    }

    /** The two bytes in front hold the length of everything in front of the cursor. */
    ghost predicate IsPacked()
      reads this
    {
      Valid() && length == position && Written()[..2] == LittleEndian(length, 2)
    }

    /** The total goes into the two bytes left free in front. */
    method Pack()
      requires Valid()
      modifies this
      ensures IsPacked() && State() == old(State())
      ensures buffer[2..] == old(buffer)[2..]
    {
      length := position;
      buffer := LittleEndian(length, 2) + buffer[2..];
      position := length;
    }

    /** After `Pack`: what is left of everything written when the total in front is taken away. */
    method Body() returns (s: bytes)
      requires 2 <= length <= |buffer|
      ensures |s| == length - 2 && s <= buffer[2..]
      ensures IsPacked() ==> LittleEndian(2 + |s|, 2) + s == Written()
    {
      s := buffer[2..length];
      assert IsPacked() ==> Written() == Written()[..2] + Written()[2..];
    }
  }

  /** A result, or what stands in its way. */
  datatype Outcome<+T> = Done(value: T) | Failed(why: Ending)

  /** What `Pack` makes of a value. */
  function Packed(v: Value, t: Type): Outcome<bytes> {
    var end := AfterPushes(FRESH, Sizes(v, t));
    if end.Room? then Done(Encode(v, t)) else Failed(end)
  }

  /** The free function `Pack`. */
  method PackValue(v: Value, t: Type) returns (r: Outcome<bytes>)
    requires Typed(v, t)
    ensures r == Packed(v, t)
  {
    hide Sizes, Encode, Typed, AfterPushes, LittleEndian;
    var p := new Packer();
    assert p.State() == FRESH;
    ghost var front := p.Written();
    var end := p.Push(v, t);
    if !end.Room? {
      return Failed(end);
    }
    ghost var written := p.Written();
    p.Pack();
    var s := p.Body();
    assert s == written[2..] == (front + Encode(v, t))[2..] == Encode(v, t);
    return Done(s);
  }

  // ----- reading

  class Unpacker {
    const buffer: bytes
    const length: nat
    var position: nat

    /** The length is cut to 16 bits. */
    constructor (data: bytes)
      ensures Valid() && buffer == data && position == 0 && length == |data| % COUNTS
    {
      buffer, length, position := data, |data| % COUNTS, 0;
    }

    ghost predicate Valid()
      reads this
    {
      position <= length <= |buffer| && length < COUNTS
    }

    ghost function Rest(): bytes
      reads this
      requires Valid()
    {
      buffer[position..length]
    }

    method PopUnsigned(w: nat) returns (r: Option<nat>)
      requires Valid()
      modifies this
      ensures Valid()
      ensures r.None? ==> TakeUnsigned(w, old(Rest())).None?
      ensures r.Some? ==> TakeUnsigned(w, old(Rest())) == Some((r.value, Rest()))
    {
      if length - position < w {
        return None;
      }
      r := Some(FromLittleEndian(buffer[position..position + w]));
      assert Rest()[..w] == buffer[position..position + w] && Rest()[w..] == buffer[position + w..length];
      position := (position + w) % COUNTS;
    }

    method PopString() returns (r: Option<bytes>)
      requires Valid()
      modifies this
      ensures Valid()
      ensures r.None? ==> TakeText(old(Rest())).None?
      ensures r.Some? ==> TakeText(old(Rest())) == Some((r.value, Rest()))
    {
      hide TakeUnsigned;
      var n := PopUnsigned(2);
      if n.None? || length - position < n.value {
        return None;
      }
      r := Some(buffer[position..position + n.value]);
      assert Rest()[..n.value] == r.value && Rest()[n.value..] == buffer[position + n.value..length];
      position := (position + n.value) % COUNTS;
    }

    /** The stream operators, `operator>>`. */
    method Pop(t: Type) returns (r: Option<Value>)
      requires Valid()
      modifies this
      ensures Valid()
      ensures r.None? ==> Decode(t, old(Rest())).None?
      ensures r.Some? ==> Decode(t, old(Rest())) == Some((r.value, Rest()))
      decreases t, 0
    {
      hide TakeUnsigned, TakeText, Rest, Span;
      match t
      case Unsigned(w) =>
        var n := PopUnsigned(w);
        r := if n.None? then None else Some(Number(n.value));
      case Signed(w) =>
        var n := PopUnsigned(w);
        r := if n.None? then None else Some(Number(ToSigned(n.value, w)));
      case Text =>
        var s := PopString();
        r := if s.None? then None else Some(Chars(s.value));
      case Vector(elem) =>
        var items := PopItems(elem);
        r := if items.None? then None else Some(Items(items.value));
      case Map(kw, elem) =>
        var es := PopEntries(kw, elem);
        r := if es.None? then None else Some(Entries(es.value));
      case Record(ts) =>
        var vs := PopFields(ts);
        r := if vs.None? then None else Some(Fields(vs.value));
    }

    method PopItems(t: Type) returns (r: Option<seq<Value>>)
      requires Valid()
      modifies this
      ensures Valid()
      ensures r.None? ==> Decode(Vector(t), old(Rest())).None?
      ensures r.Some? ==> Decode(Vector(t), old(Rest())) == Some((Items(r.value), Rest()))
      decreases t, 1
    {
      hide TakeUnsigned, Rest;
      var count := PopUnsigned(2);
      if count.None? {
        return None;
      }
      ghost var all := DecodeItems([], t, count.value, Rest());
      var items: seq<Value> := [];
      for i := 0 to count.value
        invariant Valid() && DecodeItems(items, t, count.value - i, Rest()) == all
      {
        var v := Pop(t);
        if v.None? {
          return None;
        }
        items := items + [v.value];
      }
      return Some(items);
    }

    method PopEntries(kw: width, t: Type) returns (r: Option<seq<Entry>>)
      requires Valid()
      modifies this
      ensures Valid()
      ensures r.None? ==> Decode(Map(kw, t), old(Rest())).None?
      ensures r.Some? ==> Decode(Map(kw, t), old(Rest())) == Some((Entries(r.value), Rest()))
      decreases t, 1
    {
      hide TakeUnsigned, Rest, InsertEntry;
      var count := PopUnsigned(2);
      if count.None? {
        return None;
      }
      ghost var all := DecodeEntries([], kw, t, count.value, Rest());
      var es: seq<Entry> := [];
      for i := 0 to count.value
        invariant Valid() && DecodeEntries(es, kw, t, count.value - i, Rest()) == all
      {
        var k := PopUnsigned(kw);
        if k.None? {
          return None;
        }
        var v := Pop(t);
        if v.None? {
          return None;
        }
        es := InsertEntry(es, Entry(k.value, v.value));
      }
      return Some(es);
    }

    method PopFields(ts: seq<Type>) returns (r: Option<seq<Value>>)
      requires Valid()
      modifies this
      ensures Valid()
      ensures r.None? ==> DecodeFields([], ts, old(Rest())).None?
      ensures r.Some? ==> DecodeFields([], ts, old(Rest())) == Some((r.value, Rest()))
      decreases ts, 0
    {
      hide Decode, Rest;
      ghost var all := DecodeFields([], ts, Rest());
      var vs: seq<Value> := [];
      assert ts[0..] == ts;
      for i := 0 to |ts|
        invariant Valid() && DecodeFields(vs, ts[i..], Rest()) == all
      {
        assert ts[i..][0] == ts[i] && ts[i..][1..] == ts[i + 1..];
        assert ts decreases to ts[i];
        var v := Pop(ts[i]);
        if v.None? {
          return None;
        }
        vs := vs + [v.value];
      }
      return Some(vs);
    }
  }

  /** What `Unpack` reads from `data`, whose length is cut to 16 bits; `None` where it throws. */
  function Unpacked(t: Type, data: bytes): Option<Value> {
    match Decode(t, data[..|data| % COUNTS])
    case None => None
    case Some((v, _)) => Some(v)
  }

  /** The free function `Unpack`. */
  method UnpackValue(t: Type, data: bytes) returns (r: Option<Value>)
    ensures r == Unpacked(t, data)
  {
    hide Decode;
    var u := new Unpacker(data);
    assert u.Rest() == data[..|data| % COUNTS];
    r := u.Pop(t);
  }

  lemma {:induction false} RoomKeepsCursor(r: Ending, sizes: seq<nat>)
    requires r.Room? && r.pos <= r.cap && r.pos < COUNTS && AfterPushes(r, sizes).Room?
    ensures AfterPushes(r, sizes).pos < COUNTS
    decreases |sizes|
  {
    if sizes != [] {
      if !AfterPush(r, sizes[0]).Room? {
        StaysBroken(AfterPush(r, sizes[0]), sizes[1..]);
      }
      RoomKeepsCursor(AfterPush(r, sizes[0]), sizes[1..]);
    }
  }

  /** A value that was packed is unpacked again, whatever growth the buffer went through. */
  lemma UnpackPacked(v: Value, t: Type)
    requires Typed(v, t) && Short(v) && Packed(v, t).Done?
    ensures Unpacked(t, Packed(v, t).value) == Some(v)
  {
    hide Decode, Encode, Typed, Short, Sizes;
    var s := Encode(v, t);
    PushesMove(FRESH, Sizes(v, t));
    SizesAddUp(v, t);
    RoomKeepsCursor(FRESH, Sizes(v, t));
    assert s[..|s| % COUNTS] == s == s + [];
    DecodeEncode(v, t, []);
  }
}
