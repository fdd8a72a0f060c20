/** The access token: a packed message and its MAC, in base64, behind the version and the application id. */
module AccessToken {
  import opened Bytes
  import opened Wire
  import opened Packer
  import Base64

  const VERSION: bytes := [48, 48, 49]
  const VERSION_LENGTH := 3
  const APP_ID_LENGTH := 24
  const MAC_LENGTH := 32

  type uint16 = x: int | 0 <= x < 0x1_0000
  type uint32 = x: int | 0 <= x < 0x1_0000_0000
  type PrivilegeMap = map<uint16, uint32>

  type digest = s: bytes | |s| == MAC_LENGTH witness seq(MAC_LENGTH, _ => NUL)
  /** HMAC with SHA-256: some function of a key and a message. */
  type Mac = (bytes, bytes) -> digest

  /** `HmacSign2` */
  function Sign(mac: Mac, key: bytes, message: bytes): bytes {
    if key == [] then [] else mac(key, message)
  }

  datatype Msg = Msg(nonce: uint32, issuedAt: uint32, expireAt: uint32, roomID: bytes, userID: bytes,
                     privileges: PrivilegeMap)

  const PRIVILEGES := Map(2, Unsigned(4))
  const MSG := Record([Unsigned(4), Unsigned(4), Unsigned(4), Text, Text, PRIVILEGES])

  /** The entries of a `std::map` from key `from` on, in order. */
  function Listed(m: PrivilegeMap, from: nat): (es: seq<Entry>)
    ensures forall k :: 0 <= k < |es| ==> from <= es[k].key
    decreases 0x1_0000 - from
  {
    if from >= 0x1_0000 then []
    else if from in m then [Entry(from, Number(m[from]))] + Listed(m, from + 1)
    else Listed(m, from + 1)
  }

  function AsMap(es: seq<Entry>): PrivilegeMap
    requires TypedEntries(es, 2, Unsigned(4))
  {
    assert Span(2) == 0x1_0000 && Span(4) == 0x1_0000_0000;
    assert es != [] ==> Typed(es[0].value, Unsigned(4));
    if es == [] then map[] else AsMap(es[1..])[es[0].key := es[0].value.n]
  }

  lemma {:induction false} ListedIsTyped(m: PrivilegeMap, from: nat)
    ensures TypedEntries(Listed(m, from), 2, Unsigned(4)) && Increasing(Listed(m, from))
    ensures ShortEntries(Listed(m, from))
    decreases 0x1_0000 - from
  {
    assert Span(2) == 0x1_0000 && Span(4) == 0x1_0000_0000;
    if from < 0x1_0000 {
      ListedIsTyped(m, from + 1);
      var tail := Listed(m, from + 1);
      if from in m {
        assert Listed(m, from)[1..] == tail;
      }
    }
  }

  /** The bindings of `m` from key `from` on. */
  function Since(m: PrivilegeMap, from: nat): PrivilegeMap {
    map k | k in m && from <= k :: m[k]
  }

  lemma SinceStep(m: PrivilegeMap, from: nat)
    ensures from >= 0x1_0000 ==> Since(m, from) == map[]
    ensures from in m ==> Since(m, from) == Since(m, from + 1)[from := m[from]] && from !in Since(m, from + 1)
    ensures from !in m ==> Since(m, from) == Since(m, from + 1)
    ensures Since(m, 0) == m
  {
  }

  lemma {:induction false} ListedIsWhole(m: PrivilegeMap, from: nat)
    requires TypedEntries(Listed(m, from), 2, Unsigned(4))
    ensures AsMap(Listed(m, from)) == Since(m, from) && |Listed(m, from)| == |Since(m, from)|
    decreases 0x1_0000 - from
  {
    hide Since, TypedEntries;
    ListedIsTyped(m, from + 1);
    SinceStep(m, from);
    if from < 0x1_0000 {
      ListedIsWhole(m, from + 1);
      if from in m {
        assert Listed(m, from)[1..] == Listed(m, from + 1);
      }
    }
  }

  function ValueOf(m: Msg): Value {
    Fields([Number(m.nonce), Number(m.issuedAt), Number(m.expireAt), Chars(m.roomID), Chars(m.userID),
            Entries(Listed(m.privileges, 0))])
  }

  lemma {:induction false} FieldHasType(vs: seq<Value>, ts: seq<Type>, k: nat)
    requires TypedFields(vs, ts) && k < |vs|
    ensures |vs| == |ts| && Typed(vs[k], ts[k])
  {
    hide Typed;
    if k > 0 {
      FieldHasType(vs[1..], ts[1..], k - 1);
    }
  }

  lemma {:induction false} FieldsAreTyped(vs: seq<Value>, ts: seq<Type>, from: nat)
    requires |vs| == |ts| && from <= |vs| && forall k :: 0 <= k < |vs| ==> Typed(vs[k], ts[k])
    ensures TypedFields(vs[from..], ts[from..])
    decreases |vs| - from
  {
    hide Typed;
    if from < |vs| {
      FieldsAreTyped(vs, ts, from + 1);
      assert vs[from..][1..] == vs[from + 1..] && ts[from..][1..] == ts[from + 1..];
    }
  }

  lemma MsgFields(v: Value)
    requires Typed(v, MSG)
    ensures v.Fields? && |v.fields| == 6
    ensures forall k :: 0 <= k < 3 ==> v.fields[k].Number? && 0 <= v.fields[k].n < 0x1_0000_0000
    ensures v.fields[3].Chars? && v.fields[4].Chars?
    ensures v.fields[5].Entries? && TypedEntries(v.fields[5].entries, 2, Unsigned(4))
  {
    assert Span(4) == 0x1_0000_0000;
    assert v.Fields? && TypedFields(v.fields, MSG.fields);
    hide Span, TypedFields, TypedEntries;
    FieldHasType(v.fields, MSG.fields, 0);
    FieldHasType(v.fields, MSG.fields, 1);
    FieldHasType(v.fields, MSG.fields, 2);
    FieldHasType(v.fields, MSG.fields, 3);
    FieldHasType(v.fields, MSG.fields, 4);
    FieldHasType(v.fields, MSG.fields, 5);
  }

  function MsgOf(v: Value): Msg
    requires Typed(v, MSG)
  {
    MsgFields(v);
    Msg(v.fields[0].n, v.fields[1].n, v.fields[2].n, v.fields[3].s, v.fields[4].s, AsMap(v.fields[5].entries))
  }

  lemma ValueIsTyped(m: Msg)
    ensures Typed(ValueOf(m), MSG)
  {
    assert Span(4) == 0x1_0000_0000;
    ListedIsTyped(m.privileges, 0);
    var vs, ts := ValueOf(m).fields, MSG.fields;
    assert forall k :: 0 <= k < 6 ==> Typed(vs[k], ts[k]);
    FieldsAreTyped(vs, ts, 0);
    assert vs[0..] == vs && ts[0..] == ts;
  }

  lemma MsgOfValue(m: Msg)
    ensures Typed(ValueOf(m), MSG) && MsgOf(ValueOf(m)) == m
  {
    ValueIsTyped(m);
    ListedIsTyped(m.privileges, 0);
    ListedIsWhole(m.privileges, 0);
    SinceStep(m.privileges, 0);
  }

  // ----- how long a message is

  lemma {:induction false} EntriesLength(es: seq<Entry>)
    requires TypedEntries(es, 2, Unsigned(4))
    ensures |EncodeEntries(es, 2, Unsigned(4))| == 6 * |es|
  {
    if es != [] {
      EntriesLength(es[1..]);
      assert Typed(es[0].value, Unsigned(4)) && |Encode(es[0].value, Unsigned(4))| == 4;
    }
  }

  function FieldLengthSum(vs: seq<Value>, ts: seq<Type>, from: nat): nat
    requires from <= |vs| == |ts|
    decreases |vs| - from
  {
    if from == |vs| then 0 else |Encode(vs[from], ts[from])| + FieldLengthSum(vs, ts, from + 1)
  }

  lemma {:induction false} FieldsLength(vs: seq<Value>, ts: seq<Type>, from: nat)
    requires from <= |vs| == |ts|
    ensures |EncodeFields(vs[from..], ts[from..])| == FieldLengthSum(vs, ts, from)
    decreases |vs| - from
  {
    hide Encode;
    if from < |vs| {
      FieldsLength(vs, ts, from + 1);
      assert vs[from..][1..] == vs[from + 1..] && ts[from..][1..] == ts[from + 1..];
    }
  }

  function Length(m: Msg): nat {
    18 + |m.roomID| + |m.userID| + 6 * |m.privileges|
  }

  lemma FieldLengths(n: int, s: bytes, es: seq<Entry>, vs: seq<Value>, ts: seq<Type>)
    requires TypedEntries(es, 2, Unsigned(4))
    ensures |Encode(Number(n), Unsigned(4))| == 4 && |Encode(Chars(s), Text)| == 2 + |s|
    ensures |Encode(Entries(es), PRIVILEGES)| == 2 + 6 * |es|
    ensures Encode(Fields(vs), Record(ts)) == EncodeFields(vs, ts)
    ensures EncodeFields([], []) == []
  {
    EntriesLength(es);
  }

  lemma SixFields(vs: seq<Value>, ts: seq<Type>)
    requires |vs| == |ts| == 6
    ensures |EncodeFields(vs, ts)|
            == |Encode(vs[0], ts[0])| + |Encode(vs[1], ts[1])| + |Encode(vs[2], ts[2])|
               + |Encode(vs[3], ts[3])| + |Encode(vs[4], ts[4])| + |Encode(vs[5], ts[5])|
  {
    hide Encode, EncodeFields;
    FieldsLength(vs, ts, 0);
    assert vs[0..] == vs && ts[0..] == ts;
    assert FieldLengthSum(vs, ts, 6) == 0;
    assert FieldLengthSum(vs, ts, 4) == |Encode(vs[4], ts[4])| + |Encode(vs[5], ts[5])|;
    assert FieldLengthSum(vs, ts, 2) == |Encode(vs[2], ts[2])| + |Encode(vs[3], ts[3])| + FieldLengthSum(vs, ts, 4);
  }

  lemma MsgLength(m: Msg)
    ensures |Encode(ValueOf(m), MSG)| == Length(m)
    ensures |Listed(m.privileges, 0)| == |m.privileges|
  {
    hide Encode, EncodeFields, Listed, TypedEntries;
    var vs, ts := ValueOf(m).fields, MSG.fields;
    var es := vs[5].entries;
    ListedIsTyped(m.privileges, 0);
    ListedIsWhole(m.privileges, 0);
    SinceStep(m.privileges, 0);
    FieldLengths(m.nonce, m.roomID, es, vs, ts);
    FieldLengths(m.issuedAt, m.userID, es, vs, ts);
    FieldLengths(m.expireAt, [], es, vs, ts);
    SixFields(vs, ts);
  }

  lemma {:induction false} ShortFrom(vs: seq<Value>, from: nat)
    requires from <= |vs| && forall k :: 0 <= k < |vs| ==> Short(vs[k])
    ensures ShortItems(vs[from..])
    decreases |vs| - from
  {
    hide Short;
    if from < |vs| {
      ShortFrom(vs, from + 1);
      assert vs[from..][1..] == vs[from + 1..];
    }
  }

  lemma ShortFields(m: Msg)
    requires Length(m) < COUNTS
    ensures Short(ValueOf(m))
  {
    hide Listed, ShortEntries;
    ListedIsTyped(m.privileges, 0);
    MsgLength(m);
    var vs := ValueOf(m).fields;
    assert forall k :: 0 <= k < 6 ==> Short(vs[k]);
    ShortFrom(vs, 0);
    assert vs[0..] == vs;
  }

  /** A message short enough to be packed is short enough to be read back. */
  lemma PackedIsShort(m: Msg)
    requires Packed(ValueOf(m), MSG).Done?
    ensures Short(ValueOf(m)) && Length(m) < COUNTS
  {
    hide Sizes, Encode, Listed, ShortEntries;
    var v := ValueOf(m);
    PushesMove(FRESH, Sizes(v, MSG));
    RoomKeepsCursor(FRESH, Sizes(v, MSG));
    SizesAddUp(v, MSG);
    MsgLength(m);
    ShortFields(m);
  }

  // ----- what becomes of the buffer

  /** A small push fits, wraps the cursor, or throws. */
  lemma SmallPush(cap: nat, pos: nat, size: nat)
    requires IsBufferSize(cap) && pos <= cap && pos < COUNTS && size <= 3 * BUFFER_SIZE
    ensures var q := AfterPush(Room(cap, pos), size);
            if pos + size < COUNTS then q.Room? && IsBufferSize(q.cap) && q.pos == pos + size <= q.cap
            else if pos + size == COUNTS then q == Wrapped
            else q == Thrown
  {
  }

  lemma OneEntry(es: seq<Entry>)
    requires es != [] && TypedEntries(es, 2, Unsigned(4))
    ensures EntrySizes(es, 2, Unsigned(4)) == [2] + ([4] + EntrySizes(es[1..], 2, Unsigned(4)))
    ensures TypedEntries(es[1..], 2, Unsigned(4))
  {
    assert Typed(es[0].value, Unsigned(4));
  }

  lemma NoEntries()
    ensures EntrySizes([], 2, Unsigned(4)) == []
  {
  }

  /** Pushing the privileges, six bytes each, succeeds, wraps the cursor, or throws. */
  lemma {:induction false} EntryPushes(cap: nat, pos: nat, es: seq<Entry>)
    requires IsBufferSize(cap) && pos <= cap && pos < COUNTS && TypedEntries(es, 2, Unsigned(4))
    ensures var q := AfterPushes(Room(cap, pos), EntrySizes(es, 2, Unsigned(4)));
            if pos + 6 * |es| < COUNTS then q.Room?
            else if (COUNTS - pos) % 6 == 0 || (COUNTS - pos) % 6 == 2 then q == Wrapped
            else q == Thrown
    decreases |es|
  {
    hide AfterPush, AfterPushes, EntrySizes, TypedEntries, IsBufferSize;
    var r := Room(cap, pos);
    if es == [] {
      NoEntries();
      OnePush(r, 0);
    } else {
      var rest := EntrySizes(es[1..], 2, Unsigned(4));
      OneEntry(es);
      PushInParts(r, [2], [4] + rest);
      OnePush(r, 2);
      SmallPush(cap, pos, 2);
      var r2 := AfterPush(r, 2);
      if r2.Room? {
        PushInParts(r2, [4], rest);
        OnePush(r2, 4);
        SmallPush(r2.cap, r2.pos, 4);
        var r6 := AfterPush(r2, 4);
        if r6.Room? {
          EntryPushes(r6.cap, r6.pos, es[1..]);
        }
      }
    }
  }

  /** The buffer in which the second string is pushed, behind a first string of `room` bytes. */
  function SecondCap(room: nat): nat {
    if room <= 1006 then BUFFER_SIZE else if room <= 4078 then 4 * BUFFER_SIZE else 16 * BUFFER_SIZE
  }

  /** The pushes up to the number of privileges. */
  function FrontSizes(room: nat, user: nat): seq<nat> {
    [4, 4, 4, 2, room, 2, user, 2]
  }

  lemma ThreeWords()
    ensures AfterPushes(FRESH, [4, 4, 4, 2]) == Room(BUFFER_SIZE, 16)
  {
    assert [4, 4, 4, 2][1..] == [4, 4, 2] && [4, 4, 2][1..] == [4, 2] && [4, 2][1..] == [2] && [2][1..] == [];
    assert AfterPushes(Room(BUFFER_SIZE, 14), [2]) == Room(BUFFER_SIZE, 16);
    assert AfterPushes(Room(BUFFER_SIZE, 10), [4, 2]) == Room(BUFFER_SIZE, 16);
  }

  lemma FirstString(room: nat)
    ensures var q := AfterPushes(Room(BUFFER_SIZE, 16), [room, 2]);
            if room <= 4080 then q == Room(SecondCap(room), 18 + room) else q == PastTheEnd
  {
    assert [room, 2][1..] == [2];
    OnePush(AfterPush(Room(BUFFER_SIZE, 16), room), 2);
  }

  lemma SecondString(room: nat, user: nat)
    requires room <= 4080
    ensures var q := AfterPushes(Room(SecondCap(room), 18 + room), [user, 2]);
            var pos := 18 + room + user;
            if pos > 4 * SecondCap(room) then q == PastTheEnd
            else if pos == 65_534 || pos == 65_536 then q == Wrapped
            else if pos == 65_535 then q == Thrown
            else q.Room? && IsBufferSize(q.cap) && q.pos == pos + 2 <= q.cap && q.pos < COUNTS
  {
    var r := Room(SecondCap(room), 18 + room);
    assert [user, 2][1..] == [2];
    var r1 := AfterPush(r, user);
    OnePush(r1, 2);
    if r1.Room? {
      SmallPush(r1.cap, r1.pos, 2);
    }
  }

  lemma FrontPushes(room: nat, user: nat)
    ensures var q := AfterPushes(FRESH, FrontSizes(room, user));
            var pos := 18 + room + user;
            if room > 4080 || pos > 4 * SecondCap(room) then q == PastTheEnd
            else if pos == 65_534 || pos == 65_536 then q == Wrapped
            else if pos == 65_535 then q == Thrown
            else q.Room? && IsBufferSize(q.cap) && q.pos == pos + 2 <= q.cap && q.pos < COUNTS
  {
    hide AfterPush, AfterPushes, SecondCap;
    assert FrontSizes(room, user) == [4, 4, 4, 2] + ([room, 2] + [user, 2]);
    ThreeWords();
    PushInParts(FRESH, [4, 4, 4, 2], [room, 2] + [user, 2]);
    FirstString(room);
    PushInParts(Room(BUFFER_SIZE, 16), [room, 2], [user, 2]);
    if room <= 4080 {
      SecondString(room, user);
    }
  }

  lemma FieldSizesFrom(vs: seq<Value>, ts: seq<Type>, from: nat)
    requires from < |vs| == |ts|
    ensures FieldSizes(vs[from..], ts[from..]) == Sizes(vs[from], ts[from]) + FieldSizes(vs[from + 1..], ts[from + 1..])
  {
    hide Sizes;
    assert vs[from..][1..] == vs[from + 1..] && ts[from..][1..] == ts[from + 1..];
  }

  lemma NoFieldSizes()
    ensures FieldSizes([], []) == []
  {
  }

  lemma SixFieldSizes(vs: seq<Value>, ts: seq<Type>)
    requires |vs| == |ts| == 6
    ensures FieldSizes(vs, ts)
            == Sizes(vs[0], ts[0]) + (Sizes(vs[1], ts[1]) + (Sizes(vs[2], ts[2])
               + (Sizes(vs[3], ts[3]) + (Sizes(vs[4], ts[4]) + Sizes(vs[5], ts[5])))))
  {
    hide Sizes, FieldSizes;
    FieldSizesFrom(vs, ts, 0);
    FieldSizesFrom(vs, ts, 1);
    FieldSizesFrom(vs, ts, 2);
    FieldSizesFrom(vs, ts, 3);
    FieldSizesFrom(vs, ts, 4);
    FieldSizesFrom(vs, ts, 5);
    NoFieldSizes();
    assert vs[0..] == vs && ts[0..] == ts && vs[6..] == [] && ts[6..] == [];
  }

  lemma SizesOfFields(n: int, s: bytes, es: seq<Entry>, vs: seq<Value>, ts: seq<Type>)
    ensures Sizes(Number(n), Unsigned(4)) == [4] && Sizes(Chars(s), Text) == [2, |s|]
    ensures Sizes(Entries(es), PRIVILEGES) == [2] + EntrySizes(es, 2, Unsigned(4))
    ensures Sizes(Fields(vs), Record(ts)) == FieldSizes(vs, ts)
  {
  }

  lemma FrontAndEntries(room: nat, user: nat, entries: seq<nat>)
    ensures [4] + ([4] + ([4] + ([2, room] + ([2, user] + ([2] + entries))))) == FrontSizes(room, user) + entries
  {
  }

  lemma MsgSizes(m: Msg)
    ensures Sizes(ValueOf(m), MSG)
            == FrontSizes(|m.roomID|, |m.userID|) + EntrySizes(Listed(m.privileges, 0), 2, Unsigned(4))
  {
    hide Listed, Sizes, EntrySizes, FieldSizes, FrontSizes;
    var vs, ts := ValueOf(m).fields, MSG.fields;
    var es := vs[5].entries;
    SixFieldSizes(vs, ts);
    SizesOfFields(m.nonce, m.roomID, es, vs, ts);
    SizesOfFields(m.issuedAt, m.userID, es, vs, ts);
    SizesOfFields(m.expireAt, [], es, vs, ts);
    FrontAndEntries(|m.roomID|, |m.userID|, EntrySizes(es, 2, Unsigned(4)));
  }

  /** Packing a message of these sizes throws: the strings find room, and then a number or privilege hits the end of the
      largest buffer without filling it. */
  predicate Throws(room: nat, user: nat, privileges: nat) {
    var pos := 18 + room + user;
    && room <= 4080 && pos <= 4 * SecondCap(room)
    && (pos == 65_535
        || (pos < 65_534 && pos + 2 + 6 * privileges >= COUNTS
            && (65_534 - pos) % 6 != 0 && (65_534 - pos) % 6 != 2))
  }

  lemma ThrowsExactly(m: Msg)
    ensures Packed(ValueOf(m), MSG) == Failed(Thrown) <==> Throws(|m.roomID|, |m.userID|, |m.privileges|)
  {
    hide Sizes, AfterPush, AfterPushes, Listed, EntrySizes, FrontSizes, SecondCap, IsBufferSize, Encode;
    var front, es := FrontSizes(|m.roomID|, |m.userID|), Listed(m.privileges, 0);
    MsgSizes(m);
    MsgLength(m);
    ListedIsTyped(m.privileges, 0);
    FrontPushes(|m.roomID|, |m.userID|);
    PushInParts(FRESH, front, EntrySizes(es, 2, Unsigned(4)));
    var q := AfterPushes(FRESH, front);
    if q.Room? {
      EntryPushes(q.cap, q.pos, es);
    }
  }

  // ----- the token

  datatype Token = Token(appId: bytes, appKey: bytes, roomId: bytes, userId: bytes, issuedAt: uint32, nonce: uint32,
                         expireAt: uint32, privileges: PrivilegeMap, signature: bytes) {
    function Message(): Msg {
      Msg(nonce, issuedAt, expireAt, roomId, userId, privileges)
    }
  }

  /** `packMsg` */
  function PackedMsg(t: Token): Outcome<bytes> {
    Packed(ValueOf(t.Message()), MSG)
  }

  function Content(msg: bytes, signature: bytes): bytes {
    Encode(Chars(msg), Text) + Encode(Chars(signature), Text)
  }

  function Serialized(t: Token, mac: Mac): Outcome<bytes> {
    match PackedMsg(t)
    case Failed(why) => Failed(why)
    case Done(msg) =>
      match Packed(Chars(msg), Text)
      case Failed(why) => Failed(why)
      case Done(_) => Done(VERSION + t.appId + Base64.Encoded(Content(msg, Sign(mac, t.appKey, msg))))
  }

  /** `Serialize` succeeds exactly for messages of at most 4092 bytes, throws exactly where the message throws, and
      otherwise copies past the end of a buffer or wraps its cursor. */
  lemma SerializeExactly(t: Token, mac: Mac)
    ensures Serialized(t, mac).Done? <==> Length(t.Message()) <= 4092
    ensures Serialized(t, mac) == Failed(Thrown) <==> Throws(|t.roomId|, |t.userId|, |t.privileges|)
    ensures Length(t.Message()) <= 4092 ==> PackedMsg(t).Done?
  {
    hide Sizes, AfterPushes, Encode, Listed, Base64.Encoded, Throws;
    var m := t.Message();
    var v := ValueOf(m);
    MsgLength(m);
    StringFits(Encode(v, MSG));
    ThrowsExactly(m);
    if Length(m) <= 4092 {
      SizesAddUp(v, MSG);
      FirstGrowthFits(FRESH, Sizes(v, MSG));
    }
  }

  /** No copy leaves a buffer and no cursor wraps. */
  predicate StaysInside(r: Outcome<bytes>) {
    r != Failed(PastTheEnd) && r != Failed(Wrapped)
  }

  lemma SerializedFailures(t: Token, mac: Mac)
    ensures Serialized(t, mac).Failed? ==> !Serialized(t, mac).why.Room?
  {
    hide Sizes, AfterPushes, Encode, Listed, Base64.Encoded;
  }

  lemma SerializeStaysInside(t: Token, mac: Mac)
    ensures StaysInside(Serialized(t, mac))
            <==> Length(t.Message()) <= 4092 || Throws(|t.roomId|, |t.userId|, |t.privileges|)
  {
    hide Throws;
    SerializeExactly(t, mac);
    SerializedFailures(t, mac);
  }

  function TextIn(data: bytes): (r: Option<bytes>)
    ensures r.Some? ==> 2 + |r.value| <= |data|
  {
    match Unpacked(Text, data)
    case Some(Chars(s)) => Some(s)
    case _ => None
  }

  function MsgIn(data: bytes): Option<Msg> {
    DecodeTyped(MSG, data[..|data| % COUNTS]);
    match Unpacked(MSG, data)
    case None => None
    case Some(v) => Some(MsgOf(v))
  }

  /** `std::string::substr` */
  function Sub(s: bytes, from: nat, count: nat): bytes
    requires from <= |s|
  {
    if from + count <= |s| then s[from..from + count] else s[from..]
  }

  function ParsedMsg(msg: bytes, t: Token): Token {
    match MsgIn(msg)
    case None => t
    case Some(m) => t.(nonce := m.nonce, issuedAt := m.issuedAt, expireAt := m.expireAt,
                       roomId := m.roomID, userId := m.userID, privileges := m.privileges)
  }

  function ParsedContent(content: bytes, t: Token): Token {
    match TextIn(content)
    case None => t
    case Some(msg) =>
      match TextIn(content[2 + |msg|..])
      case None => t
      case Some(signature) => ParsedMsg(msg, t.(signature := signature))
  }

  /** What `Parse` returns: as much of the token as was there before an exception. */
  function Parsed(raw: bytes, blank: Token): Token {
    if Sub(raw, 0, VERSION_LENGTH) != VERSION then blank
    else
      var t := blank.(appId := Sub(raw, VERSION_LENGTH, APP_ID_LENGTH));
      if |raw| < VERSION_LENGTH + APP_ID_LENGTH then t
      else ParsedContent(Base64.Decoded(raw[VERSION_LENGTH + APP_ID_LENGTH..]), t)
  }

  predicate Expired(t: Token, now: nat) {
    t.expireAt > 0 && now > t.expireAt
  }

  /** What `Verify` answers. */
  function Verdict(t: Token, mac: Mac, key: bytes, now: nat): Outcome<bool> {
    if Expired(t, now) then Done(false)
    else
      match PackedMsg(t)
      case Failed(why) => Failed(why)
      case Done(msg) => Done(Sign(mac, key, msg) == t.signature)
  }

  // ----- serialized, parsed and verified

  lemma MsgBack(m: Msg)
    requires Packed(ValueOf(m), MSG).Done?
    ensures MsgIn(Packed(ValueOf(m), MSG).value) == Some(m)
  {
    hide Sizes, Encode, Decode, Listed, Typed, Short, MsgOf;
    MsgOfValue(m);
    PackedIsShort(m);
    UnpackPacked(ValueOf(m), MSG);
  }

  lemma TextBack(s: bytes, rest: bytes)
    requires |s| + 2 + |rest| < COUNTS
    ensures TextIn(Encode(Chars(s), Text) + rest) == Some(s)
    ensures (Encode(Chars(s), Text) + rest)[2 + |s|..] == rest
  {
    var data := Encode(Chars(s), Text) + rest;
    assert data[..|data| % COUNTS] == data;
    DecodeEncode(Chars(s), Text, rest);
  }

  /** Distinct messages have distinct bytes, so a signature is a signature of one message. */
  lemma SameBytesSameMessage(a: Msg, b: Msg)
    requires Packed(ValueOf(a), MSG).Done? && Packed(ValueOf(a), MSG) == Packed(ValueOf(b), MSG)
    ensures a == b
  {
    hide Packed, MsgIn;
    MsgBack(a);
    MsgBack(b);
  }

  lemma TextLength(s: bytes)
    ensures |Encode(Chars(s), Text)| == 2 + |s|
  {
  }

  lemma ContentBack(msg: bytes, signature: bytes, t: Token)
    requires |msg| <= 4092 && |signature| <= MAC_LENGTH
    ensures ParsedContent(Content(msg, signature), t) == ParsedMsg(msg, t.(signature := signature))
  {
    hide ParsedMsg, TextIn, Encode;
    TextLength(signature);
    TextBack(msg, Encode(Chars(signature), Text));
    TextBack(signature, []);
    assert Encode(Chars(signature), Text) + [] == Encode(Chars(signature), Text);
  }

  lemma ContentIsLong(msg: bytes, signature: bytes)
    requires |msg| >= 18
    ensures |Base64.Encoded(Content(msg, signature))| >= APP_ID_LENGTH
  {
    hide Encode, Base64.Encoded;
    TextLength(msg);
    TextLength(signature);
    var k := Base64.WholeQuads(Content(msg, signature));
  }

  lemma ParsedAppId(raw: bytes, blank: Token)
    requires |raw| >= VERSION_LENGTH + APP_ID_LENGTH && raw[..VERSION_LENGTH] == VERSION
    ensures Parsed(raw, blank).appId == raw[VERSION_LENGTH..VERSION_LENGTH + APP_ID_LENGTH]
  {
  }

  /** Parsing gives back everything that was serialized, except the key, exactly when the application id has 24
      bytes. */
  lemma RoundTrip(t: Token, mac: Mac, blank: Token)
    requires Length(t.Message()) <= 4092
    ensures Serialized(t, mac).Done? && PackedMsg(t).Done?
    ensures Parsed(Serialized(t, mac).value, blank)
              == t.(appKey := blank.appKey, signature := Sign(mac, t.appKey, PackedMsg(t).value))
            <==> |t.appId| == APP_ID_LENGTH
  {
    hide Encode, Sizes, AfterPushes, Listed, ParsedContent, MsgIn, Base64.Encoded, Base64.Decoded, Content;
    SerializeExactly(t, mac);
    MsgLength(t.Message());
    var msg := PackedMsg(t).value;
    var signature := Sign(mac, t.appKey, msg);
    var text := Base64.Encoded(Content(msg, signature));
    var raw := VERSION + t.appId + text;
    ContentIsLong(msg, signature);
    assert raw[..VERSION_LENGTH] == VERSION;
    ParsedAppId(raw, blank);
    if |t.appId| == APP_ID_LENGTH {
      assert raw[VERSION_LENGTH + APP_ID_LENGTH..] == text && Sub(raw, VERSION_LENGTH, APP_ID_LENGTH) == t.appId;
      Base64.DecodeEncode(Content(msg, signature));
      ContentBack(msg, signature, blank.(appId := t.appId));
      MsgBack(t.Message());
    }
  }

  /** A parsed token is accepted exactly while it has not expired and the key makes the same signature. */
  lemma VerifyParsed(t: Token, mac: Mac, blank: Token, key: bytes, now: nat)
    requires Length(t.Message()) <= 4092 && |t.appId| == APP_ID_LENGTH
    ensures PackedMsg(t).Done? && Serialized(t, mac).Done?
    ensures Verdict(Parsed(Serialized(t, mac).value, blank), mac, key, now)
            == Done(!Expired(t, now) && Sign(mac, key, PackedMsg(t).value) == Sign(mac, t.appKey, PackedMsg(t).value))
  {
    hide Serialized, Parsed, Packed, Sign;
    RoundTrip(t, mac, blank);
  }

  // ----- what the signature is, and what the bytes are

  /** The MAC of a message under a key, by name; no key, no MAC. */
  function MacOf(mac: Mac, key: bytes, m: Msg): (s: bytes)
    requires Packed(ValueOf(m), MSG).Done?
    ensures |s| == if key == [] then 0 else 32
  {
    if key == [] then [] else mac(key, Packed(ValueOf(m), MSG).value)
  }

  /** The signature that comes back from a serialized token is the MAC of its packed message, or empty for no key. */
  lemma SignatureIsMac(t: Token, mac: Mac, blank: Token)
    requires Length(t.Message()) <= 4092 && |t.appId| == 24
    ensures Packed(ValueOf(t.Message()), MSG).Done? && Serialized(t, mac).Done?
    ensures Parsed(Serialized(t, mac).value, blank).signature == MacOf(mac, t.appKey, t.Message())
  {
    hide Serialized, Parsed, Packed;
    RoundTrip(t, mac, blank);
  }

  /** `Verify` answers true exactly while the token has not expired and its signature is the MAC of its own message
      under the given key. */
  lemma VerifyIsMac(t: Token, mac: Mac, key: bytes, now: nat)
    requires Packed(ValueOf(t.Message()), MSG).Done?
    ensures Verdict(t, mac, key, now)
            == Done((t.expireAt == 0 || now <= t.expireAt) && t.signature == MacOf(mac, key, t.Message()))
  {
    hide Packed;
  }

  /** A token whose message was changed and that has not expired is accepted under the old signature exactly when the
      MACs of the two messages agree; their packed bytes differ whenever the messages do. */
  lemma ChangedToken(t: Token, changed: Token, mac: Mac, blank: Token, now: nat)
    requires Length(t.Message()) <= 4092 && |t.appId| == 24 && Packed(ValueOf(changed.Message()), MSG).Done?
    requires Serialized(t, mac).Done? && changed.signature == Parsed(Serialized(t, mac).value, blank).signature
    requires t.appKey != [] && (changed.expireAt == 0 || now <= changed.expireAt)
    ensures Packed(ValueOf(t.Message()), MSG).Done?
    ensures var first, second := Packed(ValueOf(t.Message()), MSG).value, Packed(ValueOf(changed.Message()), MSG).value;
            && (Verdict(changed, mac, t.appKey, now) == Done(true) <==> mac(t.appKey, first) == mac(t.appKey, second))
            && (first == second <==> t.Message() == changed.Message())
  {
    hide Serialized, Parsed, Packed, Verdict;
    SignatureIsMac(t, mac, blank);
    VerifyIsMac(changed, mac, t.appKey, now);
    if Packed(ValueOf(t.Message()), MSG) == Packed(ValueOf(changed.Message()), MSG) {
      SameBytesSameMessage(t.Message(), changed.Message());
    }
  }

  /** Integers, least significant byte first. */
  function Word(n: nat): bytes {
    [n % 256, n / 256 % 256, n / 256 / 256 % 256, n / 256 / 256 / 256 % 256]
  }

  function Half(n: nat): bytes {
    [n % 256, n / 256 % 256]
  }

  function PrivilegeBytes(m: PrivilegeMap, from: nat): bytes
    decreases 0x1_0000 - from
  {
    if from >= 0x1_0000 then []
    else if from in m then Half(from) + Word(m[from]) + PrivilegeBytes(m, from + 1)
    else PrivilegeBytes(m, from + 1)
  }

  /** A packed message, byte for byte. */
  function Layout(m: Msg): bytes {
    Word(m.nonce)
    + (Word(m.issuedAt)
       + (Word(m.expireAt)
          + ((Half(|m.roomID|) + m.roomID)
             + ((Half(|m.userID|) + m.userID)
                + (Half(|m.privileges|) + PrivilegeBytes(m.privileges, 0))))))
  }

  /** The token's text: the version, the application id, and in base64 the message and the signature, each behind its
      length. */
  function TokenText(t: Token, mac: Mac): bytes
    requires Packed(ValueOf(t.Message()), MSG).Done?
  {
    var msg, signature := Layout(t.Message()), MacOf(mac, t.appKey, t.Message());
    Ascii("001") + t.appId + Base64.Encoded(Half(|msg|) + msg + (Half(|signature|) + signature))
  }

  lemma LittleEndianBytes(n: nat)
    ensures LittleEndian(n, 4) == Word(n) && LittleEndian(n, 2) == Half(n)
  {
    var a: nat := n / 256;
    var b: nat := a / 256;
    var c: nat := b / 256;
    assert LittleEndian(a, 1) == [a % 256] + LittleEndian(b, 0) == [a % 256];
    assert LittleEndian(n, 2) == [n % 256] + LittleEndian(a, 1);
    assert LittleEndian(c, 1) == [c % 256] + LittleEndian(c / 256, 0) == [c % 256];
    assert LittleEndian(b, 2) == [b % 256] + LittleEndian(c, 1);
    assert LittleEndian(a, 3) == [a % 256] + LittleEndian(b, 2);
    assert LittleEndian(n, 4) == [n % 256] + LittleEndian(a, 3);
  }

  lemma WordIsEncoded(n: uint32)
    ensures Encode(Number(n), Unsigned(4)) == Word(n)
  {
    assert ToUnsigned(n, 4) == n;
    LittleEndianBytes(n);
  }

  lemma HalfIsEncoded(n: nat, s: bytes)
    ensures n < COUNTS ==> Count(n) == Half(n) && LittleEndian(ToUnsigned(n, 2), 2) == Half(n)
    ensures |s| < COUNTS ==> Encode(Chars(s), Text) == Half(|s|) + s
  {
    assert Span(2) == COUNTS;
    LittleEndianBytes(n);
    LittleEndianBytes(|s|);
  }

  lemma {:induction false} PrivilegesAreEncoded(m: PrivilegeMap, from: nat)
    ensures EncodeEntries(Listed(m, from), 2, Unsigned(4)) == PrivilegeBytes(m, from)
    decreases 0x1_0000 - from
  {
    hide Encode, LittleEndian, ToUnsigned, Word, Half;
    if from < 0x1_0000 {
      PrivilegesAreEncoded(m, from + 1);
      if from in m {
        WordIsEncoded(m[from]);
        HalfIsEncoded(from, []);
        assert Listed(m, from)[1..] == Listed(m, from + 1);
      }
    }
  }

  lemma FieldEncoded(vs: seq<Value>, ts: seq<Type>, k: nat)
    requires |vs| == |ts| && k < |vs|
    ensures EncodeFields(vs[k..], ts[k..]) == Encode(vs[k], ts[k]) + EncodeFields(vs[k + 1..], ts[k + 1..])
  {
    hide Encode;
    assert vs[k..][1..] == vs[k + 1..] && ts[k..][1..] == ts[k + 1..];
  }

  lemma SixEncoded(vs: seq<Value>, ts: seq<Type>)
    requires |vs| == |ts| == 6
    ensures EncodeFields(vs, ts)
            == Encode(vs[0], ts[0]) + (Encode(vs[1], ts[1]) + (Encode(vs[2], ts[2])
               + (Encode(vs[3], ts[3]) + (Encode(vs[4], ts[4]) + Encode(vs[5], ts[5])))))
  {
    hide Encode, EncodeFields;
    FieldEncoded(vs, ts, 0);
    FieldEncoded(vs, ts, 1);
    FieldEncoded(vs, ts, 2);
    FieldEncoded(vs, ts, 3);
    FieldEncoded(vs, ts, 4);
    FieldEncoded(vs, ts, 5);
    FieldLengths(0, [], [], [], []);
    assert vs[0..] == vs && ts[0..] == ts && vs[6..] == [] && ts[6..] == [];
  }

  lemma RecordIsEncoded(vs: seq<Value>, ts: seq<Type>, es: seq<Entry>)
    ensures Encode(Fields(vs), Record(ts)) == EncodeFields(vs, ts)
    ensures Encode(Entries(es), PRIVILEGES) == Count(|es|) + EncodeEntries(es, 2, Unsigned(4))
  {
  }

  /** A message is packed to these bytes. */
  lemma MsgBytes(m: Msg)
    requires Length(m) < COUNTS
    ensures Encode(ValueOf(m), MSG) == Layout(m)
  {
    hide Encode, EncodeFields, EncodeEntries, Listed, Word, Half, Count;
    var vs, ts := ValueOf(m).fields, MSG.fields;
    MsgLength(m);
    RecordIsEncoded(vs, ts, vs[5].entries);
    SixEncoded(vs, ts);
    WordIsEncoded(m.nonce);
    WordIsEncoded(m.issuedAt);
    WordIsEncoded(m.expireAt);
    HalfIsEncoded(|m.privileges|, m.roomID);
    HalfIsEncoded(0, m.userID);
    PrivilegesAreEncoded(m.privileges, 0);
  }

  /** `Serialize` writes this text. */
  lemma TokenIsSpelled(t: Token, mac: Mac)
    requires Length(t.Message()) <= 4092
    ensures Packed(ValueOf(t.Message()), MSG).Done? && Serialized(t, mac) == Done(TokenText(t, mac))
  {
    hide Encode, Layout, Sizes, AfterPushes, Half, Base64.Encoded, Listed;
    SerializeExactly(t, mac);
    MsgBytes(t.Message());
    MsgLength(t.Message());
    HalfIsEncoded(0, Layout(t.Message()));
    HalfIsEncoded(0, MacOf(mac, t.appKey, t.Message()));
    assert Ascii("001") == VERSION;
  }

  /** A token shorter than version and application id: what there is of the id is all that is read. */
  lemma ShortTokenIsParsed(appId: bytes, blank: Token)
    requires |appId| < 24
    ensures Parsed(Ascii("001") + appId, blank) == blank.(appId := appId)
  {
    assert Ascii("001") == VERSION;
    var raw := VERSION + appId;
    assert raw[..3] == VERSION && raw[3..] == appId;
  }

  class AccessToken {
    var appId: bytes
    var appKey: bytes
    var roomId: bytes
    var userId: bytes
    var issuedAt: uint32
    var nonce: uint32
    var expireAt: uint32
    var privileges: PrivilegeMap
    var signature: bytes

    /** The clock and the salt are inputs; `expireAt` starts with no particular value. */
    constructor (appId: bytes, appKey: bytes, roomId: bytes, userId: bytes, now: uint32, salt: uint32, unset: uint32)
      ensures Contents() == Token(appId, appKey, roomId, userId, now, salt, unset, map[], [])
    {
      this.appId, this.appKey, this.roomId, this.userId := appId, appKey, roomId, userId;
      issuedAt, nonce, expireAt, privileges, signature := now, salt, unset, map[], [];
    }

    ghost function Contents(): Token
      reads this
    {
      Token(appId, appKey, roomId, userId, issuedAt, nonce, expireAt, privileges, signature)
    }

    /** Publishing a stream stands for publishing audio, video and data as well. */
    method AddPrivilege(privilege: uint16, expireTimestamp: uint32)
      modifies `privileges
      ensures forall k ::
                k in privileges <==> k in old(privileges) || k == privilege || (privilege == 0 && k in {1, 2, 3})
      ensures forall k :: k in privileges ==>
                privileges[k] == if k == privilege || (privilege == 0 && k in {1, 2, 3}) then expireTimestamp
                                 else old(privileges)[k]
    {
      privileges := privileges[privilege := expireTimestamp];
      if privilege == 0 {
        privileges := privileges[1 := expireTimestamp];
        privileges := privileges[2 := expireTimestamp];
        privileges := privileges[3 := expireTimestamp];
      }
    }

    method ExpireTime(expireTimestamp: uint32)
      modifies `expireAt
      ensures Contents() == old(Contents()).(expireAt := expireTimestamp)
    {
      expireAt := expireTimestamp;
    }

    method PackMsg() returns (r: Outcome<bytes>)
      ensures r == PackedMsg(Contents())
    {
      var m := Msg(nonce, issuedAt, expireAt, roomId, userId, privileges);
      ValueIsTyped(m);
      r := PackValue(ValueOf(m), MSG);
    }

    method Serialize(mac: Mac) returns (r: Outcome<bytes>)
      modifies `signature
      ensures r == Serialized(old(Contents()), mac)
      ensures var msg := PackedMsg(old(Contents()));
              signature == if msg.Failed? then old(signature) else if appKey == [] then [] else mac(appKey, msg.value)
    {
      hide Encode, Sizes, AfterPushes;
      var msg := PackMsg();
      if msg.Failed? {
        return Failed(msg.why);
      }
      signature := Sign(mac, appKey, msg.value);
      var first := PackValue(Chars(msg.value), Text);
      if first.Failed? {
        return Failed(first.why);
      }
      StringFits(signature);
      var second := PackValue(Chars(signature), Text);
      var text := Base64.Encode(first.value + second.value);
      return Done(VERSION + appId + text);
    }

    method Verify(mac: Mac, key: bytes, now: nat) returns (r: Outcome<bool>)
      modifies `appKey
      ensures r == Verdict(old(Contents()), mac, key, now)
      ensures Contents() == if Expired(old(Contents()), now) then old(Contents()) else old(Contents()).(appKey := key)
    {
      hide Packed;
      if expireAt > 0 && now > expireAt {
        return Done(false);
      }
      appKey := key;
      var msg := PackMsg();
      if msg.Failed? {
        return Failed(msg.why);
      }
      return Done(Sign(mac, appKey, msg.value) == signature);
    }
  }

  method UnpackMsg(data: bytes) returns (r: Option<Msg>)
    ensures r == MsgIn(data)
  {
    hide Decode, MsgOf;
    DecodeTyped(MSG, data[..|data| % COUNTS]);
    var v := UnpackValue(MSG, data);
    if v.None? {
      return None;
    }
    r := Some(MsgOf(v.value));
  }

  method UnpackText(data: bytes) returns (r: Option<bytes>)
    ensures r == TextIn(data)
  {
    DecodeTyped(Text, data[..|data| % COUNTS]);
    var v := UnpackValue(Text, data);
    r := if v.None? then None else Some(v.value.s);
  }

  /** The free function `Parse`; an exception leaves the token as far as it got. */
  method Parse(raw: bytes, now: uint32, salt: uint32, unset: uint32) returns (token: AccessToken)
    ensures fresh(token)
    ensures token.Contents() == Parsed(raw, Token([], [], [], [], now, salt, unset, map[], []))
  {
    hide Unpacked, Base64.Decoded, MsgOf;
    token := new AccessToken([], [], [], [], now, salt, unset);
    if Sub(raw, 0, VERSION_LENGTH) != VERSION {
      return;
    }
    token.appId := Sub(raw, VERSION_LENGTH, APP_ID_LENGTH);
    if |raw| < VERSION_LENGTH + APP_ID_LENGTH {
      return;
    }
    var content := Base64.Decode(raw[VERSION_LENGTH + APP_ID_LENGTH..]);
    var msgRaw := UnpackText(content);
    if msgRaw.None? {
      return;
    }
    var signature := UnpackText(content[2 + |msgRaw.value|..]);
    if signature.None? {
      return;
    }
    token.signature := signature.value;
    var msg := UnpackMsg(msgRaw.value);
    if msg.Some? {
      token.nonce, token.issuedAt, token.expireAt := msg.value.nonce, msg.value.issuedAt, msg.value.expireAt;
      token.roomId, token.userId, token.privileges := msg.value.roomID, msg.value.userID, msg.value.privileges;
    }
  }
}
