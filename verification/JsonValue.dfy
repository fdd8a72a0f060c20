/** JSON values and their comparison. An object is a `std::map`: its members lie in key order, keys distinct. */
module JsonValue {
  import opened Bytes

  datatype Double = NaN | NegInfinity | Finite(v: real) | PosInfinity

  datatype Json =
    | Null
    | Int(n: int)
    | Dbl(d: Double)
    | Bool(b: bool)
    | Str(s: bytes)
    | Arr(items: seq<Json>)
    | Obj(members: seq<Member>)

  datatype Member = Member(key: bytes, value: Json)

  /** `data[key] = value` on a `std::map`. */
  function Insert(ms: seq<Member>, key: bytes, value: Json): seq<Member> {
    if ms == [] || Below(key, ms[0].key) then [Member(key, value)] + ms
    else if key == ms[0].key then [Member(key, value)] + ms[1..]
    else [ms[0]] + Insert(ms[1..], key, value)
  }

  /** `find(key)` on a `std::map`. */
  function Lookup(ms: seq<Member>, key: bytes): Option<Json> {
    if ms == [] then None
    else if ms[0].key == key then Some(ms[0].value)
    else Lookup(ms[1..], key)
  }

  predicate KeyOrdered(ms: seq<Member>) {
    forall i, j :: 0 <= i < j < |ms| ==> Below(ms[i].key, ms[j].key)
  }

  /** Every object inside `v` is a `std::map`. */
  ghost predicate WellFormed(v: Json) {
    match v
    case Arr(items) => forall k :: 0 <= k < |items| ==> WellFormed(items[k])
    case Obj(ms) => KeyOrdered(ms) && forall k :: 0 <= k < |ms| ==> WellFormed(ms[k].value)
    case _ => true
  }

  lemma {:induction false} LookupBelowAll(ms: seq<Member>, key: bytes)
    requires forall j :: 0 <= j < |ms| ==> Below(key, ms[j].key)
    ensures Lookup(ms, key) == None
  {
    if ms != [] {
      BelowTrichotomy(key, ms[0].key);
      LookupBelowAll(ms[1..], key);
    }
  }

  /** `Insert` keeps the map a map, holds the new binding and disturbs no other. */
  lemma {:induction false} InsertIsAssignment(ms: seq<Member>, key: bytes, value: Json)
    requires KeyOrdered(ms)
    ensures KeyOrdered(Insert(ms, key, value))
    ensures forall k :: Lookup(Insert(ms, key, value), k) == if k == key then Some(value) else Lookup(ms, k)
    ensures forall m :: m in Insert(ms, key, value) ==> m == Member(key, value) || m in ms
  {
    var r := Insert(ms, key, value);
    if ms == [] {
    } else if Below(key, ms[0].key) {
      forall j | 0 <= j < |ms| ensures Below(key, ms[j].key) {
        if j > 0 { BelowTransitive(key, ms[0].key, ms[j].key); }
      }
      LookupBelowAll(ms, key);
      assert r[1..] == ms;
    } else if key == ms[0].key {
      assert r[1..] == ms[1..];
    } else {
      BelowTrichotomy(key, ms[0].key);
      InsertIsAssignment(ms[1..], key, value);
      var rest := Insert(ms[1..], key, value);
      assert r[1..] == rest;
      forall j | 0 < j < |r| ensures Below(r[0].key, r[j].key) {
        assert r[j] == rest[j - 1] && rest[j - 1] in rest;
      }
    }
  }

  /** Keys that arrive in order are appended. */
  lemma {:induction false} InsertLast(ms: seq<Member>, key: bytes, value: Json)
    requires forall j :: 0 <= j < |ms| ==> Below(ms[j].key, key)
    ensures Insert(ms, key, value) == ms + [Member(key, value)]
  {
    if ms != [] {
      BelowTrichotomy(ms[0].key, key);
      InsertLast(ms[1..], key, value);
      assert ms == [ms[0]] + ms[1..];
    }
  }
}

/** `operator==` and `operator<` on JSON values. */
module JsonOrder {
  import opened Bytes
  import opened JsonValue

  /** The order of `Json::Type`. */
  function Tag(v: Json): nat {
    match v
    case Null => 0
    case Int(_) => 1
    case Dbl(_) => 1
    case Bool(_) => 2
    case Str(_) => 3
    case Arr(_) => 4
    case Obj(_) => 5
  }

  /** `number_value()` */
  function NumberValue(v: Json): Double
    requires v.Int? || v.Dbl?
  {
    if v.Int? then Finite(v.n as real) else v.d
  }

  /** `==` on doubles */
  predicate DoubleEqual(a: Double, b: Double) {
    !a.NaN? && a == b
  }

  /** `<` on doubles */
  predicate DoubleLess(a: Double, b: Double) {
    match (a, b)
    case (NegInfinity, Finite(_)) => true
    case (NegInfinity, PosInfinity) => true
    case (Finite(x), Finite(y)) => x < y
    case (Finite(_), PosInfinity) => true
    case (_, _) => false
  }

  /** Which values sit behind the same pointer. Two values behind one pointer are the same value. The relation is
      between values, not between places: all places that hold the same value share alike. */
  type Sharing = (Json, Json) -> bool

  ghost predicate Sound(same: Sharing) {
    forall a, b :: same(a, b) ==> a == b
  }

  const NEVER: Sharing := (a, b) => false

  ghost function Size(v: Json): nat {
    match v
    case Arr(items) => 1 + ItemsSize(items)
    case Obj(ms) => 1 + MembersSize(ms)
    case _ => 1
  }

  ghost function ItemsSize(s: seq<Json>): nat {
    if s == [] then 0 else 1 + Size(s[0]) + ItemsSize(s[1..])
  }

  ghost function MembersSize(s: seq<Member>): nat {
    if s == [] then 0 else 2 + Size(s[0].value) + MembersSize(s[1..])
  }

  /** `Json::operator==` with its pointer shortcut. */
  predicate Equal(same: Sharing, a: Json, b: Json)
    decreases Size(a) + Size(b)
  {
    same(a, b) ||
    (Tag(a) == Tag(b) &&
     match a
     case Null => true
     case Int(_) => DoubleEqual(NumberValue(a), NumberValue(b))
     case Dbl(_) => DoubleEqual(NumberValue(a), NumberValue(b))
     case Bool(x) => x == b.b
     case Str(x) => x == b.s
     case Arr(x) => EqualItems(same, x, b.items)
     case Obj(x) => EqualMembers(same, x, b.members))
  }

  predicate EqualItems(same: Sharing, a: seq<Json>, b: seq<Json>)
    decreases ItemsSize(a) + ItemsSize(b)
  {
    if a == [] || b == [] then a == b
    else Equal(same, a[0], b[0]) && EqualItems(same, a[1..], b[1..])
  }

  predicate EqualMembers(same: Sharing, a: seq<Member>, b: seq<Member>)
    decreases MembersSize(a) + MembersSize(b)
  {
    if a == [] || b == [] then a == b
    else a[0].key == b[0].key && Equal(same, a[0].value, b[0].value) && EqualMembers(same, a[1..], b[1..])
  }

  /** `Json::operator<` with its pointer shortcut. */
  predicate Less(same: Sharing, a: Json, b: Json)
    decreases Size(a) + Size(b)
  {
    !same(a, b) &&
    if Tag(a) != Tag(b) then Tag(a) < Tag(b)
    else
      match a
      case Null => false
      case Int(_) => DoubleLess(NumberValue(a), NumberValue(b))
      case Dbl(_) => DoubleLess(NumberValue(a), NumberValue(b))
      case Bool(x) => !x && b.b
      case Str(x) => Below(x, b.s)
      case Arr(x) => LessItems(same, x, b.items)
      case Obj(x) => LessMembers(same, x, b.members)
  }

  /** `std::lexicographical_compare` */
  predicate LessItems(same: Sharing, a: seq<Json>, b: seq<Json>)
    decreases ItemsSize(a) + ItemsSize(b)
  {
    b != [] &&
    (a == [] || Less(same, a[0], b[0]) || (!Less(same, b[0], a[0]) && LessItems(same, a[1..], b[1..])))
  }

  predicate LessMembers(same: Sharing, a: seq<Member>, b: seq<Member>)
    decreases MembersSize(a) + MembersSize(b)
  {
    b != [] &&
    (a == [] || LessPair(same, a[0], b[0]) || (!LessPair(same, b[0], a[0]) && LessMembers(same, a[1..], b[1..])))
  }

  /** `std::pair::operator<` */
  predicate LessPair(same: Sharing, a: Member, b: Member)
    decreases Size(a.value) + Size(b.value) + 1
  {
    Below(a.key, b.key) || (!Below(b.key, a.key) && Less(same, a.value, b.value))
  }

  ghost predicate NaNFree(v: Json) {
    match v
    case Dbl(d) => !d.NaN?
    case Arr(items) => forall k :: 0 <= k < |items| ==> NaNFree(items[k])
    case Obj(ms) => forall k :: 0 <= k < |ms| ==> NaNFree(ms[k].value)
    case _ => true
  }

  ghost predicate NaNFreeItems(s: seq<Json>) {
    forall k :: 0 <= k < |s| ==> NaNFree(s[k])
  }

  ghost predicate NaNFreeMembers(s: seq<Member>) {
    forall k :: 0 <= k < |s| ==> NaNFree(s[k].value)
  }

  /** Without sharing, a value equals itself exactly when no NaN is buried in it; it is never below itself. */
  lemma {:induction false} SelfComparison(v: Json)
    ensures Equal(NEVER, v, v) <==> NaNFree(v)
    ensures !Less(NEVER, v, v)
    decreases v
  {
    match v
    case Arr(items) => SelfComparisonItems(items);
    case Obj(ms) => SelfComparisonMembers(ms);
    case Str(s) => BelowTrichotomy(s, s);
    case _ =>
  }

  lemma {:induction false} SelfComparisonItems(s: seq<Json>)
    ensures EqualItems(NEVER, s, s) <==> NaNFreeItems(s)
    ensures !LessItems(NEVER, s, s)
    decreases s
  {
    if s != [] {
      SelfComparison(s[0]);
      SelfComparisonItems(s[1..]);
      assert forall k :: 0 < k < |s| ==> s[k] == s[1..][k - 1];
    }
  }

  lemma {:induction false} SelfComparisonMembers(s: seq<Member>)
    ensures EqualMembers(NEVER, s, s) <==> NaNFreeMembers(s)
    ensures !LessMembers(NEVER, s, s)
    decreases s
  {
    if s != [] {
      BelowTrichotomy(s[0].key, s[0].key);
      SelfComparison(s[0].value);
      SelfComparisonMembers(s[1..]);
      assert forall k :: 0 < k < |s| ==> s[k] == s[1..][k - 1];
    }
  }

  /** No pattern of sharing shows through: not in `<`, and in `==` only where both sides hold a NaN. */
  lemma {:induction false} SharingUnobservable(same: Sharing, a: Json, b: Json)
    requires Sound(same)
    ensures Less(same, a, b) <==> Less(NEVER, a, b)
    ensures NaNFree(a) || NaNFree(b) ==> (Equal(same, a, b) <==> Equal(NEVER, a, b))
    decreases Size(a) + Size(b)
  {
    if same(a, b) {
      SelfComparison(a);
    } else if a.Arr? && b.Arr? {
      SharingUnobservableItems(same, a.items, b.items);
    } else if a.Obj? && b.Obj? {
      SharingUnobservableMembers(same, a.members, b.members);
    }
  }

  lemma {:induction false} SharingUnobservableItems(same: Sharing, a: seq<Json>, b: seq<Json>)
    requires Sound(same)
    ensures LessItems(same, a, b) <==> LessItems(NEVER, a, b)
    ensures NaNFreeItems(a) || NaNFreeItems(b) ==> (EqualItems(same, a, b) <==> EqualItems(NEVER, a, b))
    decreases ItemsSize(a) + ItemsSize(b)
  {
    if a != [] && b != [] {
      SharingUnobservable(same, a[0], b[0]);
      SharingUnobservable(same, b[0], a[0]);
      SharingUnobservableItems(same, a[1..], b[1..]);
    }
  }

  lemma {:induction false} SharingUnobservableMembers(same: Sharing, a: seq<Member>, b: seq<Member>)
    requires Sound(same)
    ensures LessMembers(same, a, b) <==> LessMembers(NEVER, a, b)
    ensures NaNFreeMembers(a) || NaNFreeMembers(b) ==> (EqualMembers(same, a, b) <==> EqualMembers(NEVER, a, b))
    decreases MembersSize(a) + MembersSize(b)
  {
    if a != [] && b != [] {
      SharingUnobservable(same, a[0].value, b[0].value);
      SharingUnobservable(same, b[0].value, a[0].value);
      SharingUnobservableMembers(same, a[1..], b[1..]);
    }
  }

  /** On a value against itself, a NaN inside is exactly what makes the shortcut visible. */
  lemma SharingObservableIffNaN(v: Json)
    ensures NaNFree(v) <==> forall same: Sharing :: Sound(same) ==> (Equal(same, v, v) <==> Equal(NEVER, v, v))
  {
    if NaNFree(v) {
      forall same: Sharing | Sound(same) ensures Equal(same, v, v) <==> Equal(NEVER, v, v) {
        SharingUnobservable(same, v, v);
      }
    } else {
      SelfComparison(v);
      var self: Sharing := (a, b) => a == v && b == v;
      assert Sound(self) && Equal(self, v, v);
    }
  }

  /** The more is shared, the more is equal. */
  lemma {:induction false} SharingGrows(less: Sharing, more: Sharing, a: Json, b: Json)
    requires forall x, y :: less(x, y) ==> more(x, y)
    ensures Equal(less, a, b) ==> Equal(more, a, b)
    decreases Size(a) + Size(b)
  {
    if a.Arr? && b.Arr? {
      SharingGrowsItems(less, more, a.items, b.items);
    } else if a.Obj? && b.Obj? {
      SharingGrowsMembers(less, more, a.members, b.members);
    }
  }

  lemma {:induction false} SharingGrowsItems(less: Sharing, more: Sharing, a: seq<Json>, b: seq<Json>)
    requires forall x, y :: less(x, y) ==> more(x, y)
    ensures EqualItems(less, a, b) ==> EqualItems(more, a, b)
    decreases ItemsSize(a) + ItemsSize(b)
  {
    if a != [] && b != [] {
      SharingGrows(less, more, a[0], b[0]);
      SharingGrowsItems(less, more, a[1..], b[1..]);
    }
  }

  lemma {:induction false} SharingGrowsMembers(less: Sharing, more: Sharing, a: seq<Member>, b: seq<Member>)
    requires forall x, y :: less(x, y) ==> more(x, y)
    ensures EqualMembers(less, a, b) ==> EqualMembers(more, a, b)
    decreases MembersSize(a) + MembersSize(b)
  {
    if a != [] && b != [] {
      SharingGrows(less, more, a[0].value, b[0].value);
      SharingGrowsMembers(less, more, a[1..], b[1..]);
    }
  }

  /** Everything that is the same value is shared. */
  const ALWAYS: Sharing := (a, b) => a == b

  /** On any two values: sharing can show in `==` exactly when they compare equal with everything shared and unequal
      with nothing shared. */
  lemma SharingObservableExactly(a: Json, b: Json)
    ensures (forall same: Sharing :: Sound(same) ==> (Equal(same, a, b) <==> Equal(NEVER, a, b)))
            <==> (Equal(ALWAYS, a, b) ==> Equal(NEVER, a, b))
  {
    assert Sound(ALWAYS);
    forall same: Sharing | Sound(same) ensures Equal(NEVER, a, b) ==> Equal(same, a, b)
      ensures Equal(same, a, b) ==> Equal(ALWAYS, a, b)
    {
      SharingGrows(NEVER, same, a, b);
      SharingGrows(same, ALWAYS, a, b);
    }
  }

  /** Exactly one of below, equal, above. */
  ghost predicate ExactlyOne(p: bool, q: bool, r: bool) {
    (p && !q && !r) || (!p && q && !r) || (!p && !q && r)
  }

  lemma {:induction false} Trichotomy(a: Json, b: Json)
    requires NaNFree(a) && NaNFree(b)
    ensures ExactlyOne(Less(NEVER, a, b), Equal(NEVER, a, b), Less(NEVER, b, a))
    decreases Size(a) + Size(b)
  {
    if Tag(a) == Tag(b) {
      match a
      case Str(s) => BelowTrichotomy(s, b.s);
      case Arr(items) => TrichotomyItems(items, b.items);
      case Obj(ms) => TrichotomyMembers(ms, b.members);
      case _ =>
    }
  }

  lemma {:induction false} TrichotomyItems(a: seq<Json>, b: seq<Json>)
    requires NaNFreeItems(a) && NaNFreeItems(b)
    ensures ExactlyOne(LessItems(NEVER, a, b), EqualItems(NEVER, a, b), LessItems(NEVER, b, a))
    decreases ItemsSize(a) + ItemsSize(b)
  {
    if a != [] && b != [] {
      Trichotomy(a[0], b[0]);
      TrichotomyItems(a[1..], b[1..]);
    }
  }

  lemma {:induction false} TrichotomyMembers(a: seq<Member>, b: seq<Member>)
    requires NaNFreeMembers(a) && NaNFreeMembers(b)
    ensures ExactlyOne(LessMembers(NEVER, a, b), EqualMembers(NEVER, a, b), LessMembers(NEVER, b, a))
    decreases MembersSize(a) + MembersSize(b)
  {
    if a != [] && b != [] {
      BelowTrichotomy(a[0].key, b[0].key);
      Trichotomy(a[0].value, b[0].value);
      TrichotomyMembers(a[1..], b[1..]);
    }
  }

  ghost predicate AtMost(a: Json, b: Json) {
    Less(NEVER, a, b) || Equal(NEVER, a, b)
  }

  /** Transitive, and strictly so as soon as one step is strict; hence equals may replace equals. */
  lemma {:induction false} Transitive(a: Json, b: Json, c: Json)
    requires NaNFree(a) && NaNFree(b) && NaNFree(c)
    requires AtMost(a, b) && AtMost(b, c)
    ensures AtMost(a, c)
    ensures Less(NEVER, a, b) || Less(NEVER, b, c) ==> Less(NEVER, a, c)
    decreases Size(a) + Size(b) + Size(c), 0
  {
    if Tag(a) == Tag(b) == Tag(c) {
      match a
      case Str(s) =>
        if Below(s, b.s) && Below(b.s, c.s) { BelowTransitive(s, b.s, c.s); }
      case Arr(items) => TransitiveItems(items, b.items, c.items);
      case Obj(ms) => TransitiveMembers(ms, b.members, c.members);
      case _ =>
    }
  }

  lemma {:induction false} TransitiveItems(a: seq<Json>, b: seq<Json>, c: seq<Json>)
    requires NaNFreeItems(a) && NaNFreeItems(b) && NaNFreeItems(c)
    requires LessItems(NEVER, a, b) || EqualItems(NEVER, a, b)
    requires LessItems(NEVER, b, c) || EqualItems(NEVER, b, c)
    ensures LessItems(NEVER, a, c) || EqualItems(NEVER, a, c)
    ensures LessItems(NEVER, a, b) || LessItems(NEVER, b, c) ==> LessItems(NEVER, a, c)
    decreases ItemsSize(a) + ItemsSize(b) + ItemsSize(c)
  {
    if a != [] && b != [] && c != [] {
      Trichotomy(a[0], b[0]);
      Trichotomy(b[0], c[0]);
      Transitive(a[0], b[0], c[0]);
      Trichotomy(a[0], c[0]);
      if Equal(NEVER, a[0], b[0]) && Equal(NEVER, b[0], c[0]) {
        TransitiveItems(a[1..], b[1..], c[1..]);
        SwapChain(a[0], b[0], c[0]);
      }
    }
  }

  lemma {:induction false} TransitiveMembers(a: seq<Member>, b: seq<Member>, c: seq<Member>)
    requires NaNFreeMembers(a) && NaNFreeMembers(b) && NaNFreeMembers(c)
    requires LessMembers(NEVER, a, b) || EqualMembers(NEVER, a, b)
    requires LessMembers(NEVER, b, c) || EqualMembers(NEVER, b, c)
    ensures LessMembers(NEVER, a, c) || EqualMembers(NEVER, a, c)
    ensures LessMembers(NEVER, a, b) || LessMembers(NEVER, b, c) ==> LessMembers(NEVER, a, c)
    decreases MembersSize(a) + MembersSize(b) + MembersSize(c)
  {
    if a != [] && b != [] && c != [] {
      var x, y, z := a[0], b[0], c[0];
      BelowTrichotomy(x.key, y.key);
      BelowTrichotomy(y.key, z.key);
      BelowTrichotomy(x.key, z.key);
      if Below(x.key, y.key) && Below(y.key, z.key) {
        BelowTransitive(x.key, y.key, z.key);
      } else if x.key == y.key == z.key {
        Trichotomy(x.value, y.value);
        Trichotomy(y.value, z.value);
        Transitive(x.value, y.value, z.value);
        Trichotomy(x.value, z.value);
        if Equal(NEVER, x.value, y.value) && Equal(NEVER, y.value, z.value) {
          TransitiveMembers(a[1..], b[1..], c[1..]);
          SwapChain(x.value, y.value, z.value);
        }
      }
    }
  }

  /** Two equal steps make an equal step. */
  lemma {:induction false} SwapChain(a: Json, b: Json, c: Json)
    requires NaNFree(a) && NaNFree(b) && NaNFree(c)
    requires Equal(NEVER, a, b) && Equal(NEVER, b, c)
    ensures Equal(NEVER, a, c)
    decreases Size(a) + Size(b) + Size(c), 1
  {
    Trichotomy(a, b);
    Trichotomy(b, a);
    Trichotomy(b, c);
    Trichotomy(c, b);
    Transitive(a, b, c);
    Transitive(c, b, a);
    Trichotomy(a, c);
    Trichotomy(c, a);
  }

  lemma Settled(same: Sharing, a: Json, b: Json)
    requires Sound(same) && NaNFree(a) && NaNFree(b)
    ensures ExactlyOne(Less(same, a, b), Equal(same, a, b), Less(same, b, a))
    ensures Equal(same, a, b) <==> Equal(same, b, a)
  {
    SharingUnobservable(same, a, b);
    SharingUnobservable(same, b, a);
    Trichotomy(a, b);
    Trichotomy(b, a);
  }

  lemma Chained(same: Sharing, a: Json, b: Json, c: Json)
    requires Sound(same) && NaNFree(a) && NaNFree(b) && NaNFree(c)
    ensures Less(same, a, b) && Less(same, b, c) ==> Less(same, a, c)
    ensures Less(same, a, b) && Equal(same, b, c) ==> Less(same, a, c)
    ensures Equal(same, a, b) && Less(same, b, c) ==> Less(same, a, c)
    ensures Equal(same, a, b) && Equal(same, b, c) ==> Equal(same, a, c)
  {
    SharingUnobservable(same, a, b);
    SharingUnobservable(same, b, c);
    SharingUnobservable(same, a, c);
    if AtMost(a, b) && AtMost(b, c) {
      Transitive(a, b, c);
    }
    if Equal(NEVER, a, b) && Equal(NEVER, b, c) {
      SwapChain(a, b, c);
    }
  }

  /** On NaN-free values, whatever is shared: a total order whose equality is `operator==`. */
  lemma TotalOrder(same: Sharing, a: Json, b: Json, c: Json)
    requires Sound(same) && NaNFree(a) && NaNFree(b) && NaNFree(c)
    ensures ExactlyOne(Less(same, a, b), Equal(same, a, b), Less(same, b, a))
    ensures Equal(same, a, b) <==> Equal(same, b, a)
    ensures Less(same, a, b) && Less(same, b, c) ==> Less(same, a, c)
    ensures Equal(same, a, b) && Equal(same, b, c) ==> Equal(same, a, c)
    ensures Equal(same, a, b) ==> (Less(same, a, c) <==> Less(same, b, c)) && (Less(same, c, a) <==> Less(same, c, b))
  {
    Settled(same, a, b);
    Chained(same, a, b, c);
    Chained(same, b, a, c);
    Chained(same, c, a, b);
    Chained(same, c, b, a);
  }

  // ----- what the comparison says

  /** The order of the kinds: null, number, bool, string, array, object. */
  predicate KindBefore(a: Json, b: Json) {
    var number := a.Int? || a.Dbl?;
    || (a.Null? && !b.Null?)
    || (number && (b.Bool? || b.Str? || b.Arr? || b.Obj?))
    || (a.Bool? && (b.Str? || b.Arr? || b.Obj?))
    || (a.Str? && (b.Arr? || b.Obj?))
    || (a.Arr? && b.Obj?)
  }

  lemma KindsExactly(a: Json, b: Json)
    ensures KindBefore(a, b) ==> Less(NEVER, a, b) && !Less(NEVER, b, a) && !Equal(NEVER, a, b)
    ensures KindBefore(a, b) || KindBefore(b, a) ||
            (a.Null? == b.Null? && a.Bool? == b.Bool? && a.Str? == b.Str? && a.Arr? == b.Arr? && a.Obj? == b.Obj?)
  {
  }

  /** Numbers compare as numbers, ints with doubles; false is below true; strings compare bytewise. */
  lemma ScalarsExactly(m: int, n: int, x: real, y: real, p: bool, q: bool, s: bytes, t: bytes)
    ensures Less(NEVER, Int(m), Int(n)) <==> m < n
    ensures Less(NEVER, Int(m), Dbl(Finite(x))) <==> m as real < x
    ensures Less(NEVER, Dbl(Finite(x)), Int(m)) <==> x < m as real
    ensures Less(NEVER, Dbl(Finite(x)), Dbl(Finite(y))) <==> x < y
    ensures Less(NEVER, Dbl(NegInfinity), Int(m)) && Less(NEVER, Dbl(NegInfinity), Dbl(Finite(x)))
    ensures Less(NEVER, Int(m), Dbl(PosInfinity)) && Less(NEVER, Dbl(Finite(x)), Dbl(PosInfinity))
    ensures Less(NEVER, Dbl(NegInfinity), Dbl(PosInfinity))
    ensures Less(NEVER, Bool(p), Bool(q)) <==> !p && q
    ensures Less(NEVER, Str(s), Str(t)) <==> exists k :: FirstDifference(s, t, k)
    ensures Equal(NEVER, Int(m), Int(n)) <==> m == n
    ensures Equal(NEVER, Int(m), Dbl(Finite(x))) <==> m as real == x
    ensures Equal(NEVER, Bool(p), Bool(q)) <==> p == q
    ensures Equal(NEVER, Str(s), Str(t)) <==> s == t
  {
    BelowExactly(s, t);
    hide Below;
  }

  /** Every comparison with a NaN is false. */
  lemma NaNIsUnordered(v: Json)
    requires v.Int? || v.Dbl?
    ensures !Less(NEVER, Dbl(NaN), v) && !Less(NEVER, v, Dbl(NaN)) && !Equal(NEVER, Dbl(NaN), v)
  {
  }

  /** Neither comes before the other. */
  predicate Level(a: Json, b: Json) {
    !Less(NEVER, a, b) && !Less(NEVER, b, a)
  }

  /** `k` is where the array `a` shows that it comes before `b`. */
  ghost predicate FirstItem(a: seq<Json>, b: seq<Json>, k: nat) {
    k <= |a| && k < |b| && (forall i :: 0 <= i < k ==> Level(a[i], b[i])) && (k == |a| || Less(NEVER, a[k], b[k]))
  }

  lemma FirstItemBehind(a: seq<Json>, b: seq<Json>, k: nat)
    requires a != [] && b != []
    ensures FirstItem(a, b, k + 1) <==> Level(a[0], b[0]) && FirstItem(a[1..], b[1..], k)
    ensures FirstItem(a, b, 0) <==> Less(NEVER, a[0], b[0])
  {
    hide Less;
    var x, y := a[1..], b[1..];
    assert forall i :: 0 < i < |a| ==> a[i] == x[i - 1];
    assert forall i :: 0 < i < |b| ==> b[i] == y[i - 1];
    if FirstItem(a, b, k + 1) {
      forall i | 0 <= i < k ensures Level(x[i], y[i]) {
        assert Level(a[i + 1], b[i + 1]);
      }
    }
  }

  lemma {:induction false} ArraysBefore(a: seq<Json>, b: seq<Json>)
    ensures LessItems(NEVER, a, b) <==> exists k :: FirstItem(a, b, k)
    decreases a
  {
    hide Less;
    if a != [] && b != [] {
      ArraysBefore(a[1..], b[1..]);
      FirstItemBehind(a, b, 0);
      hide FirstItem;
      if k: nat :| FirstItem(a[1..], b[1..], k) {
        FirstItemBehind(a, b, k);
      }
      if k: nat :| FirstItem(a, b, k) {
        if k > 0 { FirstItemBehind(a, b, k - 1); }
      }
    } else if a == [] && b != [] {
      assert FirstItem(a, b, 0);
    }
  }

  lemma {:induction false} ArraysEqual(a: seq<Json>, b: seq<Json>)
    ensures EqualItems(NEVER, a, b) <==> |a| == |b| && forall i :: 0 <= i < |a| ==> Equal(NEVER, a[i], b[i])
    decreases a
  {
    hide Equal;
    if a != [] && b != [] {
      ArraysEqual(a[1..], b[1..]);
      assert forall i :: 0 < i < |a| ==> a[i] == a[1..][i - 1];
      assert forall i :: 0 < i < |b| ==> b[i] == b[1..][i - 1];
    }
  }

  /** Arrays compare at their first difference, and are equal item by item. */
  lemma ArraysExactly(a: seq<Json>, b: seq<Json>)
    ensures Less(NEVER, Arr(a), Arr(b)) <==> exists k :: FirstItem(a, b, k)
    ensures Equal(NEVER, Arr(a), Arr(b)) <==> |a| == |b| && forall i :: 0 <= i < |a| ==> Equal(NEVER, a[i], b[i])
  {
    ArraysBefore(a, b);
    ArraysEqual(a, b);
  }

  /** Members compare by key first. */
  predicate MemberBefore(a: Member, b: Member) {
    Below(a.key, b.key) || (a.key == b.key && Less(NEVER, a.value, b.value))
  }

  ghost predicate FirstMember(a: seq<Member>, b: seq<Member>, k: nat) {
    && k <= |a| && k < |b|
    && (forall i :: 0 <= i < k ==> !MemberBefore(a[i], b[i]) && !MemberBefore(b[i], a[i]))
    && (k == |a| || MemberBefore(a[k], b[k]))
  }

  lemma PairExactly(a: Member, b: Member)
    ensures LessPair(NEVER, a, b) <==> MemberBefore(a, b)
  {
    hide Less, Below;
    BelowTrichotomy(a.key, b.key);
  }

  lemma FirstMemberBehind(a: seq<Member>, b: seq<Member>, k: nat)
    requires a != [] && b != []
    ensures FirstMember(a, b, k + 1) <==>
            !MemberBefore(a[0], b[0]) && !MemberBefore(b[0], a[0]) && FirstMember(a[1..], b[1..], k)
    ensures FirstMember(a, b, 0) <==> MemberBefore(a[0], b[0])
  {
    hide MemberBefore;
    var x, y := a[1..], b[1..];
    assert forall i :: 0 < i < |a| ==> a[i] == x[i - 1];
    assert forall i :: 0 < i < |b| ==> b[i] == y[i - 1];
    if FirstMember(a, b, k + 1) {
      forall i | 0 <= i < k ensures !MemberBefore(x[i], y[i]) && !MemberBefore(y[i], x[i]) {
        assert !MemberBefore(a[i + 1], b[i + 1]) && !MemberBefore(b[i + 1], a[i + 1]);
      }
    }
  }

  lemma {:induction false} ObjectsBefore(a: seq<Member>, b: seq<Member>)
    ensures LessMembers(NEVER, a, b) <==> exists k :: FirstMember(a, b, k)
    decreases a
  {
    hide LessPair, MemberBefore;
    if a != [] && b != [] {
      ObjectsBefore(a[1..], b[1..]);
      PairExactly(a[0], b[0]);
      PairExactly(b[0], a[0]);
      FirstMemberBehind(a, b, 0);
      hide FirstMember;
      if k: nat :| FirstMember(a[1..], b[1..], k) {
        FirstMemberBehind(a, b, k);
      }
      if k: nat :| FirstMember(a, b, k) {
        if k > 0 { FirstMemberBehind(a, b, k - 1); }
      }
    } else if a == [] && b != [] {
      assert FirstMember(a, b, 0);
    }
  }

  lemma {:induction false} ObjectsEqual(a: seq<Member>, b: seq<Member>)
    ensures EqualMembers(NEVER, a, b) <==>
            |a| == |b| && forall i :: 0 <= i < |a| ==> a[i].key == b[i].key && Equal(NEVER, a[i].value, b[i].value)
    decreases a
  {
    hide Equal;
    if a != [] && b != [] {
      ObjectsEqual(a[1..], b[1..]);
      assert forall i :: 0 < i < |a| ==> a[i] == a[1..][i - 1];
      assert forall i :: 0 < i < |b| ==> b[i] == b[1..][i - 1];
    }
  }

  /** Objects compare at their first different member, and are equal key by key and value by value. */
  lemma ObjectsExactly(a: seq<Member>, b: seq<Member>)
    ensures Less(NEVER, Obj(a), Obj(b)) <==> exists k :: FirstMember(a, b, k)
    ensures Equal(NEVER, Obj(a), Obj(b)) <==>
            |a| == |b| && forall i :: 0 <= i < |a| ==> a[i].key == b[i].key && Equal(NEVER, a[i].value, b[i].value)
  {
    ObjectsBefore(a, b);
    ObjectsEqual(a, b);
  }
}
