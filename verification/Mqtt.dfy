/** Requests and their answers over one MQTT connection: threads that call `sendRequest` against the message callback,
    every interleaving of the steps that the response mutex makes atomic. */
module Mqtt {
  import opened Bytes
  import opened JsonValue
  import opened JsonGrammar
  import JsonReader
  import JsonOrder
  import JsonPrinter
  import Decimal

  // ----- ids

  const KEY_ID: bytes := [0x69, 0x64]
  const KEY_JSONRPC: bytes := [0x6A, 0x73, 0x6F, 0x6E, 0x72, 0x70, 0x63]
  const KEY_METHOD: bytes := [0x6D, 0x65, 0x74, 0x68, 0x6F, 0x64]
  const KEY_PARAMS: bytes := [0x70, 0x61, 0x72, 0x61, 0x6D, 0x73]
  const RPC_VERSION: bytes := [0x32, 0x2E, 0x30]
  const ID_PREFIX: bytes := [0x72, 0x65, 0x71, 0x5F]

  /** `json["id"].string_value()`: empty for anything that is not a string found in an object. */
  function IdOf(v: Json): bytes {
    if !v.Obj? then []
    else
      match Lookup(v.members, KEY_ID)
      case Some(Str(s)) => s
      case _ => []
  }

  /** The id the callback reads from a message; empty when the message does not parse. */
  function IdIn(payload: bytes): bytes {
    match JsonReader.Parse(payload, Standard)
    case None => []
    case Some(v) => IdOf(v)
  }

  /** `generateRequestId` at counter value `n`. */
  function RequestId(n: int): bytes {
    ID_PREFIX + Decimal.Signed(n)
  }

  /** Different counter values, different ids, and none empty. */
  lemma RequestIdsDiffer(m: int, n: int)
    ensures RequestId(m) != []
    ensures RequestId(m) == RequestId(n) ==> m == n
  {
    hide Decimal.Signed;
    assert RequestId(m)[4..] == Decimal.Signed(m) && RequestId(n)[4..] == Decimal.Signed(n);
    if RequestId(m) == RequestId(n) {
      Decimal.SignedInjective(m, n);
    }
  }

  /** The request object of `sendRequest`, its members in key order. */
  function Request(id: bytes, name: bytes, params: Json): Json {
    Obj([Member(KEY_ID, Str(id)), Member(KEY_JSONRPC, Str(RPC_VERSION)), Member(KEY_METHOD, Str(name)),
         Member(KEY_PARAMS, params)])
  }

  lemma KeysInOrder(id: bytes, name: bytes, params: Json)
    ensures KeyOrdered(Request(id, name, params).members)
  {
    var ms := Request(id, name, params).members;
    forall i, j | 0 <= i < j < 4 ensures Below(ms[i].key, ms[j].key) {
      assert ms[i].key[0] < ms[j].key[0];
    }
  }

  lemma MembersFrom(ms: seq<Member>, k: nat)
    requires k < |ms|
    ensures JsonPrinter.PrintableMembers(ms[k..])
            <==> JsonPrinter.Printable(ms[k].value) && JsonPrinter.PrintableMembers(ms[k + 1..])
    ensures JsonPrinter.MembersDepth(ms[k..])
            == Max(JsonPrinter.Depth(ms[k].value), JsonPrinter.MembersDepth(ms[k + 1..]))
  {
    hide JsonPrinter.Printable, JsonPrinter.Depth;
    assert ms[k..][1..] == ms[k + 1..];
  }

  lemma FourMembers(ms: seq<Member>)
    requires |ms| == 4 && JsonPrinter.Printable(ms[3].value)
    requires ms[0].value.Str? && ms[1].value.Str? && ms[2].value.Str?
    ensures JsonPrinter.PrintableMembers(ms) && JsonPrinter.MembersDepth(ms) == JsonPrinter.Depth(ms[3].value)
  {
    MembersFrom(ms, 0);
    MembersFrom(ms, 1);
    MembersFrom(ms, 2);
    MembersFrom(ms, 3);
    assert ms[0..] == ms && ms[4..] == [];
  }

  lemma FirstIsId(ms: seq<Member>)
    requires ms != [] && JsonPrinter.PrintableMembers(ms) && ms[0].key == KEY_ID && ms[0].value.Str?
    ensures IdOf(JsonPrinter.Reread(Obj(ms))) == ms[0].value.s
  {
    assert JsonPrinter.Reread(ms[0].value) == ms[0].value;
    assert JsonPrinter.RereadMembers(ms)[0] == Member(KEY_ID, ms[0].value);
  }

  /** A peer that parses the request finds its id, as long as the parameters leave a level of nesting to spare;
      deeper parameters, which the client itself can still parse, make a request that does not parse. */
  lemma RequestCarriesId(id: bytes, name: bytes, params: Json)
    requires JsonPrinter.Printable(params) && WellFormed(params) && id != []
    ensures JsonPrinter.Printable(Request(id, name, params))
    ensures IdIn(JsonPrinter.Dump(Request(id, name, params))) == id <==> JsonPrinter.Depth(params) < MAX_DEPTH
  {
    hide JsonReader.Parse, KeyOrdered;
    var ms := Request(id, name, params).members;
    FourMembers(ms);
    FirstIsId(ms);
    KeysInOrder(id, name, params);
    JsonPrinter.RoundTrip(Request(id, name, params), Standard);
  }

  /** What the peer finds in the object it reads: four members, with the id, the version, the method and the parameters,
      which equal those given exactly when their doubles are finite. */
  ghost predicate ReadsAsRequest(r: Json, id: bytes, name: bytes, params: Json) {
    && r.Obj? && |r.members| == 4
    && (forall key :: Lookup(r.members, key).Some? <==>
          key in [Ascii("id"), Ascii("jsonrpc"), Ascii("method"), Ascii("params")])
    && Lookup(r.members, Ascii("id")) == Some(Str(id))
    && Lookup(r.members, Ascii("jsonrpc")) == Some(Str(Ascii("2.0")))
    && Lookup(r.members, Ascii("method")) == Some(Str(name))
    && var found := Lookup(r.members, Ascii("params"));
       found.Some? && (JsonOrder.Equal(JsonOrder.NEVER, found.value, params) <==> JsonPrinter.Finites(params))
  }

  lemma KeysSpelled()
    ensures Ascii("id") == KEY_ID && Ascii("jsonrpc") == KEY_JSONRPC
    ensures Ascii("method") == KEY_METHOD && Ascii("params") == KEY_PARAMS
    ensures Ascii("2.0") == RPC_VERSION && Ascii("req_") == ID_PREFIX
    ensures [KEY_ID[0], KEY_JSONRPC[0], KEY_METHOD[0], KEY_PARAMS[0]] == [105, 106, 109, 112]
  {
  }

  lemma LookupFrom(ms: seq<Member>, k: nat, key: bytes)
    requires k < |ms|
    ensures Lookup(ms[k..], key) == if ms[k].key == key then Some(ms[k].value) else Lookup(ms[k + 1..], key)
  {
    assert ms[k..][1..] == ms[k + 1..];
  }

  lemma LookupInFour(ms: seq<Member>, key: bytes)
    requires |ms| == 4
    ensures Lookup(ms, key) == if ms[0].key == key then Some(ms[0].value)
                               else if ms[1].key == key then Some(ms[1].value)
                               else if ms[2].key == key then Some(ms[2].value)
                               else if ms[3].key == key then Some(ms[3].value) else None
  {
    LookupFrom(ms, 0, key);
    LookupFrom(ms, 1, key);
    LookupFrom(ms, 2, key);
    LookupFrom(ms, 3, key);
    assert ms[0..] == ms && ms[4..] == [];
  }

  lemma {:induction false} RereadAt(ms: seq<Member>, k: nat)
    requires JsonPrinter.PrintableMembers(ms) && k < |ms|
    ensures JsonPrinter.Printable(ms[k].value)
    ensures JsonPrinter.RereadMembers(ms)[k] == Member(ms[k].key, JsonPrinter.Reread(ms[k].value))
  {
    hide JsonPrinter.Reread, JsonPrinter.Printable;
    if k > 0 {
      RereadAt(ms[1..], k - 1);
    }
  }

  lemma RereadOfObject(ms: seq<Member>)
    requires JsonPrinter.Printable(Obj(ms))
    ensures JsonPrinter.PrintableMembers(ms) && JsonPrinter.Reread(Obj(ms)) == Obj(JsonPrinter.RereadMembers(ms))
  {
  }

  lemma FoundByName(id: bytes, name: bytes, params: Json)
    requires JsonPrinter.Printable(params) && JsonPrinter.Printable(Request(id, name, params))
    ensures ReadsAsRequest(JsonPrinter.Reread(Request(id, name, params)), id, name, params)
  {
    hide JsonPrinter.Printable, JsonPrinter.RereadMembers, JsonPrinter.Finites, JsonOrder.Equal, Lookup, Ascii;
    var ms := Request(id, name, params).members;
    RereadOfObject(ms);
    var read := JsonPrinter.RereadMembers(ms);
    RereadAt(ms, 0);
    RereadAt(ms, 1);
    RereadAt(ms, 2);
    RereadAt(ms, 3);
    KeysSpelled();
    JsonPrinter.RereadEqual(params);
    forall key ensures Lookup(read, key).Some? <==>
        key in [Ascii("id"), Ascii("jsonrpc"), Ascii("method"), Ascii("params")]
    {
      LookupInFour(read, key);
    }
    LookupInFour(read, Ascii("id"));
    LookupInFour(read, Ascii("jsonrpc"));
    LookupInFour(read, Ascii("method"));
    LookupInFour(read, Ascii("params"));
  }

  /** A peer that parses the published text reads the request: it parses exactly when the parameters leave a level of
      nesting to spare, and then every member is what the caller asked for. */
  lemma RequestIsRead(id: bytes, name: bytes, params: Json)
    requires JsonPrinter.Printable(params) && WellFormed(params)
    ensures JsonPrinter.Printable(Request(id, name, params))
    ensures var read := JsonReader.Parse(JsonPrinter.Dump(Request(id, name, params)), Standard);
            && (read.Some? <==> JsonPrinter.Depth(params) < 200)
            && (read.Some? ==> ReadsAsRequest(read.value, id, name, params))
  {
    hide JsonReader.Parse, KeyOrdered, ReadsAsRequest;
    FourMembers(Request(id, name, params).members);
    KeysInOrder(id, name, params);
    JsonPrinter.RoundTrip(Request(id, name, params), Standard);
    FoundByName(id, name, params);
  }

  // ----- the threads

  /** Where a thread stands in `sendRequest`; `at` is the place in the log where it registered. */
  datatype Caller =
    | Idle
    | Registered(at: nat)   // about to publish
    | Waiting(at: nat)      // in `wait_for`
    | TimedOut(at: nat)     // has left the lock, about to clear the pending id without it

  datatype Event =
    | Register(id: bytes)
    | Publish(at: nat)
    | Arrive(payload: bytes)
    | Store(payload: bytes)
    | Hand(payload: bytes)              // to the message callback
    | Expire(at: nat)
    | Return(at: nat, response: Option<bytes>)

  datatype State = State(
    pending: bytes,
    response: bytes,
    received: bool,
    callers: seq<Caller>,
    inFlight: seq<bytes>,               // messages parsed, about to be compared under the lock
    log: seq<Event>)

  function Initial(callers: nat): State {
    State([], [], false, seq(callers, _ => Idle), [], [])
  }

  datatype Step =
    | Begin(c: nat, id: bytes)          // the first locked block
    | Send(c: nat)                      // publishMessage
    | Wake(c: nat)                      // `wait_for` found the flag set
    | GiveUp(c: nat)                    // `wait_for` timed out and found it clear
    | Forget(c: nat)                    // the clear after a timeout
    | Receive(payload: bytes)           // onMessageArrived, up to the lock
    | Compare(k: nat)                   // its locked block, for any message in flight

  predicate Enabled(s: State, step: Step) {
    match step
    case Begin(c, _) => c < |s.callers| && s.callers[c].Idle?
    case Send(c) => c < |s.callers| && s.callers[c].Registered?
    case Wake(c) => c < |s.callers| && s.callers[c].Waiting? && s.received
    case GiveUp(c) => c < |s.callers| && s.callers[c].Waiting? && !s.received
    case Forget(c) => c < |s.callers| && s.callers[c].TimedOut?
    case Receive(_) => true
    case Compare(k) => k < |s.inFlight|
  }

  function Do(s: State, step: Step): State
    requires Enabled(s, step)
  {
    match step
    case Begin(c, id) =>
      s.(pending := id, response := [], received := false,
         callers := s.callers[c := Registered(|s.log|)], log := s.log + [Register(id)])
    case Send(c) =>
      s.(callers := s.callers[c := Waiting(s.callers[c].at)], log := s.log + [Publish(s.callers[c].at)])
    case Wake(c) =>
      s.(pending := [], callers := s.callers[c := Idle], log := s.log + [Return(s.callers[c].at, Some(s.response))])
    case GiveUp(c) =>
      s.(callers := s.callers[c := TimedOut(s.callers[c].at)], log := s.log + [Expire(s.callers[c].at)])
    case Forget(c) =>
      s.(pending := [], callers := s.callers[c := Idle], log := s.log + [Return(s.callers[c].at, None)])
    case Receive(payload) =>
      s.(inFlight := s.inFlight + [payload], log := s.log + [Arrive(payload)])
    case Compare(k) =>
      var payload := s.inFlight[k];
      var left := s.(inFlight := s.inFlight[..k] + s.inFlight[k + 1..]);
      if IdIn(payload) != [] && IdIn(payload) == s.pending then
        left.(response := payload, received := true, log := s.log + [Store(payload)])
      else
        left.(log := s.log + [Hand(payload)])
  }

  /** The state after a run; a step that is not enabled ends it. */
  function After(s: State, run: seq<Step>): State
    decreases |run|
  {
    if run == [] || !Enabled(s, run[0]) then s else After(Do(s, run[0]), run[1..])
  }

  // ----- how a call goes

  /** The steps of one call whose answer comes, `k` messages being in flight before it. */
  function AnsweredRun(c: nat, id: bytes, payload: bytes, k: nat): seq<Step> {
    [Begin(c, id)] + ([Send(c)] + ([Receive(payload)] + ([Compare(k)] + ([Wake(c)] + []))))
  }

  lemma AfterOne(s: State, step: Step, run: seq<Step>)
    requires Enabled(s, step)
    ensures After(s, [step] + run) == After(Do(s, step), run)
  {
    hide IdIn, Enabled, Do;
    assert ([step] + run)[1..] == run;
  }

  lemma NoMoreSteps(s: State)
    ensures After(s, []) == s
  {
  }

  /** From every state in which a thread is free: a call whose answer comes returns it. */
  lemma AnswerIsReturned(s: State, c: nat, id: bytes, payload: bytes)
    requires c < |s.callers| && s.callers[c] == Idle && id != [] && IdIn(payload) == id
    ensures var t := After(s, AnsweredRun(c, id, payload, |s.inFlight|));
            var at := |s.log|;
            && t.log == s.log + [Register(id), Publish(at), Arrive(payload), Store(payload), Return(at, Some(payload))]
            && t.callers == s.callers && t.inFlight == s.inFlight && t.pending == []
  {
    hide IdIn, After;
    var at, k := |s.log|, |s.inFlight|;
    var s1 := Do(s, Begin(c, id));
    assert s1.callers[c] == Registered(at) && s1.log == s.log + [Register(id)] && s1.inFlight == s.inFlight;
    var s2 := Do(s1, Send(c));
    assert s2.callers[c] == Waiting(at) && s2.log == s.log + [Register(id), Publish(at)] && s2.pending == id;
    var s3 := Do(s2, Receive(payload));
    assert s3.inFlight[k] == payload && s3.inFlight[..k] + s3.inFlight[k + 1..] == s.inFlight;
    var s4 := Do(s3, Compare(k));
    assert s4.received && s4.response == payload && s4.callers[c] == Waiting(at) && s4.inFlight == s.inFlight;
    assert s4.log == s.log + [Register(id), Publish(at), Arrive(payload), Store(payload)];
    var s5 := Do(s4, Wake(c));
    assert s5.callers == s.callers;
    NoMoreSteps(s5);
    AfterOne(s4, Wake(c), []);
    AfterOne(s3, Compare(k), [Wake(c)] + []);
    AfterOne(s2, Receive(payload), [Compare(k)] + ([Wake(c)] + []));
    AfterOne(s1, Send(c), [Receive(payload)] + ([Compare(k)] + ([Wake(c)] + [])));
    AfterOne(s, Begin(c, id), [Send(c)] + ([Receive(payload)] + ([Compare(k)] + ([Wake(c)] + []))));
  }

  /** The steps of a call that times out, and of its answer, which comes too late. */
  function TimedOutRun(c: nat, id: bytes): seq<Step> {
    [Begin(c, id)] + ([Send(c)] + ([GiveUp(c)] + ([Forget(c)] + [])))
  }

  /** From every state in which a thread is free: a call without an answer times out, and leaves nothing pending. */
  lemma CallTimesOut(s: State, c: nat, id: bytes)
    requires c < |s.callers| && s.callers[c] == Idle
    ensures var t := After(s, TimedOutRun(c, id));
            var at := |s.log|;
            && t.log == s.log + [Register(id), Publish(at), Expire(at), Return(at, None)]
            && t.callers == s.callers && t.inFlight == s.inFlight && t.pending == []
  {
    hide IdIn, After;
    var at := |s.log|;
    var s1 := Do(s, Begin(c, id));
    assert s1.callers[c] == Registered(at) && s1.log == s.log + [Register(id)];
    var s2 := Do(s1, Send(c));
    assert s2.callers[c] == Waiting(at) && s2.log == s.log + [Register(id), Publish(at)] && !s2.received;
    var s3 := Do(s2, GiveUp(c));
    assert s3.callers[c] == TimedOut(at) && s3.log == s.log + [Register(id), Publish(at), Expire(at)];
    var s4 := Do(s3, Forget(c));
    assert s4.callers == s.callers;
    NoMoreSteps(s4);
    AfterOne(s3, Forget(c), []);
    AfterOne(s2, GiveUp(c), [Forget(c)] + []);
    AfterOne(s1, Send(c), [GiveUp(c)] + ([Forget(c)] + []));
    AfterOne(s, Begin(c, id), [Send(c)] + ([GiveUp(c)] + ([Forget(c)] + [])));
  }

  /** From every state with nothing pending: whatever arrives is handed on. */
  lemma LateAnswerIsHanded(s: State, payload: bytes)
    requires s.pending == []
    ensures var t := After(s, [Receive(payload)] + ([Compare(|s.inFlight|)] + []));
            t == s.(log := s.log + [Arrive(payload), Hand(payload)])
  {
    hide IdIn, After;
    var k := |s.inFlight|;
    var s1 := Do(s, Receive(payload));
    assert s1.inFlight[k] == payload && s1.inFlight[..k] + s1.inFlight[k + 1..] == s.inFlight;
    NoMoreSteps(Do(s1, Compare(k)));
    AfterOne(s1, Compare(k), []);
    AfterOne(s, Receive(payload), [Compare(k)] + []);
  }

  // ----- what holds throughout

  /** The place of the last registration in the log, or -1. */
  function Latest(log: seq<Event>): (i: int)
    ensures -1 <= i < |log| && (i >= 0 ==> log[i].Register?)
    ensures forall k :: i < k < |log| ==> !log[k].Register?
  {
    if log == [] then -1
    else if log[|log| - 1].Register? then |log| - 1
    else Latest(log[..|log| - 1])
  }

  /** Since the last registration the callback stored `payload`, which carries the id registered there. */
  ghost predicate StoredForLatest(log: seq<Event>, payload: bytes) {
    var i := Latest(log);
    && i >= 0 && log[i].id != [] && IdIn(payload) == log[i].id
    && exists m :: i < m < |log| && log[m] == Store(payload)
  }

  /** A call that returns a payload has registered, and the payload was stored for the latest registration since. */
  ghost predicate Justified(log: seq<Event>, j: nat)
    requires j < |log|
  {
    log[j].Return? && log[j].response.Some? ==>
      && log[j].at <= Latest(log[..j]) && log[log[j].at].Register?
      && StoredForLatest(log[..j], log[j].response.value)
  }

  ghost predicate CallersRegistered(s: State) {
    forall c :: 0 <= c < |s.callers| && !s.callers[c].Idle? ==>
      s.callers[c].at <= Latest(s.log) && s.log[s.callers[c].at].Register?
  }

  ghost predicate Invariant(s: State) {
    && CallersRegistered(s)
    && (s.pending != [] ==> Latest(s.log) >= 0 && s.pending == s.log[Latest(s.log)].id)
    && (s.received ==> StoredForLatest(s.log, s.response))
    && (forall j :: 0 <= j < |s.log| ==> Justified(s.log, j))
  }

  lemma LatestGrows(log: seq<Event>, e: Event)
    ensures Latest(log + [e]) == if e.Register? then |log| else Latest(log)
  {
    assert (log + [e])[..|log|] == log;
  }

  lemma JustifiedGrows(log: seq<Event>, e: Event)
    requires forall j :: 0 <= j < |log| ==> Justified(log, j)
    requires Justified(log + [e], |log|)
    ensures forall j :: 0 <= j < |log + [e]| ==> Justified(log + [e], j)
  {
    hide StoredForLatest;
    forall j | 0 <= j < |log| ensures Justified(log + [e], j) {
      assert (log + [e])[..j] == log[..j] && Justified(log, j);
    }
  }

  lemma StoredGrows(log: seq<Event>, e: Event, payload: bytes)
    requires StoredForLatest(log, payload) && !e.Register?
    ensures StoredForLatest(log + [e], payload)
  {
    hide IdIn, Latest;
    LatestGrows(log, e);
    var m :| Latest(log) < m < |log| && log[m] == Store(payload);
    assert (log + [e])[m] == Store(payload);
  }

  lemma StepKeepsCallers(s: State, step: Step)
    requires CallersRegistered(s) && Enabled(s, step)
    ensures CallersRegistered(Do(s, step))
  {
    hide IdIn, Latest;
    var t := Do(s, step);
    if |t.log| > |s.log| {
      LatestGrows(s.log, t.log[|s.log|]);
      assert t.log == s.log + [t.log[|s.log|]];
    }
  }

  lemma StepKeepsJustified(s: State, step: Step)
    requires Invariant(s) && Enabled(s, step)
    ensures forall j :: 0 <= j < |Do(s, step).log| ==> Justified(Do(s, step).log, j)
  {
    hide IdIn, Latest, StoredForLatest;
    var t := Do(s, step);
    if |t.log| > |s.log| {
      var e := t.log[|s.log|];
      assert t.log == s.log + [e] && t.log[..|s.log|] == s.log;
      JustifiedGrows(s.log, e);
    }
  }

  lemma StepKeepsStored(s: State, step: Step)
    requires Invariant(s) && Enabled(s, step)
    ensures Do(s, step).received ==> StoredForLatest(Do(s, step).log, Do(s, step).response)
  {
    hide IdIn, Justified;
    var t := Do(s, step);
    if |t.log| > |s.log| {
      var e := t.log[|s.log|];
      assert t.log == s.log + [e];
      LatestGrows(s.log, e);
      if e.Store? {
        assert t.log[|s.log|] == Store(t.response);
      } else if t.received {
        StoredGrows(s.log, e, s.response);
      }
    }
  }

  lemma StepKeepsInvariant(s: State, step: Step)
    requires Invariant(s) && Enabled(s, step)
    ensures Invariant(Do(s, step))
  {
    hide IdIn, Latest, StoredForLatest, Justified, CallersRegistered;
    StepKeepsCallers(s, step);
    StepKeepsJustified(s, step);
    StepKeepsStored(s, step);
    var t := Do(s, step);
    if |t.log| > |s.log| {
      LatestGrows(s.log, t.log[|s.log|]);
      assert t.log == s.log + [t.log[|s.log|]];
    }
  }

  lemma {:induction false} RunsKeepInvariant(s: State, run: seq<Step>)
    requires Invariant(s)
    ensures Invariant(After(s, run))
    decreases |run|
  {
    hide Invariant;
    if run != [] && Enabled(s, run[0]) {
      StepKeepsInvariant(s, run[0]);
      RunsKeepInvariant(Do(s, run[0]), run[1..]);
    }
  }

  /** With any number of calling threads, any deliveries, late, repeated or out of order: a call that returns a payload
      returns one stored since the last registration, and its id is the one registered there. */
  lemma AnswersTheLatest(callers: nat, run: seq<Step>)
    ensures var log := After(Initial(callers), run).log;
            forall j :: 0 <= j < |log| ==> Justified(log, j)
  {
    hide IdIn, After;
    assert Invariant(Initial(callers));
    RunsKeepInvariant(Initial(callers), run);
  }

  // ----- every message

  /** The request that is outstanding: the id last registered, unless a call has returned since. */
  function Outstanding(log: seq<Event>): bytes {
    if log == [] then []
    else
      match log[|log| - 1]
      case Register(id) => id
      case Return(_, _) => []
      case _ => Outstanding(log[..|log| - 1])
  }

  /** The answer to an outstanding request is stored, every other message is handed to the callback. */
  predicate Sorted(log: seq<Event>, m: nat)
    requires m < |log|
  {
    && (log[m].Store? ==> IdIn(log[m].payload) != [] && IdIn(log[m].payload) == Outstanding(log[..m]))
    && (log[m].Hand? ==> IdIn(log[m].payload) == [] || IdIn(log[m].payload) != Outstanding(log[..m]))
  }

  /** Nothing has been stored since the last registration. */
  ghost predicate NothingStored(log: seq<Event>) {
    forall m :: Latest(log) < m < |log| ==> !log[m].Store?
  }

  /** No call gives up although an answer has been stored since the last registration. */
  ghost predicate NotTooEarly(log: seq<Event>, e: nat)
    requires e < |log|
  {
    log[e].Expire? ==> NothingStored(log[..e])
  }

  function Arrived(log: seq<Event>): multiset<bytes> {
    if log == [] then multiset{}
    else
      var e := log[|log| - 1];
      Arrived(log[..|log| - 1]) + if e.Arrive? then multiset{e.payload} else multiset{}
  }

  function Settled(log: seq<Event>): multiset<bytes> {
    if log == [] then multiset{}
    else
      var e := log[|log| - 1];
      Settled(log[..|log| - 1]) + if e.Store? || e.Hand? then multiset{e.payload} else multiset{}
  }

  /** Every message that arrived was stored or handed on once, or is still in flight. */
  ghost predicate Conserved(s: State) {
    Arrived(s.log) == Settled(s.log) + multiset(s.inFlight)
  }

  ghost predicate MessagesKept(s: State) {
    && s.pending == Outstanding(s.log)
    && (!s.received ==> NothingStored(s.log) && s.response == [])
    && Conserved(s)
    && forall m :: 0 <= m < |s.log| ==> Sorted(s.log, m) && NotTooEarly(s.log, m)
  }

  lemma FoldsGrow(log: seq<Event>, e: Event)
    ensures Outstanding(log + [e])
            == match e { case Register(id) => id case Return(_, _) => [] case _ => Outstanding(log) }
    ensures Arrived(log + [e]) == Arrived(log) + if e.Arrive? then multiset{e.payload} else multiset{}
    ensures Settled(log + [e]) == Settled(log) + if e.Store? || e.Hand? then multiset{e.payload} else multiset{}
    ensures (log + [e])[..|log|] == log
  {
    assert (log + [e])[..|log|] == log;
  }

  lemma MessagesGrow(log: seq<Event>, e: Event)
    requires forall m :: 0 <= m < |log| ==> Sorted(log, m) && NotTooEarly(log, m)
    requires Sorted(log + [e], |log|) && NotTooEarly(log + [e], |log|)
    ensures forall m :: 0 <= m < |log + [e]| ==> Sorted(log + [e], m) && NotTooEarly(log + [e], m)
  {
    hide IdIn, Outstanding, Latest;
    forall m | 0 <= m < |log| ensures Sorted(log + [e], m) && NotTooEarly(log + [e], m) {
      assert (log + [e])[..m] == log[..m] && Sorted(log, m) && NotTooEarly(log, m);
    }
  }

  lemma NothingStoredGrows(log: seq<Event>, e: Event)
    requires e.Register? || (NothingStored(log) && !e.Store?)
    ensures NothingStored(log + [e])
  {
    hide Latest;
    LatestGrows(log, e);
  }

  lemma OneSettled(arrived: multiset<bytes>, settled: multiset<bytes>, s: seq<bytes>, k: nat)
    requires k < |s| && arrived == settled + multiset(s)
    ensures arrived == settled + multiset{s[k]} + multiset(s[..k] + s[k + 1..])
  {
    assert s == s[..k] + [s[k]] + s[k + 1..];
  }

  lemma CompareConserves(s: State, k: nat)
    requires Conserved(s) && k < |s.inFlight|
    ensures Conserved(Do(s, Compare(k)))
  {
    hide IdIn, Arrived, Settled;
    var t := Do(s, Compare(k));
    var e := t.log[|s.log|];
    assert t.inFlight == s.inFlight[..k] + s.inFlight[k + 1..] && t.log == s.log + [e];
    assert (e.Store? || e.Hand?) && e.payload == s.inFlight[k];
    hide Do;
    FoldsGrow(s.log, e);
    OneSettled(Arrived(s.log), Settled(s.log), s.inFlight, k);
  }

  lemma StepConserves(s: State, step: Step)
    requires Conserved(s) && Enabled(s, step)
    ensures Conserved(Do(s, step))
  {
    hide IdIn, Arrived, Settled;
    if step.Compare? {
      CompareConserves(s, step.k);
    } else {
      var t := Do(s, step);
      FoldsGrow(s.log, t.log[|s.log|]);
    }
  }

  lemma StepSettles(s: State, step: Step)
    requires s.pending == Outstanding(s.log) && (!s.received ==> NothingStored(s.log)) && Enabled(s, step)
    ensures var t := Do(s, step);
            |t.log| == |s.log| + 1 && Sorted(t.log, |s.log|) && NotTooEarly(t.log, |s.log|)
  {
    hide IdIn, Outstanding, NothingStored;
    assert Do(s, step).log[..|s.log|] == s.log;
  }

  lemma StepKeepsMessages(s: State, step: Step)
    requires MessagesKept(s) && Enabled(s, step)
    ensures MessagesKept(Do(s, step))
  {
    hide IdIn, Outstanding, Latest, NothingStored, Conserved, Sorted, NotTooEarly;
    var t := Do(s, step);
    StepSettles(s, step);
    var e := t.log[|s.log|];
    assert t.log == s.log + [e];
    FoldsGrow(s.log, e);
    StepConserves(s, step);
    MessagesGrow(s.log, e);
    if !t.received {
      NothingStoredGrows(s.log, e);
    }
  }

  lemma {:induction false} RunsKeepMessages(s: State, run: seq<Step>)
    requires MessagesKept(s)
    ensures MessagesKept(After(s, run))
    decreases |run|
  {
    hide MessagesKept;
    if run != [] && Enabled(s, run[0]) {
      StepKeepsMessages(s, run[0]);
      RunsKeepMessages(Do(s, run[0]), run[1..]);
    }
  }

  /** Over every run, with any number of calling threads: exactly the answers to outstanding requests are stored and
      all other messages are handed on; none is lost or duplicated; and no call gives up on an answer already stored. */
  lemma EveryMessageSettled(callers: nat, run: seq<Step>)
    ensures var s := After(Initial(callers), run);
            && Conserved(s) && (!s.received ==> s.response == [])
            && forall m :: 0 <= m < |s.log| ==> Sorted(s.log, m) && NotTooEarly(s.log, m)
  {
    hide IdIn, After;
    assert MessagesKept(Initial(callers));
    RunsKeepMessages(Initial(callers), run);
  }

  // ----- calls begin and end

  /** The calls that have registered and not returned. */
  function OpenCalls(log: seq<Event>): int {
    if log == [] then 0
    else
      var e := log[|log| - 1];
      OpenCalls(log[..|log| - 1]) + if e.Register? then 1 else if e.Return? then -1 else 0
  }

  /** The threads inside `sendRequest`. */
  function Busy(callers: seq<Caller>): nat {
    if callers == [] then 0 else Busy(callers[1..]) + if callers[0].Idle? then 0 else 1
  }

  lemma {:induction false} BusyMoves(callers: seq<Caller>, c: nat, p: Caller)
    requires c < |callers|
    ensures Busy(callers[c := p])
            == Busy(callers) - (if callers[c].Idle? then 0 else 1) + if p.Idle? then 0 else 1
    decreases |callers|
  {
    if c > 0 {
      BusyMoves(callers[1..], c - 1, p);
      assert callers[c := p][1..] == callers[1..][c - 1 := p];
    } else {
      assert callers[c := p][1..] == callers[1..];
    }
  }

  lemma {:induction false} BusyBounded(callers: seq<Caller>)
    ensures Busy(callers) <= |callers|
    ensures (forall c :: 0 <= c < |callers| ==> callers[c].Idle?) ==> Busy(callers) == 0
  {
    if callers != [] {
      BusyBounded(callers[1..]);
    }
  }

  lemma OpenGrows(log: seq<Event>, e: Event)
    ensures OpenCalls(log + [e]) == OpenCalls(log) + if e.Register? then 1 else if e.Return? then -1 else 0
  {
    assert (log + [e])[..|log|] == log;
  }

  lemma StepKeepsOpen(s: State, step: Step)
    requires OpenCalls(s.log) == Busy(s.callers) && Enabled(s, step)
    ensures OpenCalls(Do(s, step).log) == Busy(Do(s, step).callers) && |Do(s, step).callers| == |s.callers|
  {
    hide IdIn, OpenCalls, Busy;
    var t := Do(s, step);
    var e := t.log[|s.log|];
    assert t.log == s.log + [e];
    OpenGrows(s.log, e);
    match step
    case Begin(c, _) => BusyMoves(s.callers, c, t.callers[c]);
    case Send(c) => BusyMoves(s.callers, c, t.callers[c]);
    case Wake(c) => BusyMoves(s.callers, c, t.callers[c]);
    case GiveUp(c) => BusyMoves(s.callers, c, t.callers[c]);
    case Forget(c) => BusyMoves(s.callers, c, t.callers[c]);
    case _ =>
  }

  lemma {:induction false} RunsKeepOpen(s: State, run: seq<Step>)
    requires OpenCalls(s.log) == Busy(s.callers)
    ensures OpenCalls(After(s, run).log) == Busy(After(s, run).callers) && |After(s, run).callers| == |s.callers|
    decreases |run|
  {
    hide OpenCalls, Busy, Do, Enabled;
    if run != [] && Enabled(s, run[0]) {
      StepKeepsOpen(s, run[0]);
      RunsKeepOpen(Do(s, run[0]), run[1..]);
    }
  }

  /** Over every run the calls that have registered and not returned are as many as threads are inside `sendRequest`,
      one for each. */
  lemma CallsAreClosed(callers: nat, run: seq<Step>)
    ensures var s := After(Initial(callers), run);
            0 <= OpenCalls(s.log) == Busy(s.callers) <= callers
  {
    var s := Initial(callers);
    BusyBounded(s.callers);
    RunsKeepOpen(s, run);
    BusyBounded(After(s, run).callers);
  }

  // ----- whose answer

  /** The call whose return stands at `j` got an answer to its own request, stored after it registered. */
  ghost predicate OwnAnswer(log: seq<Event>, j: nat)
    requires j < |log|
  {
    log[j].Return? && log[j].response.Some? ==>
      && log[j].at < j && log[log[j].at].Register?
      && log[log[j].at].id != [] && IdIn(log[j].response.value) == log[log[j].at].id
      && exists m :: log[j].at < m < j && log[m] == Store(log[j].response.value)
  }

  /** With any number of calling threads: a call that returns a payload has its own answer exactly when the latest
      registration before its return has its id. */
  lemma OwnAnswerExactly(callers: nat, run: seq<Step>, j: nat)
    requires var log := After(Initial(callers), run).log;
             j < |log| && log[j].Return? && log[j].response.Some?
    ensures var log := After(Initial(callers), run).log;
            && log[j].at <= Latest(log[..j])
            && log[log[j].at].Register? && log[Latest(log[..j])].Register?
            && (OwnAnswer(log, j) <==> log[log[j].at].id == log[Latest(log[..j])].id)
  {
    hide IdIn, After, Latest;
    AnswersTheLatest(callers, run);
    var log := After(Initial(callers), run).log;
    assert Justified(log, j);
    var latest := Latest(log[..j]);
    assert log[..j][latest] == log[latest];
    var m :| latest < m < j && log[..j][m] == Store(log[j].response.value);
    assert log[m] == Store(log[j].response.value);
  }

  // ----- one calling thread

  ghost predicate OwnIsLatest(s: State) {
    && |s.callers| <= 1
    && (forall c :: 0 <= c < |s.callers| && !s.callers[c].Idle? ==> s.callers[c].at == Latest(s.log))
    && forall j :: 0 <= j < |s.log| && s.log[j].Return? ==> s.log[j].at == Latest(s.log[..j])
  }

  lemma StepKeepsOwn(s: State, step: Step)
    requires OwnIsLatest(s) && Enabled(s, step)
    ensures OwnIsLatest(Do(s, step))
  {
    hide IdIn, Latest;
    var t := Do(s, step);
    if |t.log| > |s.log| {
      var e := t.log[|s.log|];
      assert t.log == s.log + [e] && t.log[..|s.log|] == s.log;
      LatestGrows(s.log, e);
      forall j | 0 <= j < |s.log| && s.log[j].Return? ensures t.log[j].at == Latest(t.log[..j]) {
        assert t.log[..j] == s.log[..j] && t.log[j] == s.log[j];
      }
    }
  }

  lemma {:induction false} RunsKeepOwn(s: State, run: seq<Step>)
    requires OwnIsLatest(s)
    ensures OwnIsLatest(After(s, run))
    decreases |run|
  {
    hide OwnIsLatest;
    if run != [] && Enabled(s, run[0]) {
      StepKeepsOwn(s, run[0]);
      RunsKeepOwn(Do(s, run[0]), run[1..]);
    }
  }

  lemma OwnAnswersIn(s: State)
    requires Invariant(s) && OwnIsLatest(s)
    ensures forall j :: 0 <= j < |s.log| ==> OwnAnswer(s.log, j)
  {
    hide IdIn, Latest;
    var log := s.log;
    forall j | 0 <= j < |log| ensures OwnAnswer(log, j) {
      if log[j].Return? && log[j].response.Some? {
        assert Justified(log, j);
        var m :| Latest(log[..j]) < m < j && log[..j][m] == Store(log[j].response.value);
        assert log[m] == Store(log[j].response.value);
      }
    }
  }

  /** With one calling thread, over every run: `sendRequest` that returns true returns a payload whose top-level id is
      the id of that very call, stored under the lock after the call registered. */
  lemma AnswersItsOwn(callers: nat, run: seq<Step>)
    requires callers <= 1
    ensures var log := After(Initial(callers), run).log;
            forall j :: 0 <= j < |log| ==> OwnAnswer(log, j)
  {
    hide IdIn, After, Latest;
    assert Invariant(Initial(callers));
    RunsKeepInvariant(Initial(callers), run);
    RunsKeepOwn(Initial(callers), run);
    OwnAnswersIn(After(Initial(callers), run));
  }

  /** So with ids that differ, as those of `generateRequestId` do, one payload never answers two calls. */
  lemma AnsweredOnce(run: seq<Step>, j: nat, k: nat)
    requires var log := After(Initial(1), run).log;
             && j < |log| && k < |log| && log[j].Return? && log[k].Return?
             && log[j].response.Some? && log[j].response == log[k].response
             && forall a, b :: 0 <= a < b < |log| && log[a].Register? && log[b].Register? ==> log[a].id != log[b].id
    ensures var log := After(Initial(1), run).log; log[j].at == log[k].at
  {
    hide IdIn, After;
    AnswersItsOwn(1, run);
    var log := After(Initial(1), run).log;
    assert OwnAnswer(log, j) && OwnAnswer(log, k);
  }

  // ----- two calling threads

  function Answer(id: bytes): Json {
    Obj([Member(KEY_ID, Str(id))])
  }

  lemma AnswerCarriesId(id: bytes)
    ensures JsonPrinter.Printable(Answer(id)) && IdIn(JsonPrinter.Dump(Answer(id))) == id
  {
    hide JsonReader.Parse;
    var ms := Answer(id).members;
    MembersFrom(ms, 0);
    assert ms[0..] == ms && ms[1..] == [];
    FirstIsId(ms);
    JsonPrinter.RoundTrip(Answer(id), Standard);
  }

  /** Two threads call with ids `mine` and `other`; `payload` is the answer to the second. */
  function MixedRun(mine: bytes, other: bytes, payload: bytes): seq<Step> {
    [Begin(0, mine)] + ([Send(0)] + ([Begin(1, other)] + ([Receive(payload)] + ([Compare(0)] + ([Wake(0)] + [])))))
  }

  /** An answer to whatever is pending wakes a thread that waits. */
  lemma WakesWaiting(s: State, c: nat, at: nat, payload: bytes)
    requires c < |s.callers| && s.callers[c] == Waiting(at) && s.inFlight == []
    requires s.pending != [] && s.pending == IdIn(payload)
    ensures After(s, [Receive(payload)] + ([Compare(0)] + ([Wake(c)] + []))).log
            == s.log + [Arrive(payload), Store(payload), Return(at, Some(payload))]
  {
    hide IdIn, After;
    var s1 := Do(s, Receive(payload));
    assert s1.inFlight == [payload] && s1.callers[c] == Waiting(at);
    var s2 := Do(s1, Compare(0));
    assert s2.received && s2.response == payload && s2.callers[c] == Waiting(at);
    NoMoreSteps(Do(s2, Wake(c)));
    AfterOne(s2, Wake(c), []);
    AfterOne(s1, Compare(0), [Wake(c)] + []);
    AfterOne(s, Receive(payload), [Compare(0)] + ([Wake(c)] + []));
  }

  /** With two or more calling threads it fails: the first returns the answer to the second's request. */
  lemma TwoCallersMix(callers: nat, mine: bytes, other: bytes) returns (payload: bytes)
    requires callers >= 2 && mine != other && other != []
    ensures IdIn(payload) == other
    ensures After(Initial(callers), MixedRun(mine, other, payload)).log
            == [Register(mine), Publish(0), Register(other), Arrive(payload), Store(payload), Return(0, Some(payload))]
    ensures !OwnAnswer(After(Initial(callers), MixedRun(mine, other, payload)).log, 5)
  {
    hide IdIn, After;
    AnswerCarriesId(other);
    payload := JsonPrinter.Dump(Answer(other));
    var s0 := Initial(callers);
    var s1 := Do(s0, Begin(0, mine));
    assert s1.callers[0] == Registered(0) && s1.callers[1] == Idle && s1.log == [Register(mine)] && s1.inFlight == [];
    var s2 := Do(s1, Send(0));
    assert s2.callers[0] == Waiting(0) && s2.callers[1] == Idle && s2.log == [Register(mine), Publish(0)];
    var s3 := Do(s2, Begin(1, other));
    assert s3.callers[0] == Waiting(0) && s3.pending == other && s3.inFlight == [];
    assert s3.log == [Register(mine), Publish(0), Register(other)];
    WakesWaiting(s3, 0, 0, payload);
    var end := [Receive(payload)] + ([Compare(0)] + ([Wake(0)] + []));
    AfterOne(s2, Begin(1, other), end);
    AfterOne(s1, Send(0), [Begin(1, other)] + end);
    AfterOne(s0, Begin(0, mine), [Send(0)] + ([Begin(1, other)] + end));
  }

  /** In every run every call that returns a payload has its own answer. */
  ghost predicate AlwaysOwn(callers: nat) {
    forall run: seq<Step>, j: nat ::
      j < |After(Initial(callers), run).log| ==> OwnAnswer(After(Initial(callers), run).log, j)
  }

  /** `sendRequest` never returns another call's answer exactly when at most one thread calls it. */
  lemma OneCallerExactly(callers: nat)
    ensures AlwaysOwn(callers) <==> callers <= 1
  {
    hide IdIn, After, OwnAnswer, MixedRun;
    if callers <= 1 {
      forall run: seq<Step>, j: nat | j < |After(Initial(callers), run).log|
        ensures OwnAnswer(After(Initial(callers), run).log, j)
      {
        AnswersItsOwn(callers, run);
      }
    } else {
      RequestIdsDiffer(1, 2);
      RequestIdsDiffer(2, 1);
      var payload := TwoCallersMix(callers, RequestId(1), RequestId(2));
      assert |After(Initial(callers), MixedRun(RequestId(1), RequestId(2), payload)).log| == 6;
    }
  }

  // ----- when the answer arrived

  /** The payload has arrived after the call registered at `at`. */
  ghost predicate CameSince(log: seq<Event>, at: nat, payload: bytes) {
    exists a :: at < a < |log| && log[a] == Arrive(payload)
  }

  /** Since the call registered at `at`, whatever carries its id, still in flight or stored, has arrived after that. */
  ghost predicate ArrivesLater(s: State, at: nat, id: bytes) {
    && at < |s.log| && s.log[at] == Register(id)
    && (forall k :: 0 <= k < |s.inFlight| && IdIn(s.inFlight[k]) == id ==> CameSince(s.log, at, s.inFlight[k]))
    && (forall m :: at < m < |s.log| && s.log[m].Store? && IdIn(s.log[m].payload) == id ==>
          CameSince(s.log[..m], at, s.log[m].payload))
  }

  lemma CameGrows(log: seq<Event>, e: Event, at: nat, payload: bytes)
    requires at < |log| && (CameSince(log, at, payload) || e == Arrive(payload))
    ensures CameSince(log + [e], at, payload)
  {
    var more := log + [e];
    if e == Arrive(payload) {
      assert more[|log|] == e;
    } else {
      var a :| at < a < |log| && log[a] == Arrive(payload);
      assert more[a] == log[a];
    }
  }

  lemma StepKeepsArrivals(s: State, step: Step, at: nat, id: bytes)
    requires ArrivesLater(s, at, id) && Enabled(s, step)
    ensures ArrivesLater(Do(s, step), at, id)
  {
    hide IdIn, CameSince;
    var t := Do(s, step);
    var e := t.log[|s.log|];
    assert t.log == s.log + [e] && t.log[..|s.log|] == s.log;
    forall k | 0 <= k < |t.inFlight| && IdIn(t.inFlight[k]) == id ensures CameSince(t.log, at, t.inFlight[k]) {
      CameGrows(s.log, e, at, t.inFlight[k]);
    }
    forall m | at < m < |t.log| && t.log[m].Store? && IdIn(t.log[m].payload) == id
      ensures CameSince(t.log[..m], at, t.log[m].payload)
    {
      if m < |s.log| {
        assert t.log[..m] == s.log[..m] && t.log[m] == s.log[m];
      }
    }
  }

  lemma {:induction false} RunsKeepArrivals(s: State, run: seq<Step>, at: nat, id: bytes)
    requires ArrivesLater(s, at, id)
    ensures ArrivesLater(After(s, run), at, id)
    decreases |run|
  {
    hide ArrivesLater;
    if run != [] && Enabled(s, run[0]) {
      StepKeepsArrivals(s, run[0], at, id);
      RunsKeepArrivals(Do(s, run[0]), run[1..], at, id);
    }
  }

  /** If the entry at `j` returns an answer to the call registered at `at`, the answer arrived in between. */
  ghost predicate LateAnswer(log: seq<Event>, at: nat, j: nat)
    requires j < |log|
  {
    log[j].Return? && log[j].at == at && log[j].response.Some? ==>
      exists a :: at < a < j && log[a] == Arrive(log[j].response.value)
  }

  /** Whatever happens once a call has registered in state `s`: the answer it returns arrives after that. */
  ghost predicate AnswersArriveLater(s: State, id: bytes)
    requires Enabled(s, Begin(0, id))
  {
    forall run: seq<Step>, j: nat ::
      j < |After(Do(s, Begin(0, id)), run).log| ==> LateAnswer(After(Do(s, Begin(0, id)), run).log, |s.log|, j)
  }

  /** No message that was parsed but not compared yet carries the id. */
  predicate NoneInFlight(s: State, id: bytes) {
    forall k :: 0 <= k < |s.inFlight| ==> IdIn(s.inFlight[k]) != id
  }

  lemma AnswerArrivesLater(s: State, id: bytes, run: seq<Step>, j: nat)
    requires Invariant(s) && OwnIsLatest(s) && Enabled(s, Begin(0, id)) && NoneInFlight(s, id)
    requires j < |After(Do(s, Begin(0, id)), run).log|
    ensures LateAnswer(After(Do(s, Begin(0, id)), run).log, |s.log|, j)
  {
    hide IdIn, After, Invariant, OwnIsLatest;
    var begun, at := Do(s, Begin(0, id)), |s.log|;
    var t := After(begun, run);
    StepKeepsInvariant(s, Begin(0, id));
    StepKeepsOwn(s, Begin(0, id));
    RunsKeepInvariant(begun, run);
    RunsKeepOwn(begun, run);
    OwnAnswersIn(t);
    assert ArrivesLater(begun, at, id);
    RunsKeepArrivals(begun, run, at, id);
    assert OwnAnswer(t.log, j);
    if t.log[j].Return? && t.log[j].at == at && t.log[j].response.Some? {
      var m :| at < m < j && t.log[m] == Store(t.log[j].response.value);
      var a :| at < a < m && t.log[..m][a] == Arrive(t.log[m].payload);
      assert t.log[a] == Arrive(t.log[m].payload);
    }
  }

  /** A message in flight with the call's id is compared, stored, and returned. */
  function EarlyRun(k: nat): seq<Step> {
    [Compare(k)] + ([Send(0)] + ([Wake(0)] + []))
  }

  lemma EarlyAnswer(s: State, id: bytes, k: nat)
    requires Enabled(s, Begin(0, id)) && id != [] && k < |s.inFlight| && IdIn(s.inFlight[k]) == id
    ensures After(Do(s, Begin(0, id)), EarlyRun(k)).log
            == s.log + [Register(id), Store(s.inFlight[k]), Publish(|s.log|), Return(|s.log|, Some(s.inFlight[k]))]
  {
    hide IdIn, After;
    var payload, at := s.inFlight[k], |s.log|;
    var s1 := Do(s, Begin(0, id));
    assert s1.callers[0] == Registered(at) && s1.log == s.log + [Register(id)];
    var s2 := Do(s1, Compare(k));
    assert s2.received && s2.response == payload && s2.callers[0] == Registered(at);
    assert s2.log == s.log + [Register(id), Store(payload)];
    var s3 := Do(s2, Send(0));
    assert s3.received && s3.response == payload && s3.callers[0] == Waiting(at);
    assert s3.log == s.log + [Register(id), Store(payload), Publish(at)];
    AfterOne(s3, Wake(0), []);
    AfterOne(s2, Send(0), [Wake(0)] + []);
    AfterOne(s1, Compare(k), [Send(0)] + ([Wake(0)] + []));
    NoMoreSteps(Do(s3, Wake(0)));
  }

  lemma NotLate(log: seq<Event>, id: bytes, payload: bytes)
    ensures var more := log + [Register(id), Store(payload), Publish(|log|), Return(|log|, Some(payload))];
            !LateAnswer(more, |log|, |log| + 3)
  {
  }

  /** A message may be parsed before a call registers and compared after it. The answers to a call arrive after it
      registered, in every run, exactly when no message with its id is in flight at that moment. */
  lemma AnswersArriveLaterExactly(before: seq<Step>, id: bytes)
    requires Enabled(After(Initial(1), before), Begin(0, id)) && id != []
    ensures var s := After(Initial(1), before);
            AnswersArriveLater(s, id) <==> NoneInFlight(s, id)
  {
    hide IdIn, After, LateAnswer, Do, EarlyRun;
    var s := After(Initial(1), before);
    assert Invariant(Initial(1));
    RunsKeepInvariant(Initial(1), before);
    RunsKeepOwn(Initial(1), before);
    if NoneInFlight(s, id) {
      forall run: seq<Step>, j: nat | j < |After(Do(s, Begin(0, id)), run).log|
        ensures LateAnswer(After(Do(s, Begin(0, id)), run).log, |s.log|, j)
      {
        AnswerArrivesLater(s, id, run, j);
      }
    } else {
      var k :| 0 <= k < |s.inFlight| && IdIn(s.inFlight[k]) == id;
      EarlyAnswer(s, id, k);
      NotLate(s.log, id, s.inFlight[k]);
      assert !LateAnswer(After(Do(s, Begin(0, id)), EarlyRun(k)).log, |s.log|, |s.log| + 3);
    }
  }

  /** Such a run: an answer that arrives before its request is registered is returned. */
  lemma EarlyMessage(id: bytes) returns (payload: bytes)
    requires id != []
    ensures IdIn(payload) == id
    ensures After(Initial(1), [Receive(payload)] + ([Begin(0, id)] + EarlyRun(0))).log
            == [Arrive(payload), Register(id), Store(payload), Publish(1), Return(1, Some(payload))]
  {
    hide IdIn, After;
    AnswerCarriesId(id);
    payload := JsonPrinter.Dump(Answer(id));
    var s := Do(Initial(1), Receive(payload));
    assert s.inFlight == [payload] && s.log == [Arrive(payload)];
    AfterOne(Initial(1), Receive(payload), [Begin(0, id)] + EarlyRun(0));
    AfterOne(s, Begin(0, id), EarlyRun(0));
    EarlyAnswer(s, id, 0);
  }
}
