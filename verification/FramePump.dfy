/** The external audio pump: a 10 ms tick pushes one frame of the PCM data, and pauses after each full pass. */
module FramePump {
  import opened Bytes
  import opened Floors

  /** 48000 samples a second, 10 ms, two channels, two bytes each. */
  const FRAME_SIZE := 1920
  /** The steady clock ticks in nanoseconds. */
  const SECOND := 1_000_000_000

  datatype Push = Push(index: nat, time: nat)

  /** What reaches the pump: the remote audio state, and timer ticks. A tick may read the clock up to three times:
      for the pause, when it pushes, and when a pause begins. */
  datatype Event =
    | Ready(ready: bool)
    | Tick(checked: nat, pushed: nat, ended: nat)

  /** A monotone clock. */
  ghost predicate Monotone(events: seq<Event>, since: nat) {
    events == [] ||
    (var e := events[0];
     if e.Ready? then Monotone(events[1..], since)
     else since <= e.checked <= e.pushed <= e.ended && Monotone(events[1..], e.ended))
  }

  /** The frames one pass has; a file shorter than a frame still gives the pump one turn per pass. */
  function PassLength(pcm: bytes): (n: nat)
    ensures n > 0
  {
    if |pcm| / FRAME_SIZE == 0 then 1 else |pcm| / FRAME_SIZE
  }

  /** The slice handed to the engine lies inside the data. */
  predicate InsideData(pcm: bytes, p: Push) {
    (p.index + 1) * FRAME_SIZE <= |pcm|
  }

  /** The bytes pushed by `pushes`, one after another. */
  function Played(pcm: bytes, pushes: seq<Push>): bytes
    requires forall p :: p in pushes ==> InsideData(pcm, p)
  {
    if pushes == [] then []
    else
      var last := pushes[|pushes| - 1];
      assert InsideData(pcm, last);
      Played(pcm, pushes[..|pushes| - 1]) + pcm[last.index * FRAME_SIZE..(last.index + 1) * FRAME_SIZE]
  }

  /** Indices run 0, 1, .., n-1 over and over. */
  ghost predicate Cyclic(pushes: seq<Push>, n: nat)
    requires n > 0
  {
    forall k :: 0 <= k < |pushes| ==> pushes[k].index == k % n
  }

  /** At least `seconds` seconds lie between the end of a pass and the start of the next. */
  ghost predicate Spaced(pushes: seq<Push>, n: nat, seconds: nat)
    requires n > 0
  {
    forall k :: 0 < k < |pushes| && k % n == 0 ==> pushes[k].time >= pushes[k - 1].time + seconds * 1_000_000_000
  }

  // ----- which ticks push

  /** A run of the pump so far: the ready flag, the pushes, and when the last of them was over. */
  datatype Progress = Progress(ready: bool, pushes: seq<Push>, over: nat)

  /** A tick pushes when the room is ready and, between two passes, the pause has lasted. */
  predicate Due(p: Progress, n: nat, interval: nat, checked: nat)
    requires n > 0
  {
    p.ready && (p.pushes != [] && |p.pushes| % n == 0 ==> (checked - p.over) / SECOND >= interval)
  }

  function Next(p: Progress, n: nat, interval: nat, e: Event): Progress
    requires n > 0
  {
    match e
    case Ready(r) => p.(ready := r)
    case Tick(checked, pushed, ended) =>
      if Due(p, n, interval, checked) then
        p.(pushes := p.pushes + [Push(|p.pushes| % n, pushed)], over := ended)
      else p
  }

  function Run(n: nat, interval: nat, events: seq<Event>): Progress
    requires n > 0
  {
    if events == [] then Progress(false, [], 0)
    else Next(Run(n, interval, events[..|events| - 1]), n, interval, events[|events| - 1])
  }

  /** What a run pushes; an empty file is refused before any timer is set. */
  function Trace(pcm: bytes, interval: nat, events: seq<Event>): seq<Push> {
    if pcm == [] then [] else Run(PassLength(pcm), interval, events).pushes
  }

  lemma NextIndex(k: nat, n: nat)
    requires n > 0
    ensures (k + 1) % n == if k % n + 1 == n then 0 else k % n + 1
  {
    var q, r := k / n, k % n;
    assert k + 1 == q * n + (r + 1);
    if r + 1 == n {
      assert k + 1 == (q + 1) * n;
      RemainderOf(q + 1, n, 0);
    } else {
      RemainderOf(q, n, r + 1);
    }
  }

  class FramePump {
    const pcm: bytes
    const interval: nat
    const total: nat
    var index: nat
    var paused: bool
    var pauseStart: nat
    var ready: bool
    var pushes: seq<Push>
    ghost var clock: nat

    /** `initAudioConfig` on a file that is not empty. */
    constructor (data: bytes, intervalSeconds: nat)
      ensures Valid() && pcm == data && interval == intervalSeconds
      ensures !ready && pushes == [] && clock == 0
    {
      pcm, interval, total := data, intervalSeconds, |data| / FRAME_SIZE;
      index, paused, pauseStart, ready, pushes, clock := 0, false, 0, false, [], 0;
    }

    ghost predicate Valid()
      reads this
    {
      var n := PassLength(pcm);
      && total == |pcm| / FRAME_SIZE
      && index == |pushes| % n
      && (paused <==> index == 0 && pushes != [])
      && (pushes != [] ==> pushes[|pushes| - 1].time <= clock)
      && (paused ==> pushes[|pushes| - 1].time <= pauseStart)
      && Cyclic(pushes, n)
      && Spaced(pushes, n, interval)
    }

    /** The fields say what the run so far says. */
    ghost predicate Follows(p: Progress)
      reads this
    {
      ready == p.ready && pushes == p.pushes && (paused ==> pauseStart == p.over)
    }

    /** `onRemoteAudioStateChanged` and `onLeaveRoom` */
    method SetReady(r: bool)
      requires Valid()
      modifies `ready
      ensures Valid() && ready == r
    {
      ready := r;
    }

    method PushExternalAudioFrame(checked: nat, pushed: nat, ended: nat)
      requires Valid() && clock <= checked <= pushed <= ended
      modifies this
      ensures Valid() && clock == ended && ready == old(ready)
      ensures pushes == old(pushes) || pushes == old(pushes) + [Push(old(index), pushed)]
      ensures pushes != old(pushes) <==>
                ready && (old(paused) ==> (checked - old(pauseStart)) / 1_000_000_000 >= interval)
      ensures pushes == old(pushes) ==> paused == old(paused) && pauseStart == old(pauseStart)
      ensures pushes != old(pushes) && paused ==> pauseStart == ended
    {
      clock := ended;
      if !ready {
        return;
      }
      if paused {
        var elapsed := (checked - pauseStart) / SECOND;
        if elapsed < interval {
          return;
        }
        paused := false;
      }
      NextIndex(|pushes|, PassLength(pcm));
      pushes := pushes + [Push(index, pushed)];
      index := index + 1;
      if index >= total {
        index := 0;
        paused := true;
        pauseStart := ended;
      }
    }
  }

  /** Every run of the pump pushes its trace: cyclic indices, spaced passes. */
  method Play(pcm: bytes, interval: nat, events: seq<Event>) returns (pushes: seq<Push>)
    requires Monotone(events, 0)
    ensures pushes == Trace(pcm, interval, events)
    ensures Cyclic(pushes, PassLength(pcm)) && Spaced(pushes, PassLength(pcm), interval)
  {
    if |pcm| == 0 {
      return [];
    }
    var pump := new FramePump(pcm, interval);
    var k := 0;
    while k < |events|
      invariant 0 <= k <= |events| && fresh(pump) && pump.Valid()
      invariant pump.pcm == pcm && pump.interval == interval
      invariant Monotone(events[k..], pump.clock)
      invariant pump.Follows(Run(PassLength(pcm), interval, events[..k]))
    {
      assert events[k..][1..] == events[k + 1..];
      assert events[..k + 1][..k] == events[..k];
      match events[k] {
        case Ready(r) => pump.SetReady(r);
        case Tick(checked, pushed, ended) =>
          ghost var sofar := pump.pushes;
          assert pump.paused <==> sofar != [] && |sofar| % PassLength(pcm) == 0;
          pump.PushExternalAudioFrame(checked, pushed, ended);
      }
      k := k + 1;
    }
    assert events[..|events|] == events;
    pushes := pump.pushes;
  }

  /** The first tick once the room is ready pushes the first slice, however short the file. */
  lemma FirstTickPushes(pcm: bytes, interval: nat)
    requires pcm != []
    ensures Monotone([Ready(true), Tick(0, 0, 0)], 0)
    ensures Trace(pcm, interval, [Ready(true), Tick(0, 0, 0)]) == [Push(0, 0)]
  {
    var events := [Ready(true), Tick(0, 0, 0)];
    var n := PassLength(pcm);
    assert events[..1] == [Ready(true)] && events[..1][..0] == [];
    assert Run(n, interval, events[..1]) == Progress(true, [], 0);
    assert events[1..] == [Tick(0, 0, 0)] && events[1..][1..] == [];
  }

  /** Every slice of every run lies inside the data. */
  ghost predicate AlwaysInside(pcm: bytes) {
    forall interval: nat, events: seq<Event> | Monotone(events, 0) ::
      forall p :: p in Trace(pcm, interval, events) ==> InsideData(pcm, p)
  }

  lemma {:induction false} RunIsCyclic(n: nat, interval: nat, events: seq<Event>)
    requires n > 0
    ensures Cyclic(Run(n, interval, events).pushes, n)
    decreases |events|
  {
    if events != [] {
      RunIsCyclic(n, interval, events[..|events| - 1]);
    }
  }

  lemma SlicesInside(pcm: bytes, pushes: seq<Push>)
    requires Cyclic(pushes, PassLength(pcm)) && pushes != []
    ensures (forall p :: p in pushes ==> InsideData(pcm, p)) <==> |pcm| >= FRAME_SIZE
  {
    if |pcm| >= FRAME_SIZE {
      forall p | p in pushes ensures InsideData(pcm, p) {
        var k :| 0 <= k < |pushes| && pushes[k] == p;
        assert p.index < |pcm| / FRAME_SIZE;
      }
    } else {
      assert pushes[0] in pushes && !InsideData(pcm, pushes[0]);
    }
  }

  /** That is so exactly for an empty file, which is refused, and for one that holds a whole frame. */
  lemma InsideExactly(pcm: bytes)
    ensures AlwaysInside(pcm) <==> pcm == [] || |pcm| >= 1920
  {
    if |pcm| >= FRAME_SIZE {
      forall interval: nat, events: seq<Event>, p | Monotone(events, 0) && p in Trace(pcm, interval, events)
        ensures InsideData(pcm, p)
      {
        RunIsCyclic(PassLength(pcm), interval, events);
        SlicesInside(pcm, Trace(pcm, interval, events));
      }
    } else if pcm != [] {
      FirstTickPushes(pcm, 0);
      assert Push(0, 0) in Trace(pcm, 0, [Ready(true), Tick(0, 0, 0)]) && !InsideData(pcm, Push(0, 0));
    }
  }

  /** One pass plays the data up to its last whole frame. */
  lemma {:induction false} PassPlaysData(pcm: bytes, pass: seq<Push>)
    requires |pass| <= |pcm| / FRAME_SIZE
    requires forall k :: 0 <= k < |pass| ==> pass[k].index == k
    ensures forall p :: p in pass ==> InsideData(pcm, p)
    ensures Played(pcm, pass) == pcm[..|pass| * FRAME_SIZE]
    decreases |pass|
  {
    if pass != [] {
      var n := |pass| - 1;
      PassPlaysData(pcm, pass[..n]);
      assert forall p :: p in pass ==> p in pass[..n] || p == pass[n];
      assert pcm[..n * FRAME_SIZE] + pcm[n * FRAME_SIZE..(n + 1) * FRAME_SIZE] == pcm[..(n + 1) * FRAME_SIZE];
    }
  }

  lemma PushOfPass(pushes: seq<Push>, n: nat, pass: nat, k: nat)
    requires n > 0 && Cyclic(pushes, n) && k < n && pass * n + k < |pushes|
    ensures pushes[pass * n + k].index == k
  {
    RemainderOf(pass, n, k);
  }

  lemma SliceIndices(pushes: seq<Push>, start: nat, n: nat)
    requires start + n <= |pushes| && forall j :: start <= j < start + n ==> pushes[j].index == j - start
    ensures var frames := pushes[start..start + n]; forall k :: 0 <= k < n ==> frames[k].index == k
  {
  }

  lemma WholeFrames(pcm: bytes)
    requires |pcm| >= FRAME_SIZE
    ensures PassLength(pcm) == |pcm| / FRAME_SIZE
  {
  }

  lemma FramesFrom(pcm: bytes, pushes: seq<Push>, start: nat)
    requires |pcm| >= FRAME_SIZE && start + PassLength(pcm) <= |pushes|
    requires forall j :: start <= j < start + PassLength(pcm) ==> pushes[j].index == j - start
    ensures var n := PassLength(pcm);
            var frames := pushes[start..start + n];
            && (forall p :: p in frames ==> InsideData(pcm, p))
            && Played(pcm, frames) == pcm[..n * FRAME_SIZE]
  {
    hide PassLength, InsideData, Played;
    WholeFrames(pcm);
    SliceIndices(pushes, start, PassLength(pcm));
    PassPlaysData(pcm, pushes[start..start + PassLength(pcm)]);
  }

  /** Every full pass of a run plays the data up to its last whole frame. */
  lemma PassOfRun(pcm: bytes, pushes: seq<Push>, pass: nat)
    requires |pcm| >= 1920 && Cyclic(pushes, PassLength(pcm))
    requires pass * PassLength(pcm) + PassLength(pcm) <= |pushes|
    ensures PassLength(pcm) == |pcm| / 1920
    ensures var n := PassLength(pcm);
            var frames := pushes[pass * n..pass * n + n];
            && (forall p :: p in frames ==> InsideData(pcm, p))
            && Played(pcm, frames) == pcm[..n * 1920]
  {
    hide InsideData, Played, Cyclic, PassLength;
    WholeFrames(pcm);
    var n := PassLength(pcm);
    var start := pass * n;
    forall j | start <= j < start + n ensures pushes[j].index == j - start {
      PushOfPass(pushes, n, pass, j - start);
    }
    FramesFrom(pcm, pushes, start);
  }
}
