/** `splitString` and `join`. */
module Split {
  import opened Bytes

  /** `carry` stands in `s` at `k`. */
  predicate StandsAt(s: bytes, carry: bytes, k: nat) {
    k + |carry| <= |s| && s[k..k + |carry|] == carry
  }

  ghost predicate Contains(s: bytes, carry: bytes) {
    exists k: nat :: StandsAt(s, carry, k)
  }

  /** `std::string::find`: the first place at or after `from`. */
  function Find(s: bytes, carry: bytes, from: nat): (r: Option<nat>)
    ensures r.Some? ==> from <= r.value && StandsAt(s, carry, r.value)
    ensures forall k: nat :: from <= k < (if r.Some? then r.value else |s|) ==> carry != [] ==> !StandsAt(s, carry, k)
    decreases |s| - from
  {
    if StandsAt(s, carry, from) then Some(from)
    else if from >= |s| then None
    else Find(s, carry, from + 1)
  }

  /** A place and the size of the carry found there; at the end of the string, size 0. */
  datatype Cut = Cut(last: nat, size: nat)

  /** Of two cuts the earlier; the first one when they are at the same place. */
  function Earlier(cut: Cut, s: bytes, carry: bytes, from: nat): Cut {
    match Find(s, carry, from)
    case Some(k) => if k < cut.last then Cut(k, |carry|) else cut
    case None => cut
  }

  /** The cut the inner loop chooses from position `from` on. */
  function NextCut(s: bytes, carries: seq<bytes>, from: nat): Cut {
    if carries == [] then Cut(|s|, 0)
    else Earlier(NextCut(s, carries[..|carries| - 1], from), s, carries[|carries| - 1], from)
  }

  /** A cut at a carry or at the end, and no carry stands in front of it. */
  ghost predicate FirstCut(s: bytes, carries: seq<bytes>, from: nat, cut: Cut) {
    && from <= cut.last <= |s| && cut.last + cut.size <= |s|
    && (cut.last == |s| ==> cut.size == 0)
    && (cut.last < |s| ==>
          exists i :: 0 <= i < |carries| && StandsAt(s, carries[i], cut.last) && cut.size == |carries[i]|)
    && forall i, k: nat :: 0 <= i < |carries| && from <= k < cut.last ==> !StandsAt(s, carries[i], k)
  }

  lemma FoundFits(s: bytes, c: bytes, from: nat)
    requires from <= |s|
    ensures Find(s, c, from).Some? ==> Find(s, c, from).value + |c| <= |s|
    ensures forall k: nat :: from <= k < (if Find(s, c, from).Some? then Find(s, c, from).value else |s|) ==>
              !StandsAt(s, c, k)
  {
    assert c == [] ==> StandsAt(s, c, from);
  }

  lemma {:induction false} CutIsFirst(s: bytes, carries: seq<bytes>, from: nat)
    requires from < |s|
    ensures FirstCut(s, carries, from, NextCut(s, carries, from))
  {
    hide StandsAt;
    if carries != [] {
      var front, c := carries[..|carries| - 1], carries[|carries| - 1];
      CutIsFirst(s, front, from);
      FoundFits(s, c, from);
      var cut := NextCut(s, carries, from);
      forall i, k: nat | 0 <= i < |carries| && from <= k < cut.last ensures !StandsAt(s, carries[i], k) {
        assert i < |front| ==> carries[i] == front[i];
      }
      if cut.last < |s| && cut != NextCut(s, front, from) {
        assert Find(s, c, from) == Some(cut.last) && carries[|front|] == c;
      } else if cut.last < |s| {
        var i :| 0 <= i < |front| && StandsAt(s, front[i], cut.last) && cut.size == |front[i]|;
        assert carries[i] == front[i];
      }
    }
  }

  /** The loop ends: every turn gets past its position. */
  predicate Ends(s: bytes, carries: seq<bytes>, pos: nat)
    decreases |s| - pos
  {
    pos >= |s| ||
    (var cut := NextCut(s, carries, pos);
     cut.last + cut.size > pos && Ends(s, carries, cut.last + cut.size))
  }

  predicate NonEmpty(carries: seq<bytes>) {
    forall i :: 0 <= i < |carries| ==> carries[i] != []
  }

  /** It always does when no carry is empty. */
  lemma {:induction false} NonEmptyEnds(s: bytes, carries: seq<bytes>, pos: nat)
    requires NonEmpty(carries)
    ensures Ends(s, carries, pos)
    decreases |s| - pos
  {
    if pos < |s| {
      var cut := NextCut(s, carries, pos);
      CutIsFirst(s, carries, pos);
      NonEmptyEnds(s, carries, cut.last + cut.size);
    }
  }

  /** The first carry in the list that stands at `pos`. */
  function FirstAt(s: bytes, carries: seq<bytes>, pos: nat): (r: Option<bytes>)
    ensures r.None? ==> forall i :: 0 <= i < |carries| ==> !StandsAt(s, carries[i], pos)
    ensures r.Some? ==> r.value in carries && StandsAt(s, r.value, pos)
  {
    if carries == [] then None
    else
      var n := |carries| - 1;
      var earlier := FirstAt(s, carries[..n], pos);
      if earlier.Some? then earlier else if StandsAt(s, carries[n], pos) then Some(carries[n]) else None
  }

  lemma {:induction false} FirstAtSplit(s: bytes, a: seq<bytes>, b: seq<bytes>, pos: nat)
    ensures FirstAt(s, a + b, pos) == if FirstAt(s, a, pos).Some? then FirstAt(s, a, pos) else FirstAt(s, b, pos)
    decreases |b|
  {
    hide StandsAt;
    if b == [] {
      assert a + b == a;
    } else {
      FirstAtSplit(s, a, b[..|b| - 1], pos);
      assert (a + b)[..|a + b| - 1] == a + b[..|b| - 1];
    }
  }

  /** A carry at the very position is where the cut is made. */
  lemma {:induction false} CutHere(s: bytes, carries: seq<bytes>, pos: nat)
    requires pos < |s| && FirstAt(s, carries, pos).Some?
    ensures NextCut(s, carries, pos) == Cut(pos, |FirstAt(s, carries, pos).value|)
    decreases |carries|
  {
    hide StandsAt;
    var front := carries[..|carries| - 1];
    if FirstAt(s, front, pos).Some? {
      CutHere(s, front, pos);
    } else {
      CutIsFirst(s, front, pos);
      FoundFits(s, carries[|carries| - 1], pos);
    }
  }

  /** From `pos` to the end, carry follows on carry. */
  predicate Tiled(s: bytes, carries: seq<bytes>, pos: nat)
    requires NonEmpty(carries)
    decreases |s| - pos
  {
    pos >= |s| || (FirstAt(s, carries, pos).Some? && Tiled(s, carries, pos + |FirstAt(s, carries, pos).value|))
  }

  lemma EmptyStands(s: bytes, pos: nat)
    requires pos <= |s|
    ensures FirstAt(s, [[]], pos) == Some([])
  {
    assert StandsAt(s, [], pos);
  }

  /** With an empty carry the loop ends exactly on strings that the carries in front of the empty one tile. */
  lemma {:induction false} EmptyCarryEnds(s: bytes, front: seq<bytes>, back: seq<bytes>, pos: nat)
    requires NonEmpty(front)
    ensures Ends(s, front + [[]] + back, pos) <==> Tiled(s, front, pos)
    decreases |s| - pos
  {
    hide NextCut;
    if pos < |s| {
      var carries := front + [[]] + back;
      FirstAtSplit(s, front + [[]], back, pos);
      FirstAtSplit(s, front, [[]], pos);
      EmptyStands(s, pos);
      CutHere(s, carries, pos);
      if FirstAt(s, front, pos).Some? {
        EmptyCarryEnds(s, front, back, pos + |FirstAt(s, front, pos).value|);
      }
    }
  }

  /** The parts from position `pos` on. */
  function Parts(s: bytes, carries: seq<bytes>, pos: nat): seq<bytes>
    requires Ends(s, carries, pos)
    decreases |s| - pos
  {
    if pos >= |s| then []
    else
      var cut := NextCut(s, carries, pos);
      CutIsFirst(s, carries, pos);
      (if cut.last > pos then [s[pos..cut.last]] else []) + Parts(s, carries, cut.last + cut.size)
  }

  /** The inner loop of `splitString`. */
  method ChooseCut(value: bytes, carries: seq<bytes>, pos: nat) returns (cut: Cut)
    ensures cut == NextCut(value, carries, pos)
  {
    cut := Cut(|value|, 0);
    for i := 0 to |carries|
      invariant cut == NextCut(value, carries[..i], pos)
    {
      assert carries[..i + 1][..i] == carries[..i] && carries[..i + 1][i] == carries[i];
      var next := Find(value, carries[i], pos);
      if next.Some? && next.value < cut.last {
        cut := Cut(next.value, |carries[i]|);
      }
    }
    assert carries[..|carries|] == carries;
  }

  /** `splitString` */
  method SplitString(value: bytes, carries: seq<bytes>) returns (components: seq<bytes>)
    requires Ends(value, carries, 0)
    ensures components == Parts(value, carries, 0)
  {
    hide NextCut;
    components := [];
    if |value| == 0 {
      return;
    }
    var pos := 0;
    while pos < |value|
      invariant 0 <= pos && Ends(value, carries, pos)
      invariant components + Parts(value, carries, pos) == Parts(value, carries, 0)
      decreases |value| - pos
    {
      var cut := ChooseCut(value, carries, pos);
      CutIsFirst(value, carries, pos);
      if cut.last > pos {
        components := components + [value[pos..cut.last]];
      }
      pos := cut.last + cut.size;
    }
  }

  /** No part is empty, and none contains a carry. */
  ghost predicate Clean(parts: seq<bytes>, carries: seq<bytes>) {
    forall j :: 0 <= j < |parts| ==>
      parts[j] != [] && forall i :: 0 <= i < |carries| ==> !Contains(parts[j], carries[i])
  }

  lemma SliceIsClean(s: bytes, carries: seq<bytes>, from: nat, cut: Cut)
    requires from < cut.last && FirstCut(s, carries, from, cut)
    ensures Clean([s[from..cut.last]], carries)
  {
    var p := s[from..cut.last];
    forall i, k: nat | 0 <= i < |carries| ensures !StandsAt(p, carries[i], k) {
      var c := carries[i];
      assert !StandsAt(s, c, from);
      if c != [] && k + |c| <= |p| {
        assert !StandsAt(s, c, from + k);
        assert s[from + k..from + k + |c|] == p[k..k + |c|];
      }
    }
  }

  lemma {:induction false} PartsAreClean(s: bytes, carries: seq<bytes>, pos: nat)
    requires Ends(s, carries, pos)
    ensures Clean(Parts(s, carries, pos), carries)
    decreases |s| - pos
  {
    hide NextCut, Contains;
    if pos < |s| {
      var cut := NextCut(s, carries, pos);
      CutIsFirst(s, carries, pos);
      PartsAreClean(s, carries, cut.last + cut.size);
      if cut.last > pos {
        SliceIsClean(s, carries, pos, cut);
        assert [s[pos..cut.last]][0] == s[pos..cut.last];
      }
    }
  }

  /** A stretch of the string up to a carry, and that carry; the last one may end at the end of the string instead. */
  datatype Piece = Piece(part: bytes, carry: bytes)

  function Glue(pieces: seq<Piece>): bytes {
    if pieces == [] then [] else pieces[0].part + pieces[0].carry + Glue(pieces[1..])
  }

  function Filled(pieces: seq<Piece>): seq<bytes> {
    if pieces == [] then []
    else (if pieces[0].part != [] then [pieces[0].part] else []) + Filled(pieces[1..])
  }

  predicate Between(pieces: seq<Piece>, carries: seq<bytes>) {
    forall j :: 0 <= j < |pieces| ==> pieces[j].carry in carries || (j == |pieces| - 1 && pieces[j].carry == [])
  }

  lemma CarryAtCut(s: bytes, carries: seq<bytes>, from: nat, cut: Cut)
    requires FirstCut(s, carries, from, cut) && cut.last < |s|
    ensures s[cut.last..cut.last + cut.size] in carries
  {
    var i :| 0 <= i < |carries| && StandsAt(s, carries[i], cut.last) && cut.size == |carries[i]|;
    assert carries[i] in carries;
  }

  /** Nothing is lost: the parts are the filled stretches of a division of the string at carries. */
  lemma {:induction false} PartsRebuild(s: bytes, carries: seq<bytes>, pos: nat) returns (pieces: seq<Piece>)
    requires pos <= |s| && Ends(s, carries, pos)
    ensures Glue(pieces) == s[pos..] && Between(pieces, carries)
    ensures Filled(pieces) == Parts(s, carries, pos)
    decreases |s| - pos
  {
    hide NextCut, StandsAt;
    if pos == |s| {
      pieces := [];
    } else {
      var cut := NextCut(s, carries, pos);
      CutIsFirst(s, carries, pos);
      var next := cut.last + cut.size;
      var piece := Piece(s[pos..cut.last], s[cut.last..next]);
      assert s[pos..] == s[pos..cut.last] + s[cut.last..next] + s[next..];
      if cut.last < |s| {
        CarryAtCut(s, carries, pos, cut);
        var rest := PartsRebuild(s, carries, next);
        pieces := [piece] + rest;
        assert pieces[1..] == rest;
        assert forall j :: 0 < j < |pieces| ==> pieces[j] == rest[j - 1];
      } else {
        pieces := [piece];
        assert pieces[1..] == [];
      }
    }
  }

  // ----- single characters

  function Singles(seps: bytes): (carries: seq<bytes>)
    ensures NonEmpty(carries) && |carries| == |seps| && forall k :: 0 <= k < |seps| ==> carries[k] == [seps[k]]
  {
    seq(|seps|, k requires 0 <= k < |seps| => [seps[k]])
  }

  /** The maximal runs of characters that are no separators, read one character at a time; `held` is the run so far. */
  function Runs(s: bytes, seps: bytes, held: bytes): seq<bytes>
    decreases |s|
  {
    if s == [] then (if held == [] then [] else [held])
    else if s[0] in seps then (if held == [] then [] else [held]) + Runs(s[1..], seps, [])
    else Runs(s[1..], seps, held + [s[0]])
  }

  lemma {:induction false} RunGoesOn(s: bytes, seps: bytes, held: bytes, n: nat)
    requires n <= |s| && forall k :: 0 <= k < n ==> s[k] !in seps
    ensures Runs(s, seps, held) == Runs(s[n..], seps, held + s[..n])
    decreases n
  {
    if n == 0 {
      assert held + s[..0] == held && s[0..] == s;
    } else {
      RunGoesOn(s[1..], seps, held + [s[0]], n - 1);
      assert s[1..][n - 1..] == s[n..];
      assert held + [s[0]] + s[1..][..n - 1] == held + s[..n];
    }
  }

  lemma NoSeparatorBefore(s: bytes, seps: bytes, from: nat, cut: Cut)
    requires FirstCut(s, Singles(seps), from, cut)
    ensures forall k :: from <= k < cut.last ==> s[k] !in seps
    ensures cut.last < |s| ==> cut.size == 1 && s[cut.last] in seps
  {
    forall k, i | from <= k < cut.last && 0 <= i < |seps| ensures s[k] != seps[i] {
      assert !StandsAt(s, Singles(seps)[i], k) && s[k..k + 1] == [s[k]];
    }
    if cut.last < |s| {
      var i :| 0 <= i < |seps| && StandsAt(s, Singles(seps)[i], cut.last) && cut.size == 1;
      assert s[cut.last] == s[cut.last..cut.last + 1][0] == seps[i];
    }
  }

  lemma RunEnds(s: bytes, seps: bytes, pos: nat, last: nat)
    requires pos <= last <= |s| && forall k :: pos <= k < last ==> s[k] !in seps
    requires last < |s| ==> s[last] in seps
    ensures Runs(s[pos..], seps, [])
            == (if last > pos then [s[pos..last]] else []) + (if last < |s| then Runs(s[last + 1..], seps, []) else [])
  {
    var rest := s[pos..];
    RunGoesOn(rest, seps, [], last - pos);
    assert [] + rest[..last - pos] == s[pos..last] && rest[last - pos..] == s[last..];
    if last < |s| {
      assert s[last..][1..] == s[last + 1..];
    }
  }

  lemma SinglesEnd(s: bytes, seps: bytes, pos: nat)
    ensures Ends(s, Singles(seps), pos)
  {
    NonEmptyEnds(s, Singles(seps), pos);
  }

  lemma OnePart(s: bytes, seps: bytes, pos: nat) returns (last: nat)
    requires pos < |s|
    ensures pos <= last <= |s| && (last < |s| ==> s[last] in seps) && forall k :: pos <= k < last ==> s[k] !in seps
    ensures Ends(s, Singles(seps), pos) && Ends(s, Singles(seps), last + 1)
    ensures Parts(s, Singles(seps), pos)
            == (if last > pos then [s[pos..last]] else [])
               + (if last < |s| then Parts(s, Singles(seps), last + 1) else [])
  {
    hide NextCut, Singles;
    SinglesEnd(s, seps, pos);
    var cut := NextCut(s, Singles(seps), pos);
    CutIsFirst(s, Singles(seps), pos);
    NoSeparatorBefore(s, seps, pos, cut);
    last := cut.last;
    SinglesEnd(s, seps, last + 1);
  }

  lemma NoParts(s: bytes, seps: bytes)
    ensures Ends(s, Singles(seps), |s|) && Parts(s, Singles(seps), |s|) == []
  {
  }

  lemma NoRuns(seps: bytes)
    ensures Runs([], seps, []) == []
  {
  }

  /** With single-character carries the parts are the maximal separator-free runs, in order. */
  lemma {:induction false} PartsAreRuns(s: bytes, seps: bytes, pos: nat)
    requires pos <= |s|
    ensures Ends(s, Singles(seps), pos) && Parts(s, Singles(seps), pos) == Runs(s[pos..], seps, [])
    decreases |s| - pos
  {
    hide Singles, Runs, Ends, Parts;
    SinglesEnd(s, seps, pos);
    if pos < |s| {
      var last := OnePart(s, seps, pos);
      RunEnds(s, seps, pos, last);
      if last < |s| {
        PartsAreRuns(s, seps, last + 1);
      }
    } else {
      NoRuns(seps);
      NoParts(s, seps);
      assert s[pos..] == [];
    }
  }

  // ----- joining

  function Joined(parts: seq<bytes>, c: bytes): bytes {
    if parts == [] then []
    else if |parts| == 1 then parts[0]
    else parts[0] + c + Joined(parts[1..], c)
  }

  /** `join` */
  method Join(parts: seq<bytes>, c: bytes) returns (s: bytes)
    ensures s == Joined(parts, c)
  {
    s := [];
    if parts == [] {
      return;
    }
    var i, j := 0, 1;
    while j < |parts|
      invariant 0 <= i < |parts| && j == i + 1
      invariant s + Joined(parts[i..], c) == Joined(parts, c)
    {
      assert parts[i..][0] == parts[i] && parts[i..][1..] == parts[j..];
      s := s + parts[i];
      s := s + c;
      i, j := i + 1, j + 1;
    }
    s := s + parts[i];
  }

  predicate FreeOf(parts: seq<bytes>, c: byte) {
    forall j :: 0 <= j < |parts| ==> parts[j] != [] && c !in parts[j]
  }

  lemma {:induction false} RunsOfJoined(parts: seq<bytes>, c: byte)
    requires FreeOf(parts, c)
    ensures Runs(Joined(parts, [c]), [c], []) == parts
  {
    if parts != [] {
      var s, p := Joined(parts, [c]), parts[0];
      var rest := if |parts| == 1 then [] else [c] + Joined(parts[1..], [c]);
      assert s == p + rest;
      assert forall k :: 0 <= k < |p| ==> s[k] == p[k];
      hide Runs, Joined;
      RunEnds(s, [c], 0, |p|);
      assert s[0..] == s && s[..|p|] == p;
      if |parts| > 1 {
        assert s[|p| + 1..] == Joined(parts[1..], [c]);
        RunsOfJoined(parts[1..], c);
      }
    } else {
      NoRuns([c]);
    }
  }

  lemma CleanIsFree(parts: seq<bytes>, c: byte)
    requires Clean(parts, [[c]])
    ensures FreeOf(parts, c)
  {
    forall j, k | 0 <= j < |parts| && 0 <= k < |parts[j]| ensures parts[j][k] != c {
      var p := parts[j];
      assert !Contains(p, [[c]][0]);
      assert !StandsAt(p, [c], k) && p[k..k + 1] == [p[k]];
    }
  }

  /** Splitting what was joined with one character gives the parts back exactly when they are non-empty and free of
      it. */
  lemma SplitInvertsJoin(parts: seq<bytes>, c: byte)
    ensures Ends(Joined(parts, [c]), [[c]], 0)
    ensures Parts(Joined(parts, [c]), [[c]], 0) == parts <==> FreeOf(parts, c)
  {
    hide Parts, Joined, FreeOf, Clean;
    var s := Joined(parts, [c]);
    assert Singles([c]) == [[c]] && s[0..] == s;
    PartsAreRuns(s, [c], 0);
    PartsAreClean(s, [[c]], 0);
    if FreeOf(parts, c) {
      RunsOfJoined(parts, c);
    } else if Parts(s, [[c]], 0) == parts {
      CleanIsFree(parts, c);
    }
  }
}
