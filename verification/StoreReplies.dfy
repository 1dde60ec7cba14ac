/**
 * What each store operation answers and leaves behind, case by case and over all inputs
 * (internal/archive/fsstore.go, memory.go, lifecycle.go).
 */
module StoreReplies {
  import opened Prelude
  import opened Frames
  import opened Text
  import opened PackModel
  import opened PackIndexes
  import opened ArchiveStore
  import Quarantine

  /** The steps are tried in turn: one that fails or crashes is reached only when all before it are done. */
  ghost predicate StopsWith(steps: seq<Outcome>, how: Outcome) {
    exists k :: 0 <= k < |steps| && steps[k] == how && how != Done && forall j :: 0 <= j < k ==> steps[j] == Done
  }

  predicate AllGo(steps: seq<Outcome>) { forall k :: 0 <= k < |steps| ==> steps[k] == Done }

  lemma {:induction false} StopsFirst(a: Outcome, rest: seq<Outcome>, how: Outcome)
    ensures StopsWith([a] + rest, how) <==> how != Done && (a == how || (a == Done && StopsWith(rest, how)))
    ensures AllGo([a] + rest) <==> a == Done && AllGo(rest)
  {
    var all := [a] + rest;
    if a == how && how != Done { assert all[0] == how; }
    if a == Done && StopsWith(rest, how) {
      var k :| 0 <= k < |rest| && rest[k] == how && how != Done && forall j :: 0 <= j < k ==> rest[j] == Done;
      assert all[k + 1] == how && forall j :: 0 <= j < k + 1 ==> all[j] == Done;
    }
    if StopsWith(all, how) {
      var k :| 0 <= k < |all| && all[k] == how && how != Done && forall j :: 0 <= j < k ==> all[j] == Done;
      if k > 0 {
        assert all[0] == Done;
        assert rest[k - 1] == how && forall j :: 0 <= j < k - 1 ==> rest[j] == all[j + 1];
      }
    }
    assert all[0] == a;
    if AllGo(all) { assert forall k :: 0 <= k < |rest| ==> rest[k] == all[k + 1]; }
  }

  lemma {:induction false} ThenStops(steps: seq<Outcome>, how: Outcome)
    requires |steps| == 4 || |steps| == 2
    ensures var all := if |steps| == 4 then Then(steps[0], Then(steps[1], Then(steps[2], steps[3]))) else Then(steps[0], steps[1]);
            (how != Done ==> (all == how <==> StopsWith(steps, how))) && (all == Done <==> AllGo(steps))
  {
    hide StopsWith;
    if |steps| == 4 {
      StopsFirst(steps[0], steps[1..], how);
      StopsFirst(steps[1], steps[2..], how);
      assert steps == [steps[0]] + steps[1..] && steps[1..] == [steps[1]] + steps[2..];
      Last(steps[2..], how);
    } else {
      Last(steps, how);
    }
  }

  lemma {:induction false} Last(steps: seq<Outcome>, how: Outcome)
    requires |steps| == 2
    ensures StopsWith(steps, how) <==> how != Done && (steps[0] == how || (steps[0] == Done && steps[1] == how))
  {
    hide StopsWith;
    StopsFirst(steps[0], steps[1..], how);
    StopsFirst(steps[1], [], how);
    assert steps == [steps[0]] + steps[1..] && steps[1..] == [steps[1]] + [];
    NoStop(how);
  }

  lemma {:induction false} NoStop(how: Outcome)
    ensures !StopsWith([], how)
  {}

  /** An id that is one path segment: no separator, and no two dots in a row. */
  lemma {:induction false} PathOkIff(id: string)
    ensures PathOk(id) <==> (
      var key := TrimSpace(id);
      key != "" && (forall c :: c in key ==> c != '/' && c != '\\') && forall a, b :: a + ".." + b != key)
  {
    hide TrimSpace;
    var key := TrimSpace(id);
    if HasDotDot(key) {
      var i :| 0 <= i < |key| && DotDotAt(key, i);
      assert key == key[..i] + ".." + key[i + 2..];
    }
    forall a, b | a + ".." + b == key ensures HasDotDot(key) { assert DotDotAt(key, |a|); }
  }

  /** What the store takes: bytes within the limit that open, verify, and say that they are this pack. */
  lemma {:induction false} AcceptsIff(lib: Library, key: string, data: seq<byte>)
    ensures Accepts(lib, key, data) <==>
            key != "" && 0 < |data| <= 268435456 && exists st :: lib.open(data) == Some(st) && st.packID == key && lib.verifies(data, st)
  {
    if Accepts(lib, key, data) { assert lib.open(data) == Some(lib.open(data).value); }
  }

  /** Which put is published, refused or cut off. */
  lemma {:induction false} PutReplies(lib: Library, s: Store, id: string, affinity: string, data: seq<byte>, now: string,
                                      plan: PutPlan)
    ensures var key := TrimSpace(id);
            var disk, index := [plan.stage, plan.write, plan.close, plan.rename], [plan.indexWrite, plan.indexRename];
            var tried := Accepts(lib, key, data) && PathOk(id);
            var r := AfterPut(lib, s, id, affinity, data, now, plan).1;
            && (r == Published <==> tried && AllGo(disk) && !StopsWith(index, Crashed))
            && (r == PutDied <==> tried && (StopsWith(disk, Crashed) || (AllGo(disk) && StopsWith(index, Crashed))))
            && (r == Refused <==> !tried || StopsWith(disk, Failed))
  {
    hide TrimSpace, PathOk, Accepts, IndexOf, StopsWith, AllGo;
    var disk, index := [plan.stage, plan.write, plan.close, plan.rename], [plan.indexWrite, plan.indexRename];
    ThenStops(disk, Crashed);
    ThenStops(disk, Failed);
    ThenStops(index, Crashed);
  }

  /** What a put leaves: file, sidecar and row change only as far as its steps went. */
  lemma {:induction false} PutLeaves(lib: Library, s: Store, id: string, affinity: string, data: seq<byte>, now: string,
                                     plan: PutPlan)
    ensures var key := TrimSpace(id);
            var disk, index := [plan.stage, plan.write, plan.close, plan.rename], [plan.indexWrite, plan.indexRename];
            var tried := Accepts(lib, key, data) && PathOk(id);
            var (t, r) := AfterPut(lib, s, id, affinity, data, now, plan);
            && t.quarantine == s.quarantine
            && t.packs == (if tried && AllGo(disk) then s.packs[key := data] else s.packs)
            && (!(tried && AllGo(disk + index)) ==> t.sidecars == s.sidecars)
            && (tried && AllGo(disk + index) ==>
                  t.sidecars == s.sidecars[key := Some(IndexOf(lib, id, affinity, data, lib.open(data).value, now))])
            && (r == PutDied ==> t.catalog == map[])
            && (r == Refused ==> t.catalog == if Accepts(lib, key, data)
                                              then s.catalog[key := Entry(data, affinity, false, true)] - {id} else s.catalog)
            && (r == Published && id == key ==>
                  t.catalog == s.catalog[key := Entry(data, affinity, AllGo(index), !AllGo(index))])
  {
    hide TrimSpace, PathOk, Accepts, IndexOf, AllGo;
    var disk, index := [plan.stage, plan.write, plan.close, plan.rename], [plan.indexWrite, plan.indexRename];
    ThenStops(disk, Crashed);
    ThenStops(index, Crashed);
    AllGoBoth(disk, index);
  }

  lemma {:induction false} AllGoBoth(a: seq<Outcome>, b: seq<Outcome>)
    ensures AllGo(a + b) <==> AllGo(a) && AllGo(b)
  {
    if AllGo(a + b) {
      assert forall k :: 0 <= k < |a| ==> a[k] == (a + b)[k];
      assert forall k :: 0 <= k < |b| ==> b[k] == (a + b)[|a| + k];
    }
  }

  /** A delete removes what its removals take away, whatever it answers; its answer follows the catalog. */
  lemma {:induction false} DeleteLeaves(s: Store, id: string, removePack: Outcome, removeIndex: Outcome)
    ensures var key := TrimSpace(id);
            var (t, r) := AfterDelete(s, id, removePack, removeIndex);
            && (r == DeleteRefused <==> !PathOk(id))
            && (r == DeleteDied <==> PathOk(id) && (removePack == Crashed || removeIndex == Crashed))
            && (r == Deleted ==> id in s.catalog) && (r == DeleteNotFound ==> id !in s.catalog)
            && t.quarantine == s.quarantine
            && t.packs == (if PathOk(id) && removePack == Done then s.packs - {key} else s.packs)
            && t.sidecars == (if PathOk(id) && removePack != Crashed && removeIndex == Done then s.sidecars - {key} else s.sidecars)
            && t.catalog == (if r == DeleteRefused then s.catalog else if r == DeleteDied then map[] else s.catalog - {id})
  {
    hide TrimSpace, PathOk;
  }

  /** What an open answers, for an id without spaces around it. */
  lemma {:induction false} OpenReplies(lib: Library, s: Store, id: string, packReadable: bool, indexReadable: bool)
    requires TrimSpace(id) == id
    ensures var cached := id in s.catalog && s.catalog[id].data != [];
            var r := AfterOpen(lib, s, id, packReadable, indexReadable).1;
            && (cached ==> r == Opened(s.catalog[id].data))
            && (!cached ==> (r == OpenRefused <==> !PathOk(id)))
            && (!cached && PathOk(id) && id !in s.packs ==>
                  r == if exists n :: n in s.quarantine && Quarantine.Counts(n, id) then IsInQuarantine else OpenNotFound)
            && (!cached && PathOk(id) && id in s.packs ==>
                  && (r == ReadFailed <==> !packReadable)
                  && (r == OpenRejected <==> packReadable && !Accepts(lib, id, s.packs[id]))
                  && (r == Opened(s.packs[id]) <==> packReadable && Accepts(lib, id, s.packs[id])))
  {
    hide TrimSpace, PathOk, Accepts, Trusts, Quarantine.Counts;
  }

  /** An open changes at most the one row it loads, and that row is trusted exactly when a readable sidecar is. */
  lemma {:induction false} OpenLoads(lib: Library, s: Store, id: string, packReadable: bool, indexReadable: bool)
    requires TrimSpace(id) == id
    ensures var t := AfterOpen(lib, s, id, packReadable, indexReadable).0;
            var loads := (id !in s.catalog || s.catalog[id].data == []) && PathOk(id) && id in s.packs && packReadable
                         && Accepts(lib, id, s.packs[id]);
            var trusted := loads && indexReadable && id in s.sidecars && Trusts(lib, id, s.packs[id], s.sidecars[id]);
            && (!loads ==> t == s)
            && (loads ==> t.packs == s.packs && t.sidecars == s.sidecars && t.quarantine == s.quarantine)
            && (loads && !trusted ==> t.catalog == s.catalog[id := Entry(s.packs[id], "", false, true)])
            && (trusted ==> s.sidecars[id].Some?
                            && t.catalog == s.catalog[id := Entry(s.packs[id], s.sidecars[id].value.affinity, true, false)])
  {
    hide TrimSpace, PathOk, Accepts, Quarantine.Counts, BindMatches;
    if id in s.packs { TrustNeeds(lib, id, s.packs[id]); }
  }

  lemma {:induction false} TrustNeeds(lib: Library, id: string, data: seq<byte>)
    ensures !Trusts(lib, id, data, None)
  {}

  /** When a rebuild writes a sidecar, and which; it answers accordingly and touches no pack. */
  lemma {:induction false} RebuildLeaves(lib: Library, s: Store, id: string, packReadable: bool, now: string, write: Outcome,
                                         rename: Outcome)
    ensures var key := TrimSpace(id);
            var sound := PathOk(id) && key in s.packs && packReadable && lib.Healthy(s.packs[key]);
            var (t, r) := AfterRebuild(lib, s, id, packReadable, now, write, rename);
            && (r == Rebuilt <==> sound && write == Done && rename == Done)
            && (r == RebuildDied <==> sound && (write == Crashed || (write == Done && rename == Crashed)))
            && t.packs == s.packs && t.quarantine == s.quarantine
            && (r != Rebuilt ==> t.sidecars == s.sidecars && t.catalog == if r == RebuildDied then map[] else s.catalog)
            && (r == Rebuilt ==>
                  var affinity := if id in s.catalog then s.catalog[id].affinity else "";
                  && t.sidecars == s.sidecars[key := Some(IndexOf(lib, id, affinity, s.packs[key], lib.open(s.packs[key]).value, now))]
                  && t.catalog == if id in s.catalog then s.catalog[id := s.catalog[id].(trusted := true, rebuildNeeded := false)]
                                  else s.catalog)
  {
    hide TrimSpace, PathOk, IndexOf;
  }

  /** The sidecar of a pack that moves away goes along when its own move is done, and otherwise stays behind. */
  lemma {:induction false} VerifyMovesSidecar(lib: Library, s: Store, id: string, packReadable: bool, doQuarantine: bool,
                                              stamp: string, movePack: Outcome, moveIndex: Outcome)
    ensures var key, t := TrimSpace(id), AfterVerify(lib, s, id, packReadable, doQuarantine, stamp, movePack, moveIndex).0;
            && (key in s.packs && key !in t.packs && moveIndex == Done ==> t.sidecars == s.sidecars - {key})
            && (!(key in s.packs && key !in t.packs && moveIndex == Done) ==> t.sidecars == s.sidecars)
  {
    hide TrimSpace, PathOk, lib.Healthy, Quarantine.NameOf, Quarantine.FreeSlot;
    assert TrimSpace(id) !in s.sidecars ==> s.sidecars - {TrimSpace(id)} == s.sidecars;
  }
}
