/** What runs of store operations, failures, crashes and restarts keep (internal/archive/fsstore.go). */
module StoreRuns {
  import opened Prelude
  import opened Frames
  import opened Text
  import opened PackIndexes
  import opened ArchiveStore
  import Quarantine

  // ---- The catalog agrees with the disk ---------------------------------------------------------------

  /** A catalog row: under a trimmed id, for exactly the bytes of the pack file, and trusted only with its sidecar. */
  predicate EntryAgrees(lib: Library, s: Store, id: string) {
    id in s.catalog && Trimmed(id) && PathOk(id) && id in s.packs && s.packs[id] == s.catalog[id].data
    && Accepts(lib, id, s.catalog[id].data)
    && (s.catalog[id].rebuildNeeded <==> !s.catalog[id].trusted)
    && (s.catalog[id].trusted ==> id in s.sidecars && Trusts(lib, id, s.catalog[id].data, s.sidecars[id]))
  }

  predicate Coherent(lib: Library, s: Store) {
    forall id :: id in s.catalog ==> EntryAgrees(lib, s, id)
  }

  /** Every sidecar that parses was built from some pack. */
  ghost predicate Provenance(lib: Library, s: Store) {
    forall k :: k in s.sidecars && s.sidecars[k].Some? ==> exists id, d :: BuiltFor(lib, s.sidecars[k].value, id, d)
  }

  lemma {:induction false} TrimmedKey(id: string)
    ensures TrimSpace(id) == id <==> Trimmed(id)
    ensures PathOk(id) <==> PathOk(TrimSpace(id))
  {}

  lemma {:induction false} CatalogIsTrimmed(lib: Library, s: Store)
    requires Coherent(lib, s)
    ensures forall id :: id in s.catalog ==> Trimmed(id) && PathOk(id)
  {
    hide Trimmed, PathOk, Accepts, Trusts;
    forall id | id in s.catalog ensures Trimmed(id) && PathOk(id) { assert EntryAgrees(lib, s, id); }
  }

  /** Rows of other packs, whose file and sidecar a step leaves alone, keep agreeing. */
  lemma {:induction false} OthersAgree(lib: Library, s: Store, t: Store, key: string)
    requires Coherent(lib, s)
    requires forall k :: k in t.catalog && k != key ==> k in s.catalog && t.catalog[k] == s.catalog[k]
    requires forall k :: k in s.catalog && k != key && k in s.packs ==> k in t.packs && t.packs[k] == s.packs[k]
    requires forall k :: k in s.catalog && k != key && k in s.sidecars ==> k in t.sidecars && t.sidecars[k] == s.sidecars[k]
    requires key in t.catalog ==> EntryAgrees(lib, t, key)
    ensures Coherent(lib, t)
  {
    hide Trimmed, PathOk, Accepts, Trusts;
  }

  lemma {:induction false} OwnIndexTrusted(lib: Library, id: string, affinity: string, data: seq<byte>, now: string)
    requires lib.Contract() && Trimmed(id) && id != [] && lib.Healthy(data)
    ensures Trusts(lib, id, data, Some(IndexOf(lib, id, affinity, data, lib.open(data).value, now)))
  {
    hide lib.Contract, IndexOf, Trusts;
    IndexOfHealthy(lib, id, affinity, data, now);
    TrustedIffSamePack(lib, IndexOf(lib, id, affinity, data, lib.open(data).value, now), id, data, id, data);
  }

  /** A put leaves memory and disk agreeing, except exactly when an untrimmed id fails to publish new bytes. */
  lemma {:induction false} PutCoherentIff(lib: Library, s: Store, id: string, affinity: string, data: seq<byte>, now: string,
                                          plan: PutPlan)
    requires lib.Contract() && Coherent(lib, s)
    ensures Coherent(lib, AfterPut(lib, s, id, affinity, data, now, plan).0) <==>
            !(!Trimmed(id) && Accepts(lib, TrimSpace(id), data) && Publish(id, plan) == Failed
              && !(PathOk(id) && TrimSpace(id) in s.packs && s.packs[TrimSpace(id)] == data))
  {
    hide Trimmed, PathOk, Accepts, Trusts, TrimSpace, lib.Contract, IndexOf;
    TrimmedKey(id);
    if Accepts(lib, TrimSpace(id), data) {
      if Trimmed(id) {
        PutTrimmedAgrees(lib, s, id, affinity, data, now, plan);
        PutLeavesOthers(lib, s, id, affinity, data, now, plan);
      } else {
        PutUntrimmed(lib, s, id, affinity, data, now, plan);
      }
    }
  }

  lemma {:induction false} PutLeavesOthers(lib: Library, s: Store, id: string, affinity: string, data: seq<byte>, now: string,
                                           plan: PutPlan)
    requires Coherent(lib, s) && Accepts(lib, TrimSpace(id), data) && (id == TrimSpace(id) || id !in s.catalog)
    requires var t := AfterPut(lib, s, id, affinity, data, now, plan).0;
             TrimSpace(id) in t.catalog ==> EntryAgrees(lib, t, TrimSpace(id))
    ensures Coherent(lib, AfterPut(lib, s, id, affinity, data, now, plan).0)
  {
    hide Trimmed, PathOk, Accepts, Trusts, TrimSpace, IndexOf, EntryAgrees, Coherent, Then;
    OthersAgree(lib, s, AfterPut(lib, s, id, affinity, data, now, plan).0, TrimSpace(id));
  }

  lemma {:induction false} PutUntrimmed(lib: Library, s: Store, id: string, affinity: string, data: seq<byte>, now: string,
                                        plan: PutPlan)
    requires Coherent(lib, s) && !Trimmed(id) && Accepts(lib, TrimSpace(id), data)
    ensures Coherent(lib, AfterPut(lib, s, id, affinity, data, now, plan).0) <==>
            (Publish(id, plan) == Failed ==> PathOk(id) && TrimSpace(id) in s.packs && s.packs[TrimSpace(id)] == data)
  {
    hide Trimmed, PathOk, Accepts, Trusts, TrimSpace, IndexOf;
    var key, t := TrimSpace(id), AfterPut(lib, s, id, affinity, data, now, plan).0;
    TrimmedKey(id);
    CatalogIsTrimmed(lib, s);
    if Publish(id, plan) == Failed && !(PathOk(id) && key in s.packs && s.packs[key] == data) {
      assert t.catalog[key] == Entry(data, affinity, false, true);
      assert !EntryAgrees(lib, t, key);
    } else {
      PutUntrimmedAgrees(lib, s, id, affinity, data, now, plan);
      PutLeavesOthers(lib, s, id, affinity, data, now, plan);
    }
  }

  lemma {:induction false} PutUntrimmedAgrees(lib: Library, s: Store, id: string, affinity: string, data: seq<byte>,
                                              now: string, plan: PutPlan)
    requires !Trimmed(id) && id !in s.catalog && Accepts(lib, TrimSpace(id), data)
    requires Publish(id, plan) == Failed ==> PathOk(id) && TrimSpace(id) in s.packs && s.packs[TrimSpace(id)] == data
    ensures var t := AfterPut(lib, s, id, affinity, data, now, plan).0;
            TrimSpace(id) in t.catalog ==> EntryAgrees(lib, t, TrimSpace(id))
  {
    hide Trimmed, Accepts, Trusts, TrimSpace, IndexOf;
    TrimmedKey(id);
  }

  lemma {:induction false} PutTrimmedAgrees(lib: Library, s: Store, id: string, affinity: string, data: seq<byte>, now: string,
                                            plan: PutPlan)
    requires lib.Contract() && Trimmed(id) && Accepts(lib, id, data)
    ensures var t := AfterPut(lib, s, id, affinity, data, now, plan).0; id in t.catalog ==> EntryAgrees(lib, t, id)
  {
    hide Trimmed, PathOk, Accepts, Trusts, TrimSpace, lib.Contract, IndexOf;
    TrimmedKey(id);
    AcceptedMeans(lib, id, data);
    OwnIndexTrusted(lib, id, affinity, data, now);
  }

  /** A delete leaves them agreeing, except exactly when an untrimmed id removed a file behind a loaded pack. */
  lemma {:induction false} DeleteCoherentIff(lib: Library, s: Store, id: string, removePack: Outcome, removeIndex: Outcome)
    requires Coherent(lib, s)
    ensures Coherent(lib, AfterDelete(s, id, removePack, removeIndex).0) <==>
            !(!Trimmed(id) && PathOk(id) && removePack != Crashed && removeIndex != Crashed && TrimSpace(id) in s.catalog
              && (removePack == Done || (removeIndex == Done && s.catalog[TrimSpace(id)].trusted)))
  {
    hide Trimmed, PathOk, Accepts, Trusts, TrimSpace;
    var key, t := TrimSpace(id), AfterDelete(s, id, removePack, removeIndex).0;
    TrimmedKey(id);
    if id in s.catalog { assert EntryAgrees(lib, s, id); }
    if PathOk(id) && removePack != Crashed && removeIndex != Crashed && key in s.catalog && !Trimmed(id) {
      assert EntryAgrees(lib, s, key) && key in t.catalog;
      if removePack == Done || (removeIndex == Done && s.catalog[key].trusted) {
        assert !EntryAgrees(lib, t, key);
      } else {
        OthersAgree(lib, s, t, key);
      }
    } else {
      assert key !in t.catalog || t == s;
      if t != s { OthersAgree(lib, s, t, key); }
    }
  }

  lemma {:induction false} OpenedAgrees(lib: Library, s: Store, id: string, packReadable: bool, indexReadable: bool)
    requires id in s.catalog ==> EntryAgrees(lib, s, id)
    requires AfterOpen(lib, s, id, packReadable, indexReadable).0 != s
    ensures EntryAgrees(lib, AfterOpen(lib, s, id, packReadable, indexReadable).0, TrimSpace(id))
  {
    hide Trimmed, PathOk, Trusts, TrimSpace, Quarantine.Counts;
    var key := TrimSpace(id);
    TrimmedKey(id);
    AcceptedMeans(lib, key, s.packs[key]);
    if Trusts(lib, id, s.packs[key], SidecarFor(s, key, indexReadable)) {
      TrustNeedsSidecar(lib, id, s.packs[key], SidecarFor(s, key, indexReadable));
    }
  }

  lemma {:induction false} OpenCoherent(lib: Library, s: Store, id: string, packReadable: bool, indexReadable: bool)
    requires Coherent(lib, s)
    ensures Coherent(lib, AfterOpen(lib, s, id, packReadable, indexReadable).0)
  {
    hide Trimmed, PathOk, Accepts, Trusts, TrimSpace, Quarantine.Counts;
    var key, t := TrimSpace(id), AfterOpen(lib, s, id, packReadable, indexReadable).0;
    TrimmedKey(id);
    if t != s {
      if id in s.catalog { assert EntryAgrees(lib, s, id); }
      OpenedAgrees(lib, s, id, packReadable, indexReadable);
      CatalogIsTrimmed(lib, s);
      OthersAgree(lib, s, t, key);
    }
  }

  /** A rebuild leaves them agreeing, except exactly when an untrimmed id replaces a trusted pack's sidecar. */
  lemma {:induction false} RebuildCoherentIff(lib: Library, s: Store, id: string, packReadable: bool, now: string,
                                              write: Outcome, rename: Outcome)
    requires lib.Contract() && Coherent(lib, s)
    ensures Coherent(lib, AfterRebuild(lib, s, id, packReadable, now, write, rename).0) <==>
            !(!Trimmed(id) && AfterRebuild(lib, s, id, packReadable, now, write, rename).1 == Rebuilt
              && TrimSpace(id) in s.catalog && s.catalog[TrimSpace(id)].trusted)
  {
    hide Trimmed, PathOk, Accepts, Trusts, TrimSpace, lib.Contract, IndexOf;
    var key, t := TrimSpace(id), AfterRebuild(lib, s, id, packReadable, now, write, rename).0;
    TrimmedKey(id);
    if AfterRebuild(lib, s, id, packReadable, now, write, rename).1 == Rebuilt {
      var data := s.packs[key];
      var affinity := if id in s.catalog then s.catalog[id].affinity else [];
      PathHasKey(id);
      if id in s.catalog { assert EntryAgrees(lib, s, id); }
      if key in s.catalog { assert EntryAgrees(lib, s, key); }
      if Trimmed(id) {
        OwnIndexTrusted(lib, id, affinity, data, now);
        OthersAgree(lib, s, t, key);
      } else if key in s.catalog && s.catalog[key].trusted {
        IndexOfHealthy(lib, id, affinity, data, now);
        TrustedIffSamePack(lib, t.sidecars[key].value, id, data, key, data);
        assert !EntryAgrees(lib, t, key);
      } else {
        OthersAgree(lib, s, t, key);
      }
    }
  }

  lemma {:induction false} VerifyCoherent(lib: Library, s: Store, id: string, packReadable: bool, doQuarantine: bool,
                                          stamp: string, movePack: Outcome, moveIndex: Outcome)
    requires Coherent(lib, s)
    ensures Coherent(lib, AfterVerify(lib, s, id, packReadable, doQuarantine, stamp, movePack, moveIndex).0)
  {
    hide Trimmed, PathOk, Accepts, Trusts, TrimSpace, Quarantine.NameOf, Quarantine.FreeSlot;
    var key, t := TrimSpace(id), AfterVerify(lib, s, id, packReadable, doQuarantine, stamp, movePack, moveIndex).0;
    TrimmedKey(id);
    if t != s {
      if key in s.catalog {
        assert EntryAgrees(lib, s, key);
        AcceptedMeans(lib, key, s.packs[key]);
        assert false;
      }
      OthersAgree(lib, s, t, key);
    }
  }

  // ---- Runs -------------------------------------------------------------------------------------------------

  /** One event in the life of the store; found holds the pack files that changed while no process ran. */
  datatype Op =
    | Put(id: string, affinity: string, data: seq<byte>, now: string, plan: PutPlan)
    | Delete(id: string, removePack: Outcome, removeIndex: Outcome)
    | Open(id: string, packReadable: bool, indexReadable: bool)
    | Rebuild(id: string, packReadable: bool, now: string, write: Outcome, rename: Outcome)
    | Verify(id: string, packReadable: bool, doQuarantine: bool, stamp: string, movePack: Outcome, moveIndex: Outcome)
    | Restart(found: map<string, seq<byte>>)

  predicate TrimmedOp(op: Op) {
    op.Restart? || Trimmed(op.id)
  }

  function Step(lib: Library, s: Store, op: Op): Store {
    match op
    case Put(id, affinity, data, now, plan) => AfterPut(lib, s, id, affinity, data, now, plan).0
    case Delete(id, removePack, removeIndex) => AfterDelete(s, id, removePack, removeIndex).0
    case Open(id, packReadable, indexReadable) => AfterOpen(lib, s, id, packReadable, indexReadable).0
    case Rebuild(id, packReadable, now, write, rename) => AfterRebuild(lib, s, id, packReadable, now, write, rename).0
    case Verify(id, packReadable, doQuarantine, stamp, movePack, moveIndex) =>
      AfterVerify(lib, s, id, packReadable, doQuarantine, stamp, movePack, moveIndex).0
    case Restart(found) => Die(s).(packs := s.packs + found)
  }

  function Run(lib: Library, s: Store, ops: seq<Op>): Store
    decreases |ops|
  {
    if ops == [] then s else Run(lib, Step(lib, s, ops[0]), ops[1..])
  }

  /** A run is its events in order. */
  lemma {:induction false} RunSnoc(lib: Library, s: Store, ops: seq<Op>, op: Op)
    ensures Run(lib, s, []) == s
    ensures Run(lib, s, ops + [op]) == Step(lib, Run(lib, s, ops), op)
    decreases |ops|
  {
    hide Step;
    if ops == [] {
      assert (ops + [op])[1..] == [];
    } else {
      assert (ops + [op])[1..] == ops[1..] + [op];
      RunSnoc(lib, Step(lib, s, ops[0]), ops[1..], op);
    }
  }

  lemma {:induction false} StepCoherent(lib: Library, s: Store, op: Op)
    requires lib.Contract() && Coherent(lib, s) && TrimmedOp(op)
    ensures Coherent(lib, Step(lib, s, op))
  {
    hide Trimmed, Coherent, lib.Contract, AfterPut, AfterDelete, AfterOpen, AfterRebuild, AfterVerify, Accepts, PathOk, Publish;
    match op
    case Put(id, affinity, data, now, plan) => PutCoherentIff(lib, s, id, affinity, data, now, plan);
    case Delete(id, removePack, removeIndex) => DeleteCoherentIff(lib, s, id, removePack, removeIndex);
    case Open(id, packReadable, indexReadable) => OpenCoherent(lib, s, id, packReadable, indexReadable);
    case Rebuild(id, packReadable, now, write, rename) => RebuildCoherentIff(lib, s, id, packReadable, now, write, rename);
    case Verify(id, packReadable, doQuarantine, stamp, movePack, moveIndex) =>
      VerifyCoherent(lib, s, id, packReadable, doQuarantine, stamp, movePack, moveIndex);
    case Restart(_) => EmptyCatalogAgrees(lib, Step(lib, s, op));
  }

  lemma {:induction false} EmptyCatalogAgrees(lib: Library, s: Store)
    requires s.catalog == map[]
    ensures Coherent(lib, s)
  {}

  // ---- The store is a plain map from id to bytes ----------------------------------------------------------

  predicate Good(lib: Library, packs: map<string, seq<byte>>, id: string) {
    id in packs && Trimmed(id) && PathOk(id) && Accepts(lib, id, packs[id])
  }

  /** The packs that can be read, from a directory of pack files. */
  function Readable(lib: Library, packs: map<string, seq<byte>>): map<string, seq<byte>> {
    map id | id in packs && Good(lib, packs, id) :: packs[id]
  }

  /** What readers see. */
  function View(lib: Library, s: Store): map<string, seq<byte>> {
    Readable(lib, s.packs)
  }

  /** The same event on the plain map. */
  function MapStep(lib: Library, m: map<string, seq<byte>>, op: Op): map<string, seq<byte>> {
    match op
    case Put(id, _, data, _, plan) => if Accepts(lib, id, data) && Publish(id, plan) == Done then m[id := data] else m
    case Delete(id, removePack, _) => if PathOk(id) && removePack == Done then m - {id} else m
    case Restart(found) => (m - found.Keys) + Readable(lib, found)
    case _ => m
  }

  function MapRun(lib: Library, m: map<string, seq<byte>>, ops: seq<Op>): map<string, seq<byte>>
    decreases |ops|
  {
    if ops == [] then m else MapRun(lib, MapStep(lib, m, ops[0]), ops[1..])
  }

  lemma {:induction false} ReadableSet(lib: Library, packs: map<string, seq<byte>>, id: string, data: seq<byte>)
    requires Trimmed(id) && PathOk(id) && Accepts(lib, id, data)
    ensures Readable(lib, packs[id := data]) == Readable(lib, packs)[id := data]
  {
    hide Trimmed, PathOk, Accepts;
  }

  lemma {:induction false} ReadableWithout(lib: Library, packs: map<string, seq<byte>>, id: string)
    ensures Readable(lib, packs - {id}) == Readable(lib, packs) - {id}
  {
    hide Trimmed, PathOk, Accepts;
  }

  lemma {:induction false} ReadableOver(lib: Library, packs: map<string, seq<byte>>, found: map<string, seq<byte>>)
    ensures Readable(lib, packs + found) == (Readable(lib, packs) - found.Keys) + Readable(lib, found)
  {
    hide Trimmed, PathOk, Accepts;
  }

  lemma {:induction false} PublishedFile(lib: Library, s: Store, id: string, affinity: string, data: seq<byte>, now: string,
                                         plan: PutPlan)
    ensures AfterPut(lib, s, id, affinity, data, now, plan).0.packs
         == if Accepts(lib, TrimSpace(id), data) && Publish(id, plan) == Done then s.packs[TrimSpace(id) := data] else s.packs
  {
    hide TrimSpace, Accepts, Publish, IndexOf;
  }

  lemma {:induction false} DoneNeedsPath(id: string, plan: PutPlan)
    requires Publish(id, plan) == Done
    ensures PathOk(id)
  {}

  lemma {:induction false} RemovedFile(s: Store, id: string, removePack: Outcome, removeIndex: Outcome)
    ensures AfterDelete(s, id, removePack, removeIndex).0.packs
         == if PathOk(id) && removePack == Done then s.packs - {TrimSpace(id)} else s.packs
  {
    hide TrimSpace, PathOk;
  }

  lemma {:induction false} VerifyKeepsReadable(lib: Library, s: Store, id: string, packReadable: bool, doQuarantine: bool,
                                               stamp: string, movePack: Outcome, moveIndex: Outcome)
    ensures View(lib, AfterVerify(lib, s, id, packReadable, doQuarantine, stamp, movePack, moveIndex).0) == View(lib, s)
  {
    hide Trimmed, PathOk, TrimSpace, Quarantine.FreeSlot, Quarantine.NameOf, Accepts;
    var key, t := TrimSpace(id), AfterVerify(lib, s, id, packReadable, doQuarantine, stamp, movePack, moveIndex).0;
    if t.packs != s.packs {
      ReadableWithout(lib, s.packs, key);
      assert t.packs == s.packs - {key};
      if Accepts(lib, key, s.packs[key]) { AcceptedMeans(lib, key, s.packs[key]); assert false; }
      assert key !in Readable(lib, s.packs);
    }
  }

  /** Each event does to what readers see what it does to the plain map, whatever fails on the way. */
  lemma {:induction false} StepRefines(lib: Library, s: Store, op: Op)
    requires TrimmedOp(op)
    ensures View(lib, Step(lib, s, op)) == MapStep(lib, View(lib, s), op)
  {
    hide AfterPut, AfterDelete, AfterRebuild, AfterVerify, Accepts, PathOk, Publish, Readable, Trimmed, TrimSpace,
         Quarantine.Counts, Trusts;
    if !op.Restart? { TrimmedKey(op.id); }
    match op
    case Put(id, affinity, data, now, plan) =>
      PublishedFile(lib, s, id, affinity, data, now, plan);
      if Accepts(lib, id, data) && Publish(id, plan) == Done {
        DoneNeedsPath(id, plan);
        ReadableSet(lib, s.packs, id, data);
      }
    case Delete(id, removePack, removeIndex) =>
      RemovedFile(s, id, removePack, removeIndex);
      ReadableWithout(lib, s.packs, id);
    case Rebuild(id, packReadable, now, write, rename) => RebuildLeavesPacks(lib, s, id, packReadable, now, write, rename);
    case Verify(id, packReadable, doQuarantine, stamp, movePack, moveIndex) =>
      VerifyKeepsReadable(lib, s, id, packReadable, doQuarantine, stamp, movePack, moveIndex);
    case Restart(found) => ReadableOver(lib, s.packs, found);
    case Open(_, _, _) =>
  }

  lemma {:induction false} RebuildLeavesPacks(lib: Library, s: Store, id: string, packReadable: bool, now: string,
                                              write: Outcome, rename: Outcome)
    ensures AfterRebuild(lib, s, id, packReadable, now, write, rename).0.packs == s.packs
  {
    hide TrimSpace, PathOk, IndexOf;
  }

  /** Over a whole run memory and disk agree, and readers see the plain map. */
  lemma {:induction false} RunRefines(lib: Library, s: Store, ops: seq<Op>)
    requires lib.Contract() && Coherent(lib, s) && forall i :: 0 <= i < |ops| ==> TrimmedOp(ops[i])
    ensures Coherent(lib, Run(lib, s, ops))
    ensures View(lib, Run(lib, s, ops)) == MapRun(lib, View(lib, s), ops)
    decreases |ops|
  {
    hide lib.Contract, Coherent, TrimmedOp, Step, MapStep, View;
    if ops != [] {
      StepCoherent(lib, s, ops[0]);
      StepRefines(lib, s, ops[0]);
      RunRefines(lib, Step(lib, s, ops[0]), ops[1..]);
    }
  }

  /** Opening a pack gives exactly what the plain map holds, unless its file cannot be read just now. */
  lemma {:induction false} ReaderSeesMap(lib: Library, s: Store, id: string, packReadable: bool, indexReadable: bool)
    requires Coherent(lib, s) && Trimmed(id)
    ensures var r := AfterOpen(lib, s, id, packReadable, indexReadable).1;
            && (r.Opened? <==> id in View(lib, s) && (packReadable || id in s.catalog))
            && (r.Opened? ==> r.data == View(lib, s)[id])
  {
    hide Trimmed, PathOk, TrimSpace, Quarantine.Counts, Trusts, Accepts;
    TrimmedKey(id);
    if id in s.catalog {
      assert EntryAgrees(lib, s, id);
      AcceptedMeans(lib, id, s.catalog[id].data);
    }
  }

  /** What a put reports: published means seen, refused means nothing changed, a crash is one or the other. */
  lemma {:induction false} PutIsAtomic(lib: Library, s: Store, id: string, affinity: string, data: seq<byte>, now: string,
                                       plan: PutPlan)
    requires Trimmed(id)
    ensures var (t, r) := AfterPut(lib, s, id, affinity, data, now, plan);
            && (r == Published ==> View(lib, t) == View(lib, s)[id := data])
            && (r == Refused ==> View(lib, t) == View(lib, s))
            && (r == PutDied ==> View(lib, t) == View(lib, s) || View(lib, t) == View(lib, s)[id := data])
            && (r == Published <==> Accepts(lib, id, data) && Publish(id, plan) == Done && Then(plan.indexWrite, plan.indexRename) != Crashed)
  {
    hide View, Accepts, Publish, Trimmed, TrimSpace, IndexOf;
    TrimmedKey(id);
    StepRefines(lib, s, Put(id, affinity, data, now, plan));
  }

  /**
   * What a delete reports follows the catalog, while what it does follows the removal of the file: a pack
   * that was never loaded is removed and reported missing, and one whose file stays comes back on the next
   * open although it was reported deleted.
   */
  lemma {:induction false} DeleteReportsCatalog(lib: Library, s: Store, id: string, removePack: Outcome, removeIndex: Outcome)
    requires Trimmed(id) && Coherent(lib, s) && id in View(lib, s) && removePack != Crashed && removeIndex != Crashed
    ensures var (t, r) := AfterDelete(s, id, removePack, removeIndex);
            && (r == Deleted <==> id in s.catalog) && (r == DeleteNotFound <==> id !in s.catalog)
            && (AfterOpen(lib, t, id, true, true).1.Opened? <==> removePack == Failed)
  {
    hide Coherent, Trimmed, TrimSpace, Accepts, Quarantine.Counts, Trusts, AfterOpen;
    var t := AfterDelete(s, id, removePack, removeIndex).0;
    assert PathOk(id) by { GoodPath(lib, s, id); }
    TrimmedKey(id);
    StepRefines(lib, s, Delete(id, removePack, removeIndex));
    DeleteCoherentIff(lib, s, id, removePack, removeIndex);
    ReaderSeesMap(lib, t, id, true, true);
  }

  lemma {:induction false} GoodPath(lib: Library, s: Store, id: string)
    requires id in View(lib, s)
    ensures PathOk(id)
  {}

  // ---- Trust in sidecars ------------------------------------------------------------------------------------

  lemma {:induction false} StepProvenance(lib: Library, s: Store, op: Op)
    requires lib.Contract() && Provenance(lib, s)
    ensures Provenance(lib, Step(lib, s, op))
  {
    hide lib.Contract, BuiltFor, IndexOf, Accepts, PathOk, TrimSpace, Trusts, Quarantine.Counts, Quarantine.FreeSlot,
         Quarantine.NameOf;
    var t := Step(lib, s, op);
    if op.Put? {
      if Accepts(lib, TrimSpace(op.id), op.data) {
        AcceptedMeans(lib, TrimSpace(op.id), op.data);
        IndexOfHealthy(lib, op.id, op.affinity, op.data, op.now);
      }
    } else if op.Rebuild? {
      var key := TrimSpace(op.id);
      if PathOk(op.id) && key in s.packs && lib.Healthy(s.packs[key]) {
        PathHasKey(op.id);
        var affinity := if op.id in s.catalog then s.catalog[op.id].affinity else [];
        IndexOfHealthy(lib, op.id, affinity, s.packs[key], op.now);
      }
    }
  }

  lemma {:induction false} RunProvenance(lib: Library, s: Store, ops: seq<Op>)
    requires lib.Contract() && Provenance(lib, s)
    ensures Provenance(lib, Run(lib, s, ops))
    decreases |ops|
  {
    hide lib.Contract, Provenance, Step;
    if ops != [] {
      StepProvenance(lib, s, ops[0]);
      RunProvenance(lib, Step(lib, s, ops[0]), ops[1..]);
    }
  }

  /**
   * In every state a run can reach, whatever crashed on the way: a sidecar on disk is trusted only if it
   * was built for exactly the bytes and the id it is asked about.
   */
  lemma {:induction false} TrustMeansBuilt(lib: Library, s: Store, ops: seq<Op>, k: string, id: string, data: seq<byte>)
    requires lib.Contract() && Provenance(lib, s)
    requires var t := Run(lib, s, ops); k in t.sidecars && Trusts(lib, id, data, t.sidecars[k])
    ensures BuiltFor(lib, Run(lib, s, ops).sidecars[k].value, TrimSpace(id), data)
  {
    hide lib.Contract, BuiltFor, Trusts, Run, TrimSpace;
    RunProvenance(lib, s, ops);
    var t := Run(lib, s, ops);
    TrustNeedsSidecar(lib, id, data, t.sidecars[k]);
    var built, d :| BuiltFor(lib, t.sidecars[k].value, built, d);
    TrustedIffSamePack(lib, t.sidecars[k].value, built, d, id, data);
  }

  /** A catalog row flagged as trusted has, on disk, a sidecar built for the pack file as it is on disk. */
  lemma {:induction false} TrustedRowHasSidecar(lib: Library, s: Store, ops: seq<Op>, id: string)
    requires lib.Contract() && Provenance(lib, s) && Coherent(lib, s)
    requires forall i :: 0 <= i < |ops| ==> TrimmedOp(ops[i])
    requires var t := Run(lib, s, ops); id in t.catalog && t.catalog[id].trusted
    ensures var t := Run(lib, s, ops);
            id in t.packs && id in t.sidecars && t.sidecars[id].Some? && BuiltFor(lib, t.sidecars[id].value, id, t.packs[id])
  {
    hide lib.Contract, BuiltFor, Trusts, Run, TrimSpace, Provenance, TrimmedOp, Accepts, PathOk, Trimmed;
    RunRefines(lib, s, ops);
    var t := Run(lib, s, ops);
    assert EntryAgrees(lib, t, id);
    TrustNeedsSidecar(lib, id, t.packs[id], t.sidecars[id]);
    TrustMeansBuilt(lib, s, ops, id, id, t.packs[id]);
    TrimmedKey(id);
  }

  /** A pack and index published together are trusted at once, and again by any later process that opens them. */
  lemma {:induction false} PublishedIndexIsTrusted(lib: Library, s: Store, id: string, affinity: string, data: seq<byte>,
                                                   now: string, plan: PutPlan)
    requires lib.Contract() && Trimmed(id) && AfterPut(lib, s, id, affinity, data, now, plan).1 == Published
    requires plan.indexWrite == Done && plan.indexRename == Done
    ensures var t := AfterPut(lib, s, id, affinity, data, now, plan).0;
            && id in t.catalog && t.catalog[id].trusted
            && var u := AfterOpen(lib, Die(t), id, true, true).0; id in u.catalog && u.catalog[id].trusted
  {
    hide lib.Contract, Trusts, TrimSpace, Accepts, Trimmed, Quarantine.Counts, IndexOf;
    TrimmedKey(id);
    AcceptedMeans(lib, id, data);
    OwnIndexTrusted(lib, id, affinity, data, now);
    DoneNeedsPath(id, plan);
  }

  // ---- Quarantine -------------------------------------------------------------------------------------------

  /** Nothing in quarantine is ever overwritten, and a pack that leaves the store arrives there whole. */
  lemma {:induction false} QuarantineConserves(lib: Library, s: Store, op: Op)
    ensures var t := Step(lib, s, op);
            && (forall n :: n in s.quarantine ==> n in t.quarantine && t.quarantine[n] == s.quarantine[n])
            && (op.Verify? ==> forall id :: id in s.packs && id !in t.packs ==>
                  exists n :: n in t.quarantine && n !in s.quarantine && t.quarantine[n] == s.packs[id])
  {
    hide TrimSpace, PathOk, Accepts, Trusts, IndexOf, Quarantine.Counts, Quarantine.NameOf;
    if op.Verify? {
      var key, t := TrimSpace(op.id), Step(lib, s, op);
      forall id | id in s.packs && id !in t.packs
        ensures exists n :: n in t.quarantine && n !in s.quarantine && t.quarantine[n] == s.packs[id]
      {
        assert id == key && QuarantineName(s, key, op.stamp) in t.quarantine;
      }
    }
  }

  /** Some name for this id and stamp is not taken yet. */
  predicate RoomFor(s: Store, key: string, stamp: string) {
    exists n: nat :: n <= 1000 && Quarantine.NameOf(key, stamp, n) !in s.quarantine
  }

  lemma {:induction false} RoomIff(s: Store, key: string, stamp: string)
    ensures RoomFor(s, key, stamp) <==> Quarantine.FreeSlot(s.quarantine.Keys, key, stamp, 0).Some?
  {
    hide Quarantine.NameOf, Quarantine.FreeSlot;
    var slot := Quarantine.FreeSlot(s.quarantine.Keys, key, stamp, 0);
    if slot.Some? { assert Quarantine.NameOf(key, stamp, slot.value) !in s.quarantine; }
  }

  /** What a check finds: nothing to look at, a sound pack, or a corrupt one. */
  datatype Finding = Nothing | Sound | Damaged

  function FindingFor(lib: Library, s: Store, id: string, packReadable: bool): Finding {
    if !(PathOk(id) && packReadable && TrimSpace(id) in s.packs) then Nothing
    else if lib.Healthy(s.packs[TrimSpace(id)]) then Sound else Damaged
  }

  /**
   * When a check moves a pack file away: only when it was asked to, for a file that it could read and found damaged, with
   * a free name and a move that goes through. In every other case packs, sidecars and quarantine stay as they were, and
   * unless the process dies so does the catalog.
   */
  lemma {:induction false} VerifyMovesIff(lib: Library, s: Store, id: string, packReadable: bool, doQuarantine: bool,
                                          stamp: string, movePack: Outcome, moveIndex: Outcome)
    ensures var key, t := TrimSpace(id), AfterVerify(lib, s, id, packReadable, doQuarantine, stamp, movePack, moveIndex).0;
            var moves := FindingFor(lib, s, id, packReadable) == Damaged && doQuarantine && RoomFor(s, key, stamp)
                         && movePack == Done;
            && (key in s.packs && key !in t.packs <==> moves)
            && (!moves ==> t.packs == s.packs && t.sidecars == s.sidecars && t.quarantine == s.quarantine)
            && (!moves && movePack != Crashed ==> t == s)
            && (moves ==> t.packs == s.packs - {key} && key in s.packs && id !in t.catalog
                          && exists n: nat :: n <= 1000 && Quarantine.NameOf(key, stamp, n) !in s.quarantine
                               && t.quarantine == s.quarantine[Quarantine.NameOf(key, stamp, n) := s.packs[key]])
  {
    hide TrimSpace, PathOk, lib.Healthy, Quarantine.NameOf, Quarantine.FreeSlot, RoomFor;
    var key := TrimSpace(id);
    RoomIff(s, key, stamp);
    if FindingFor(lib, s, id, packReadable) == Damaged && doQuarantine && RoomFor(s, key, stamp) && movePack == Done {
      var n := Quarantine.FreeSlot(s.quarantine.Keys, key, stamp, 0).value;
      var t := AfterVerify(lib, s, id, packReadable, doQuarantine, stamp, movePack, moveIndex).0;
      assert t.quarantine == s.quarantine[Quarantine.NameOf(key, stamp, n) := s.packs[key]];
    }
  }

  /** A check that is asked only to look changes nothing at all, and every check reports what it found and did. */
  lemma {:induction false} VerifyReports(lib: Library, s: Store, id: string, packReadable: bool, doQuarantine: bool,
                                         stamp: string, movePack: Outcome, moveIndex: Outcome)
    ensures var key := TrimSpace(id);
            var (t, r) := AfterVerify(lib, s, id, packReadable, doQuarantine, stamp, movePack, moveIndex);
            && (!doQuarantine ==> t == s)
            && r == match FindingFor(lib, s, id, packReadable)
                    case Nothing => VerifyFailed
                    case Sound => PackHealthy
                    case Damaged =>
                      if !doQuarantine || !RoomFor(s, key, stamp) || movePack == Failed then PackCorrupt(false)
                      else if movePack == Crashed || (key in s.sidecars && moveIndex == Crashed) then VerifyDied
                      else PackCorrupt(true)
  {
    hide TrimSpace, PathOk, lib.Healthy, Quarantine.NameOf, Quarantine.FreeSlot, RoomFor;
    RoomIff(s, TrimSpace(id), stamp);
  }

  /** After a pack was moved away, opening it says that it is in quarantine. */
  lemma {:induction false} QuarantinedIsReported(lib: Library, s: Store, id: string, stamp: string, movePack: Outcome,
                                                 moveIndex: Outcome, packReadable: bool, indexReadable: bool)
    requires Trimmed(id) && Quarantine.Stamp(stamp)
    requires AfterVerify(lib, s, id, true, true, stamp, movePack, moveIndex).1 == PackCorrupt(true)
    ensures var t := AfterVerify(lib, s, id, true, true, stamp, movePack, moveIndex).0;
            AfterOpen(lib, t, id, packReadable, indexReadable) == (t, IsInQuarantine)
  {
    hide TrimSpace, PathOk, Accepts, Trusts, Quarantine.Counts, Quarantine.NameOf, Trimmed, Quarantine.Stamp;
    TrimmedKey(id);
    var t := AfterVerify(lib, s, id, true, true, stamp, movePack, moveIndex).0;
    var n := Quarantine.FreeSlot(s.quarantine.Keys, id, stamp, 0).value;
    Quarantine.NameCounts(Quarantine.Placed(id, stamp, n), id);
    assert Quarantine.NameOf(id, stamp, n) in t.quarantine;
  }

  /** What IsQuarantined answers for a trimmed id. */
  predicate Reported(s: Store, p: string) { exists n :: n in s.quarantine && Quarantine.Counts(n, p) }

  /** The event moves the pack file of its id to the quarantine directory. */
  predicate Quarantines(lib: Library, s: Store, op: Op) {
    op.Verify? && TrimSpace(op.id) in s.packs && TrimSpace(op.id) !in Step(lib, s, op).packs
  }

  /** The quarantine directory changes only by such an event, and then by one new name. */
  lemma {:induction false} QuarantineChange(lib: Library, s: Store, op: Op)
    ensures !Quarantines(lib, s, op) ==> Step(lib, s, op).quarantine == s.quarantine
    ensures Quarantines(lib, s, op) ==>
              exists n: nat :: n <= Quarantine.MAX_TRIES && Quarantine.NameOf(TrimSpace(op.id), op.stamp, n) !in s.quarantine
                && Step(lib, s, op).quarantine
                   == s.quarantine[Quarantine.NameOf(TrimSpace(op.id), op.stamp, n) := s.packs[TrimSpace(op.id)]]
  {
    hide TrimSpace, PathOk, Accepts, Trusts, IndexOf, Quarantine.Counts, Quarantine.NameOf;
    if Quarantines(lib, s, op) {
      var n := Quarantine.FreeSlot(s.quarantine.Keys, TrimSpace(op.id), op.stamp, 0).value;
      assert Step(lib, s, op).quarantine
             == s.quarantine[Quarantine.NameOf(TrimSpace(op.id), op.stamp, n) := s.packs[TrimSpace(op.id)]];
    }
  }

  lemma {:induction false} StepReports(lib: Library, s: Store, op: Op, p: string)
    requires op.Verify? ==> Quarantine.Stamp(op.stamp)
    ensures Reported(Step(lib, s, op), p) <==>
            Reported(s, p) || (Quarantines(lib, s, op) && Quarantine.CountsFor(TrimSpace(op.id), p))
  {
    hide TrimSpace, Step, Quarantine.Counts, Quarantine.NameOf, Quarantine.Stamp;
    QuarantineChange(lib, s, op);
    if Quarantines(lib, s, op) {
      var id, t := TrimSpace(op.id), Step(lib, s, op);
      var n: nat :| n <= Quarantine.MAX_TRIES && Quarantine.NameOf(id, op.stamp, n) !in s.quarantine
                    && t.quarantine == s.quarantine[Quarantine.NameOf(id, op.stamp, n) := s.packs[id]];
      Quarantine.NameCounts(Quarantine.Placed(id, op.stamp, n), p);
      assert Quarantine.NameOf(id, op.stamp, n) in t.quarantine;
    }
  }

  /** Some event of the run moves a pack whose name counts for p. */
  predicate RunQuarantines(lib: Library, s: Store, ops: seq<Op>, p: string)
    decreases |ops|
  {
    ops != [] && ((Quarantines(lib, s, ops[0]) && Quarantine.CountsFor(TrimSpace(ops[0].id), p))
                  || RunQuarantines(lib, Step(lib, s, ops[0]), ops[1..], p))
  }

  /**
   * After any run, with whatever failures, crashes and restarts, IsQuarantined reports p if and only if it did before or
   * the run quarantined p itself, or an id that continues p with a stamp-shaped segment.
   */
  lemma {:induction false} RunReportsIff(lib: Library, s: Store, ops: seq<Op>, p: string)
    requires forall i :: 0 <= i < |ops| && ops[i].Verify? ==> Quarantine.Stamp(ops[i].stamp)
    ensures Reported(Run(lib, s, ops), p) <==> Reported(s, p) || RunQuarantines(lib, s, ops, p)
    decreases |ops|
  {
    hide TrimSpace, Step, Reported, Quarantines, Quarantine.CountsFor, Quarantine.Stamp;
    if ops != [] {
      StepReports(lib, s, ops[0], p);
      RunReportsIff(lib, Step(lib, s, ops[0]), ops[1..], p);
    }
  }

  /** Some event of the run quarantines the pack p. */
  predicate RunQuarantinesId(lib: Library, s: Store, ops: seq<Op>, p: string)
    decreases |ops|
  {
    ops != [] && ((Quarantines(lib, s, ops[0]) && TrimSpace(ops[0].id) == p)
                  || RunQuarantinesId(lib, Step(lib, s, ops[0]), ops[1..], p))
  }

  /** For ids without a stamp-shaped segment the report is exact: from an empty directory, iff p was quarantined. */
  lemma {:induction false} RunReportsQuarantined(lib: Library, s: Store, ops: seq<Op>, p: string)
    requires s.quarantine == map[]
    requires forall i :: 0 <= i < |ops| && ops[i].Verify? ==> Quarantine.Stamp(ops[i].stamp)
    requires forall i :: 0 <= i < |ops| && ops[i].Verify? ==> Quarantine.NoStampSegment(TrimSpace(ops[i].id))
    ensures Reported(Run(lib, s, ops), p) <==> RunQuarantinesId(lib, s, ops, p)
  {
    hide Quarantine.Stamp, Quarantine.NoStampSegment, TrimSpace, Step;
    RunReportsIff(lib, s, ops, p);
    SameQuarantines(lib, s, ops, p);
  }

  lemma {:induction false} SameQuarantines(lib: Library, s: Store, ops: seq<Op>, p: string)
    requires forall i :: 0 <= i < |ops| && ops[i].Verify? ==> Quarantine.NoStampSegment(TrimSpace(ops[i].id))
    ensures RunQuarantines(lib, s, ops, p) <==> RunQuarantinesId(lib, s, ops, p)
    decreases |ops|
  {
    hide TrimSpace, Step, Quarantine.NoStampSegment, Quarantine.CountsFor;
    if ops != [] {
      if ops[0].Verify? { Quarantine.CountsForItself(TrimSpace(ops[0].id), p); }
      SameQuarantines(lib, Step(lib, s, ops[0]), ops[1..], p);
    }
  }
}
