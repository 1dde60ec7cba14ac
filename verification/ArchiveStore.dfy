/**
 * The filesystem pack store of internal/archive/fsstore.go over its in-memory catalog (memory.go):
 * a process that keeps a catalog, a directory of pack files and their sidecar indexes, and a
 * quarantine directory. Any single disk step may fail, or be the last thing the process does.
 */
module ArchiveStore {
  import opened Prelude
  import opened Frames
  import opened Text
  import opened PackModel
  import opened PackIndexes
  import Quarantine

  const MAX_PACK_BYTES := 256 * 1024 * 1024

  /** A catalog row: the bytes held for readers and what is known about the sidecar. */
  datatype Entry = Entry(data: seq<byte>, affinity: string, trusted: bool, rebuildNeeded: bool)

  /** Disk and memory. A sidecar that cannot be parsed is None; quarantined files are known by name. */
  datatype Store = Store(packs: map<string, seq<byte>>, sidecars: map<string, Option<PackIndex>>,
                         quarantine: map<string, seq<byte>>, catalog: map<string, Entry>)

  predicate DotDotAt(s: string, i: int) {
    0 <= i < |s| - 1 && s[i] == '.' && s[i + 1] == '.'
  }

  predicate HasDotDot(s: string) {
    exists i :: 0 <= i < |s| && DotDotAt(s, i)
  }

  /** packPath accepts the id as a single path segment. */
  predicate PathOk(id: string) {
    var key := TrimSpace(id);
    key != [] && !HasDotDot(key) && '/' !in key && '\\' !in key
  }

  /** MemoryStore.PutPack validates the bytes for this id. */
  predicate Accepts(lib: Library, key: string, data: seq<byte>) {
    && key != [] && data != [] && |data| <= MAX_PACK_BYTES
    && lib.Healthy(data) && lib.open(data).value.packID == key
  }

  function SetStatus(catalog: map<string, Entry>, id: string, trusted: bool, rebuildNeeded: bool): map<string, Entry> {
    if id in catalog then catalog[id := catalog[id].(trusted := trusted, rebuildNeeded := rebuildNeeded)] else catalog
  }

  function SetAffinity(catalog: map<string, Entry>, id: string, affinity: string): map<string, Entry> {
    if id in catalog && affinity != [] then catalog[id := catalog[id].(affinity := affinity)] else catalog
  }

  /** Of two disk steps in a row, the second is only tried after the first is done. */
  function Then(a: Outcome, b: Outcome): Outcome {
    if a != Done then a else b
  }

  // ---- What each operation does to the store ------------------------------------------------------------

  datatype PutPlan = PutPlan(stage: Outcome, write: Outcome, close: Outcome, rename: Outcome,
                             indexWrite: Outcome, indexRename: Outcome)

  datatype PutResult = Published | Refused | PutDied

  function Publish(id: string, plan: PutPlan): Outcome {
    if PathOk(id) then Then(plan.stage, Then(plan.write, Then(plan.close, plan.rename))) else Failed
  }

  function Die(s: Store): Store { s.(catalog := map[]) }

  function AfterPut(lib: Library, s: Store, id: string, affinity: string, data: seq<byte>, now: string, plan: PutPlan)
    : (Store, PutResult)
  {
    var key := TrimSpace(id);
    if !Accepts(lib, key, data) then (s, Refused)
    else
      var loaded := s.(catalog := s.catalog[key := Entry(data, affinity, false, true)]);
      match Publish(id, plan)
      case Crashed => (Die(s), PutDied)
      case Failed => (s.(catalog := loaded.catalog - {id}), Refused)
      case Done =>
        var published := loaded.(packs := s.packs[key := data]);
        match Then(plan.indexWrite, plan.indexRename)
        case Crashed => (Die(published), PutDied)
        case Failed => (published.(catalog := SetStatus(loaded.catalog, id, false, true)), Published)
        case Done =>
          var idx := IndexOf(lib, id, affinity, data, lib.open(data).value, now);
          (published.(sidecars := s.sidecars[key := Some(idx)], catalog := SetStatus(loaded.catalog, id, true, false)),
           Published)
  }

  datatype DeleteResult = Deleted | DeleteRefused | DeleteNotFound | DeleteDied

  function AfterDelete(s: Store, id: string, removePack: Outcome, removeIndex: Outcome): (Store, DeleteResult) {
    var key := TrimSpace(id);
    if !PathOk(id) then (s, DeleteRefused)
    else if removePack == Crashed then (Die(s), DeleteDied)
    else
      var s1 := if removePack == Done then s.(packs := s.packs - {key}) else s;
      if removeIndex == Crashed then (Die(s1), DeleteDied)
      else
        var s2 := if removeIndex == Done then s1.(sidecars := s.sidecars - {key}) else s1;
        (s2.(catalog := s.catalog - {id}), if id in s.catalog then Deleted else DeleteNotFound)
  }

  datatype OpenResult = Opened(data: seq<byte>) | OpenRefused | OpenNotFound | IsInQuarantine | OpenRejected | ReadFailed

  function SidecarFor(s: Store, key: string, readable: bool): Option<PackIndex> {
    if readable && key in s.sidecars then s.sidecars[key] else None
  }

  function AfterOpen(lib: Library, s: Store, id: string, packReadable: bool, indexReadable: bool): (Store, OpenResult) {
    var key := TrimSpace(id);
    if id in s.catalog && s.catalog[id].data != [] then (s, Opened(s.catalog[id].data))
    else if !PathOk(id) then (s, OpenRefused)
    else if key !in s.packs then
      (s, if exists n :: n in s.quarantine && Quarantine.Counts(n, key) then IsInQuarantine else OpenNotFound)
    else if !packReadable then (s, ReadFailed)
    else if !Accepts(lib, key, s.packs[key]) then (s, OpenRejected)
    else
      var data, sidecar := s.packs[key], SidecarFor(s, key, indexReadable);
      var trusted := Trusts(lib, id, data, sidecar);
      var loaded := SetStatus(s.catalog[key := Entry(data, [], false, true)], id, trusted, !trusted);
      var named := if trusted then SetAffinity(loaded, id, sidecar.value.affinity) else loaded;
      (s.(catalog := named), if id in named then Opened(named[id].data) else OpenNotFound)
  }

  datatype RebuildResult = Rebuilt | RebuildFailed | RebuildDied

  function AfterRebuild(lib: Library, s: Store, id: string, packReadable: bool, now: string, write: Outcome,
                        rename: Outcome): (Store, RebuildResult)
  {
    var key := TrimSpace(id);
    if !PathOk(id) || key !in s.packs || !packReadable || !lib.Healthy(s.packs[key]) then (s, RebuildFailed)
    else
      var data := s.packs[key];
      var affinity := if id in s.catalog then s.catalog[id].affinity else [];
      match Then(write, rename)
      case Crashed => (Die(s), RebuildDied)
      case Failed => (s, RebuildFailed)
      case Done =>
        var idx := IndexOf(lib, id, affinity, data, lib.open(data).value, now);
        (s.(sidecars := s.sidecars[key := Some(idx)], catalog := SetStatus(s.catalog, id, true, false)), Rebuilt)
  }

  function QuarantineName(s: Store, key: string, stamp: string): string
    requires Quarantine.FreeSlot(s.quarantine.Keys, key, stamp, 0).Some?
  {
    Quarantine.NameOf(key, stamp, Quarantine.FreeSlot(s.quarantine.Keys, key, stamp, 0).value)
  }

  datatype VerifyResult = PackHealthy | PackCorrupt(quarantined: bool) | VerifyFailed | VerifyDied

  function AfterVerify(lib: Library, s: Store, id: string, packReadable: bool, doQuarantine: bool, stamp: string,
                       movePack: Outcome, moveIndex: Outcome): (Store, VerifyResult)
  {
    var key := TrimSpace(id);
    if !PathOk(id) || key !in s.packs || !packReadable then (s, VerifyFailed)
    else if lib.Healthy(s.packs[key]) then (s, PackHealthy)
    else if !doQuarantine || Quarantine.FreeSlot(s.quarantine.Keys, key, stamp, 0).None? || movePack == Failed then
      (s, PackCorrupt(false))
    else if movePack == Crashed then (Die(s), VerifyDied)
    else
      var name := QuarantineName(s, key, stamp);
      var moved := s.(packs := s.packs - {key}, quarantine := s.quarantine[name := s.packs[key]]);
      if key in s.sidecars && moveIndex == Crashed then (Die(moved), VerifyDied)
      else
        var sidecars := if key in s.sidecars && moveIndex == Done then s.sidecars - {key} else s.sidecars;
        (moved.(sidecars := sidecars, catalog := s.catalog - {id}), PackCorrupt(true))
  }

  // ---- The store as it runs ---------------------------------------------------------------------------------

  class FSStore {
    const lib: Library
    var packs: map<string, seq<byte>>
    var sidecars: map<string, Option<PackIndex>>
    var quarantine: map<string, seq<byte>>
    var catalog: map<string, Entry>

    function Snapshot(): Store
      reads this
    {
      Store(packs, sidecars, quarantine, catalog)
    }

    /** A new process over the directory another one left behind. */
    constructor (lib: Library, disk: Store)
      ensures this.lib == lib && Snapshot() == Die(disk)
    {
      this.lib := lib;
      packs, sidecars, quarantine, catalog := disk.packs, disk.sidecars, disk.quarantine, map[];
    }

    method MemPut(id: string, affinity: string, data: seq<byte>) returns (ok: bool)
      modifies `catalog
      ensures ok <==> Accepts(lib, TrimSpace(id), data)
      ensures catalog == if ok then old(catalog)[TrimSpace(id) := Entry(data, affinity, false, true)] else old(catalog)
    {
      var key := TrimSpace(id);
      if key == [] || |data| == 0 || |data| > MAX_PACK_BYTES { return false; }
      var st := lib.open(data);
      if st.None? { return false; }
      if st.value.packID != key { return false; }
      if !lib.verifies(data, st.value) { return false; }
      catalog := catalog[key := Entry(data, affinity, false, true)];
      return true;
    }

    method MemDelete(id: string) returns (found: bool)
      modifies `catalog
      ensures found == (id in old(catalog)) && catalog == old(catalog) - {id}
    {
      if id !in catalog {
        assert catalog - {id} == catalog;
        return false;
      }
      catalog := catalog - {id};
      return true;
    }

    method MemSetStatus(id: string, trusted: bool, rebuildNeeded: bool)
      modifies `catalog
      ensures catalog == SetStatus(old(catalog), id, trusted, rebuildNeeded)
    {
      if id in catalog {
        catalog := catalog[id := catalog[id].(trusted := trusted, rebuildNeeded := rebuildNeeded)];
      }
    }

    /** WriteIndexFile: a temporary file and then the rename that publishes it. */
    method WriteIndexFile(key: string, idx: PackIndex, write: Outcome, rename: Outcome) returns (r: Outcome)
      requires WellFormed(idx)
      modifies `sidecars
      ensures r == Then(write, rename)
      ensures sidecars == if r == Done then old(sidecars)[key := Some(idx)] else old(sidecars)
    {
      if write != Done { return write; }
      if rename != Done { return rename; }
      sidecars := sidecars[key := Some(idx)];
      return Done;
    }

    method PutPack(id: string, affinity: string, data: seq<byte>, now: string, plan: PutPlan) returns (r: PutResult)
      requires lib.Contract()
      modifies this
      ensures (Snapshot(), r) == AfterPut(lib, old(Snapshot()), id, affinity, data, now, plan)
    {
      hide TrimSpace, lib.Contract, IndexOf, Accepts, Indexable;
      var ok := MemPut(id, affinity, data);
      if !ok { return Refused; }
      if !PathOk(id) {
        var _ := MemDelete(id);
        return Refused;
      }
      // CreateTemp, Write, Close and Rename roll back alike; a crash takes the catalog with it.
      var published := plan.stage;
      if published == Done { published := plan.write; }
      if published == Done { published := plan.close; }
      if published == Done { published := plan.rename; }
      if published == Crashed {
        catalog := map[];
        return PutDied;
      }
      if published == Failed {
        var _ := MemDelete(id);
        return Refused;
      }
      var key := TrimSpace(id);
      packs := packs[key := data];
      AcceptedMeans(lib, key, data);
      HealthyIsIndexable(lib, id, data);
      var st := lib.open(data).value;
      var idx := BuildIndexFromPack(lib, id, affinity, data, st, now);
      IndexOfHealthy(lib, id, affinity, data, now);
      var written := WriteIndexFile(key, idx.value, plan.indexWrite, plan.indexRename);
      if written == Crashed {
        catalog := map[];
        return PutDied;
      }
      MemSetStatus(id, written == Done, written != Done);
      return Published;
    }

    method DeletePack(id: string, removePack: Outcome, removeIndex: Outcome) returns (r: DeleteResult)
      modifies this
      ensures (Snapshot(), r) == AfterDelete(old(Snapshot()), id, removePack, removeIndex)
    {
      hide TrimSpace, PathOk;
      if !PathOk(id) { return DeleteRefused; }
      var key := TrimSpace(id);
      // Neither removal is checked.
      if removePack == Crashed {
        catalog := map[];
        return DeleteDied;
      }
      if removePack == Done { packs := packs - {key}; }
      if removeIndex == Crashed {
        catalog := map[];
        return DeleteDied;
      }
      if removeIndex == Done { sidecars := sidecars - {key}; }
      var found := MemDelete(id);
      return if found then Deleted else DeleteNotFound;
    }

    /** Loads the pack on first use (ensureLoaded) and gives the bytes readers see. */
    method Open(id: string, packReadable: bool, indexReadable: bool) returns (r: OpenResult)
      requires lib.Contract()
      modifies `catalog
      ensures (Snapshot(), r) == AfterOpen(lib, old(Snapshot()), id, packReadable, indexReadable)
    {
      hide TrimSpace, PathOk, lib.Contract, Accepts, Trusts, Quarantine.Counts;
      if id in catalog && |catalog[id].data| > 0 { return Opened(catalog[id].data); }
      if !PathOk(id) { return OpenRefused; }
      var key := TrimSpace(id);
      if key !in packs {
        if exists n :: n in quarantine && Quarantine.Counts(n, key) { return IsInQuarantine; }
        return OpenNotFound;
      }
      if !packReadable { return ReadFailed; }
      var data := packs[key];
      var ok := MemPut(id, [], data);
      if !ok { return OpenRejected; }
      var sidecar := if indexReadable && key in sidecars then sidecars[key] else None;
      var trusted := Trusts(lib, id, data, sidecar);
      MemSetStatus(id, trusted, !trusted);
      if trusted {
        assert sidecar.Some? by { TrustNeedsSidecar(lib, id, data, sidecar); }
        if id in catalog && |sidecar.value.affinity| > 0 {
          catalog := catalog[id := catalog[id].(affinity := sidecar.value.affinity)];
        }
      }
      return if id in catalog then Opened(catalog[id].data) else OpenNotFound;
    }

    method RebuildIndex(id: string, packReadable: bool, now: string, write: Outcome, rename: Outcome) returns (r: RebuildResult)
      requires lib.Contract()
      modifies this
      ensures (Snapshot(), r) == AfterRebuild(lib, old(Snapshot()), id, packReadable, now, write, rename)
    {
      hide TrimSpace, lib.Contract, IndexOf, Indexable, PathOk;
      if !PathOk(id) { return RebuildFailed; }
      var key := TrimSpace(id);
      if key !in packs || !packReadable { return RebuildFailed; }
      var data := packs[key];
      var affinity := if id in catalog then catalog[id].affinity else [];
      var st := lib.open(data);
      if st.None? || !lib.verifies(data, st.value) { return RebuildFailed; }
      PathHasKey(id);
      HealthyIsIndexable(lib, id, data);
      var idx := BuildIndexFromPack(lib, id, affinity, data, st.value, now);
      IndexOfHealthy(lib, id, affinity, data, now);
      var written := WriteIndexFile(key, idx.value, write, rename);
      if written == Crashed {
        catalog := map[];
        return RebuildDied;
      }
      if written == Failed { return RebuildFailed; }
      MemSetStatus(id, true, false);
      return Rebuilt;
    }

    method VerifyAndMaybeQuarantine(id: string, packReadable: bool, doQuarantine: bool, stamp: string, movePack: Outcome,
                                    moveIndex: Outcome) returns (r: VerifyResult)
      modifies this
      ensures (Snapshot(), r)
           == AfterVerify(lib, old(Snapshot()), id, packReadable, doQuarantine, stamp, movePack, moveIndex)
    {
      hide TrimSpace, PathOk, Quarantine.NameOf, Quarantine.FreeSlot;
      if !PathOk(id) { return VerifyFailed; }
      var key := TrimSpace(id);
      if key !in packs || !packReadable { return VerifyFailed; }
      var data := packs[key];
      var st := lib.open(data);
      if st.Some? && lib.verifies(data, st.value) { return PackHealthy; }
      if !doQuarantine { return PackCorrupt(false); }
      var slot := Quarantine.AllocateName(quarantine.Keys, key, stamp);
      if slot.None? || movePack == Failed { return PackCorrupt(false); }
      if movePack == Crashed {
        catalog := map[];
        return VerifyDied;
      }
      quarantine := quarantine[Quarantine.NameOf(key, stamp, slot.value) := data];
      packs := packs - {key};
      if key in sidecars {
        if moveIndex == Crashed {
          catalog := map[];
          return VerifyDied;
        }
        if moveIndex == Done { sidecars := sidecars - {key}; }
      }
      var _ := MemDelete(id);
      return PackCorrupt(true);
    }
  }

  lemma {:induction false} TrustNeedsSidecar(lib: Library, id: string, data: seq<byte>, sidecar: Option<PackIndex>)
    requires Trusts(lib, id, data, sidecar)
    ensures sidecar.Some?
  {}

  lemma {:induction false} PathHasKey(id: string)
    requires PathOk(id)
    ensures TrimSpace(id) != []
  {}

  lemma {:induction false} AcceptedMeans(lib: Library, key: string, data: seq<byte>)
    requires Accepts(lib, key, data)
    ensures key != [] && data != [] && lib.Healthy(data) && lib.open(data).Some?
  {}

  lemma {:induction false} IndexOfHealthy(lib: Library, id: string, affinity: string, data: seq<byte>, now: string)
    requires lib.Contract() && lib.Healthy(data) && TrimSpace(id) != []
    ensures BuiltFor(lib, IndexOf(lib, id, affinity, data, lib.open(data).value, now), id, data)
    ensures WellFormed(IndexOf(lib, id, affinity, data, lib.open(data).value, now))
  {
    hide lib.Contract, IndexOf, TrimSpace;
    var idx := IndexOf(lib, id, affinity, data, lib.open(data).value, now);
    assert BuiltFor(lib, idx, id, data);
    BuiltIsWellFormed(lib, idx, id, data);
  }
}
