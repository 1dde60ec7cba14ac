/** From sealed logs to a stored pack and back: the writers, the reader and the store put together. */
module PackLifecycle {
  import opened Prelude
  import opened Frames
  import opened Text
  import opened PackModel
  import opened PackWriter
  import opened PackReader
  import PackIndexes
  import opened ArchiveStore
  import opened StoreRuns

  /** The store's library is this very reader. */
  ghost predicate Reads(lib: PackIndexes.Library, t: Tools) {
    && (forall d, st :: lib.open(d) == Some(st) <==> OpensAs(t, d, st))
    && (forall d, st :: lib.verifies(d, st) <==> Verifies(t, d, st))
    && (forall d :: lib.shaHex(d) == t.shaHex(d))
    && (forall d, e :: PackIndexes.EqualFold(t.shaHex(d), t.shaHex(e)) ==> d == e)
  }

  lemma {:induction false} OpenedTable(t: Tools, d: seq<byte>, st: SeekTable)
    requires OpensAs(t, d, st)
    ensures d != [] && ValidTable(st) && |st.frames| >= MIN_CONTENT_FRAMES
  {
    hide ValidTable, HeaderContract, AllFrames, Contents, LocsOf;
    NoPackInNothing(t);
  }

  /** The reader meets the contract under which the store was proved. */
  lemma {:induction false} ReaderMeetsContract(lib: PackIndexes.Library, t: Tools)
    requires t.Contract() && Reads(lib, t)
    ensures lib.Contract()
  {
    hide ValidTable, HeaderContract, OpensAs, PackIndexes.EqualFold, t.CodecContract, t.TarContract, t.JsonContract;
    forall d | lib.open(d).Some?
      ensures d != [] && ValidTable(lib.open(d).value) && |lib.open(d).value.frames| >= MIN_CONTENT_FRAMES
    {
      OpenedTable(t, d, lib.open(d).value);
    }
  }

  /** A pack written from single frames is accepted by the store under its own id. */
  lemma {:induction false} HeldPackIsAccepted(lib: PackIndexes.Library, t: Tools, p: Packed, parts: seq<Part>, ms: seq<Member>)
    requires t.Contract() && Reads(lib, t) && Holds(t, p, parts, ms) && SingleFrames(t, parts)
    requires Trimmed(p.table.packID) && |p.data| <= MAX_PACK_BYTES
    ensures lib.open(p.data) == Some(p.table) && Accepts(lib, p.table.packID, p.data)
  {
    hide t.Contract, Holds, OpensAs, Verifies, SingleFrames, TrimSpace, HeaderContract, PackIndexes.EqualFold;
    HeldPackOpensAndVerifies(t, p, parts, ms);
    OpenedTable(t, p.data, p.table);
    TrimmedKey(p.table.packID);
  }

  /** An event that neither replaces nor removes the pack id. */
  predicate LeavesAlone(op: Op, id: string) {
    match op
    case Put(other, _, _, _, _) => other != id
    case Delete(other, removePack, _) => other != id || removePack != Done
    case Restart(found) => id !in found
    case _ => true
  }

  lemma {:induction false} MapRunKeeps(lib: PackIndexes.Library, m: map<string, seq<byte>>, ops: seq<Op>, id: string)
    requires id in m && forall i :: 0 <= i < |ops| ==> LeavesAlone(ops[i], id)
    ensures id in MapRun(lib, m, ops) && MapRun(lib, m, ops)[id] == m[id]
    decreases |ops|
  {
    hide Accepts, PathOk, ArchiveStore.Publish, Trimmed;
    if ops != [] {
      assert LeavesAlone(ops[0], id);
      MapRunKeeps(lib, MapStep(lib, m, ops[0]), ops[1..], id);
    }
  }

  /**
   * From seal to read: once a pack that holds these members has been published, then after any run of
   * puts, deletes, opens, rebuilds, quarantines, failures, crashes and restarts that does not replace
   * or remove it, opening it gives its bytes, they open as its table, and each member found there reads
   * back as the slice of its body, unless the range needs more than the decompression budget.
   */
  lemma {:induction false} ArchivedMemberReadsBack(lib: PackIndexes.Library, t: Tools, s: Store, p: Packed, parts: seq<Part>,
      ms: seq<Member>, affinity: string, now: string, plan: PutPlan, ops: seq<Op>, i: nat, entryID: string, offset: nat,
      length: nat)
    requires t.Contract() && Reads(lib, t) && Holds(t, p, parts, ms) && SingleFrames(t, parts)
    requires Trimmed(p.table.packID) && |p.data| <= MAX_PACK_BYTES && Coherent(lib, s)
    requires AfterPut(lib, s, p.table.packID, affinity, p.data, now, plan).1 == Published
    requires forall k :: 0 <= k < |ops| ==> TrimmedOp(ops[k]) && LeavesAlone(ops[k], p.table.packID)
    requires i < |ms| && TrimSpace(entryID) != [] && FindFrom(p.table.members, TrimSpace(entryID), 0) == Some(i)
    ensures var u := Run(lib, AfterPut(lib, s, p.table.packID, affinity, p.data, now, plan).0, ops);
            AfterOpen(lib, u, p.table.packID, true, true).1 == Opened(p.data)
    ensures lib.open(p.data) == Some(p.table)
    ensures var start := RowsOf(t, ms)[i].rawOffset + offset;
            var bytes := HitBytes(parts, |parts|, start, start + Min(length, |ms[i].body| - offset));
            ReadOutcome(t, p.data, p.table, entryID, offset, length) ==
            if length == 0 || offset >= |ms[i].body| || bytes <= MAX_DECOMPRESS_PER_OP
            then Ok(BodySliceOf(ms[i].body, offset, length)) else Err(OverBudget)
  {
    PublishedIsInMap(lib, t, s, p, parts, ms, affinity, now, plan);
    hide *;
    var id := p.table.packID;
    var first := AfterPut(lib, s, id, affinity, p.data, now, plan).0;
    MapRunKeeps(lib, View(lib, first), ops, id);
    RunRefines(lib, first, ops);
    ReaderSeesMap(lib, Run(lib, first, ops), id, true, true);
    OpenedIs(AfterOpen(lib, Run(lib, first, ops), id, true, true).1, p.data);
    MembersReadBack(t, p, parts, ms, i, entryID, offset, length);
  }

  lemma {:induction false} OpenedIs(r: OpenResult, d: seq<byte>)
    requires r.Opened? && r.data == d
    ensures r == Opened(d)
  {}

  lemma {:induction false} PublishedIsInMap(lib: PackIndexes.Library, t: Tools, s: Store, p: Packed, parts: seq<Part>,
                                            ms: seq<Member>, affinity: string, now: string, plan: PutPlan)
    requires t.Contract() && Reads(lib, t) && Holds(t, p, parts, ms) && SingleFrames(t, parts)
    requires Trimmed(p.table.packID) && |p.data| <= MAX_PACK_BYTES && Coherent(lib, s)
    requires AfterPut(lib, s, p.table.packID, affinity, p.data, now, plan).1 == Published
    ensures var u := AfterPut(lib, s, p.table.packID, affinity, p.data, now, plan).0;
            && lib.Contract() && Coherent(lib, u) && p.table.packID in View(lib, u) && View(lib, u)[p.table.packID] == p.data
    ensures lib.open(p.data) == Some(p.table)
  {
    hide *;
    ReaderMeetsContract(lib, t);
    HeldPackIsAccepted(lib, t, p, parts, ms);
    PutIsAtomic(lib, s, p.table.packID, affinity, p.data, now, plan);
    PutCoherentIff(lib, s, p.table.packID, affinity, p.data, now, plan);
  }
}
