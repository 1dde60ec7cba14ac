/** When the pack writers succeed, stated on their inputs (internal/archive/pack.go, writer.go, seektable.go). */
module PackAccepts {
  import opened Prelude
  import opened Frames
  import opened Text
  import opened PackModel
  import opened PackWriter

  /** The id a member is known by: its entry id, or its trimmed name where it has none. */
  function KeyOf(m: Member): string { if m.entryID == "" then TrimSpace(m.name) else m.entryID }

  predicate DistinctKeys(ms: seq<Member>) { forall i, j :: 0 <= i < j < |ms| ==> KeyOf(ms[i]) != KeyOf(ms[j]) }

  /** It has a name, and archive/tar writes a header for it; permissions default to 0644. */
  ghost predicate TarTakes(t: Tools, m: Member) {
    TrimSpace(m.name) != "" && exists header :: t.tarHeader(TrimSpace(m.name), |m.body|, if m.mode == 0 then 420 else m.mode) == Some(header)
  }

  lemma {:induction false} TarTakesIff(t: Tools, m: Member)
    ensures TarTakes(t, m) <==> TarAccepts(t, m)
  {
    hide TrimSpace;
    var r := t.tarHeader(TrimSpace(m.name), |m.body|, ModeOf(m));
    if r.Some? { assert r == Some(r.value); }
  }

  // ---- Which parts make a valid table -------------------------------------------------------------------------

  predicate SoundPart(p: Part) { |p.comp| > 0 && |p.raw| <= 33554432 }

  lemma {:induction false} PartFitsIff(t: Tools, parts: seq<Part>, i: nat)
    requires i < |parts|
    ensures FrameFits(FramesOf(t, parts), i) <==> SoundPart(parts[i])
  {
    hide Raw, Compressed;
    EndsOfFrames(t, parts, i);
    assert FramesOf(t, parts)[i] == FrameAt(t, parts[..i], parts[i]);
  }

  lemma {:induction false} TableValidIff(t: Tools, parts: seq<Part>, rows: seq<SeekMember>, packID: string)
    ensures ValidTable(TableOf(t, parts, rows, packID)) <==> (
      && TrimSpace(packID) != "" && |parts| >= 2 && (forall i :: 0 <= i < |parts| ==> SoundPart(parts[i]))
      && (forall i :: 0 <= i < |rows| ==> MemberFits(rows[i], |Raw(parts)|))
      && (forall i, j :: 0 <= i < j < |rows| ==> EntryKey(rows[i]) != EntryKey(rows[j])))
  {
    hide TrimSpace, Raw, Compressed, FrameFits, SoundPart, MemberFits, EntryKey, RawEnd;
    EndsOfFrames(t, parts, |parts|);
    assert parts[..|parts|] == parts;
    forall i | 0 <= i < |parts| ensures FrameFits(FramesOf(t, parts), i) <==> SoundPart(parts[i]) { PartFitsIff(t, parts, i); }
  }

  lemma {:induction false} RowIs(t: Tools, ms: seq<Member>, i: nat)
    requires i < |ms| && forall k :: 0 <= k < |ms| ==> TarAccepts(t, ms[k])
    ensures EntryKey(RowsOf(t, ms)[i]) == KeyOf(ms[i]) != ""
    decreases |ms|
  {
    hide TarStream, HeaderOf, ModeOf;
    if i < |ms| - 1 { RowIs(t, ms[..|ms| - 1], i); }
  }

  lemma {:induction false} RowsFit(t: Tools, ms: seq<Member>, suffix: seq<byte>)
    requires t.Contract() && forall k :: 0 <= k < |ms| ==> TarAccepts(t, ms[k])
    ensures forall i :: 0 <= i < |ms| ==> MemberFits(RowsOf(t, ms)[i], |TarStream(t, ms) + suffix|)
    ensures (forall i, j :: 0 <= i < j < |ms| ==> EntryKey(RowsOf(t, ms)[i]) != EntryKey(RowsOf(t, ms)[j])) <==> DistinctKeys(ms)
  {
    hide t.Contract, TarStream, TarAccepts, RowsOf, EntryKey, KeyOf;
    forall i | 0 <= i < |ms|
      ensures EntryKey(RowsOf(t, ms)[i]) == KeyOf(ms[i]) && MemberFits(RowsOf(t, ms)[i], |TarStream(t, ms) + suffix|)
    {
      RowIs(t, ms, i);
      RowsCarryBodies(t, ms, suffix, i);
    }
  }

  lemma {:induction false} EncodedIsSomething(t: Tools, p: Part)
    requires t.Contract() && FromEncoder(t, p)
    ensures |p.comp| > 0
  {
    hide t.CodecContract, t.TarContract, t.HashContract, t.JsonContract;
  }

  // ---- The writer that compresses anew ----------------------------------------------------------------------

  /**
   * WritePack succeeds exactly for a named pack of one or more members that TAR takes and that have distinct ids, when the
   * frame size it settles on is at most 32 MiB and the seek table fits into 16 MiB.
   */
  lemma {:induction false} RepackableIff(t: Tools, ms: seq<Member>, packID: string, requested: int)
    requires t.Contract()
    ensures Repackable(t, ms, packID, requested) <==> (
      && TrimSpace(packID) != "" && |ms| > 0 && (forall i :: 0 <= i < |ms| ==> TarTakes(t, ms[i])) && DistinctKeys(ms)
      && AllTarAccept(t, ms)
      && Min(if requested > 0 then requested else 8388608, |WholeTar(t, ms)| / 2) <= 33554432
      && |t.marshal(TableOf(t, RepackParts(t, ms, requested), RowsOf(t, ms), packID))| <= 16777216)
  {
    hide t.Contract, TrimSpace, WholeTar, RepackParts, RowsOf, TarAccepts, TarTakes, ValidTable, DistinctKeys;
    forall i | 0 <= i < |ms| ensures TarTakes(t, ms[i]) <==> TarAccepts(t, ms[i]) { TarTakesIff(t, ms[i]); }
    if AllTarAccept(t, ms) {
      RepackTableIff(t, ms, packID, requested);
      TarEndsInZeros(t, ms);
      TargetIs(|WholeTar(t, ms)|, requested);
    }
  }

  lemma {:induction false} RepackTableIff(t: Tools, ms: seq<Member>, packID: string, requested: int)
    requires t.Contract() && AllTarAccept(t, ms)
    ensures ValidTable(TableOf(t, RepackParts(t, ms, requested), RowsOf(t, ms), packID)) <==>
            TrimSpace(packID) != "" && DistinctKeys(ms) && TargetFor(|WholeTar(t, ms)|, requested) <= 33554432
  {
    hide t.Contract, TrimSpace, TarAccepts, ValidTable, DistinctKeys, RowsOf, EntryKey, MemberFits, TarStream, TargetFor, ChunkParts,
         Raw, Zeros;
    var parts, raw := RepackParts(t, ms, requested), WholeTar(t, ms);
    ChunksAreTheStream(t, raw, 0, TargetFor(|raw|, requested));
    assert raw[0..] == raw;
    RowsFit(t, ms, Zeros(TERMINATOR_BYTES));
    TableValidIff(t, parts, RowsOf(t, ms), packID);
    ChunksSound(t, ms, requested);
  }

  lemma {:induction false} ChunksSound(t: Tools, ms: seq<Member>, requested: int)
    requires t.Contract() && AllTarAccept(t, ms)
    ensures var parts := RepackParts(t, ms, requested);
            && |parts| >= 2
            && ((forall i :: 0 <= i < |parts| ==> SoundPart(parts[i])) <==> TargetFor(|WholeTar(t, ms)|, requested) <= 33554432)
  {
    hide t.Contract, TarAccepts, TargetFor, ChunkParts, WholeTar;
    var parts, raw := RepackParts(t, ms, requested), WholeTar(t, ms);
    var target := TargetFor(|raw|, requested);
    ChunksAreTheStream(t, raw, 0, target);
    TarEndsInZeros(t, ms);
    TargetIs(|raw|, requested);
    RepackedChunks(t, ms, requested, 0);
    assert parts[0].raw == raw[0 * target..Min(0 * target + target, |raw|)];
    assert |parts[0].raw| == target;
    forall i | 0 <= i < |parts| ensures |parts[i].comp| > 0 && |parts[i].raw| <= target {
      EncodedIsSomething(t, parts[i]);
      RepackedChunks(t, ms, requested, i);
    }
  }

  // ---- The writers that copy payloads -----------------------------------------------------------------------

  /** Every header and every decoded payload frame of the member expands to at most 32 MiB. */
  predicate FramesInBounds(t: Tools, m: Member)
    requires CopyOk(t, m)
  {
    |HeaderOf(t, m)| <= 33554432 && forall i :: 0 <= i < |m.payloadFrames| ==> |t.dec(m.payloadFrames[i]).value| <= 33554432
  }

  lemma {:induction false} GenPartSound(t: Tools, kind: string, raw: seq<byte>)
    requires t.Contract()
    ensures (forall i :: 0 <= i < |GenPart(t, kind, raw)| ==> SoundPart(GenPart(t, kind, raw)[i])) <==> |raw| <= 33554432
  {
    hide t.TarContract, t.HashContract, t.JsonContract, ContentFrame, HeaderContract;
    if raw != [] {
      assert FromEncoder(t, GenPart(t, kind, raw)[0]);
      EncodedIsSomething(t, GenPart(t, kind, raw)[0]);
    }
  }

  predicate AllSound(parts: seq<Part>) { forall i :: 0 <= i < |parts| ==> SoundPart(parts[i]) }

  lemma {:induction false} SoundAppend(a: seq<Part>, b: seq<Part>)
    ensures AllSound(a + b) <==> AllSound(a) && AllSound(b)
  {
    hide SoundPart;
    var all := a + b;
    assert forall i :: 0 <= i < |a| ==> all[i] == a[i];
    assert forall i :: 0 <= i < |b| ==> all[|a| + i] == b[i];
  }

  lemma {:induction false} MemberSoundIff(t: Tools, m: Member)
    requires t.Contract() && CopyOk(t, m)
    ensures AllSound(MemberParts(t, m)) <==> FramesInBounds(t, m)
  {
    hide t.Contract, HeaderOf, GenPart, Zeros, TarAccepts, Raw;
    var h, p := GenPart(t, KIND_HEADER, HeaderOf(t, m)), PayloadParts(t, m.payloadFrames);
    var z := GenPart(t, KIND_PADDING, Zeros(PadLen(|m.body|)));
    GenPartSound(t, KIND_HEADER, HeaderOf(t, m));
    GenPartSound(t, KIND_PADDING, Zeros(PadLen(|m.body|)));
    SoundAppend(h + p, z);
    SoundAppend(h, p);
    assert forall i :: 0 <= i < |p| ==> p[i] == Part(KIND_PAYLOAD, t.dec(m.payloadFrames[i]).value, m.payloadFrames[i]);
  }

  lemma {:induction false} CopySoundIff(t: Tools, ms: seq<Member>)
    requires t.Contract() && AllCopyOk(t, ms)
    ensures AllSound(CopyParts(t, ms)) <==> forall i :: 0 <= i < |ms| ==> FramesInBounds(t, ms[i])
    ensures ms != [] ==> CopyParts(t, ms) != []
    decreases |ms|
  {
    hide t.Contract, CopyOk, FramesInBounds, MemberParts, SoundPart;
    if ms != [] {
      var front, m := ms[..|ms| - 1], ms[|ms| - 1];
      CopySoundIff(t, front);
      CopyPartsStep(t, ms);
      MemberSoundIff(t, m);
      MemberHasParts(t, m);
      SoundAppend(CopyParts(t, front), MemberParts(t, m));
    }
  }

  lemma {:induction false} MemberHasParts(t: Tools, m: Member)
    requires CopyOk(t, m)
    ensures MemberParts(t, m) != []
  {
    hide TarAccepts, HeaderOf, Raw, GenPart;
    assert |PayloadParts(t, m.payloadFrames)| > 0;
  }

  /**
   * The copying writers succeed exactly for a named pack of one or more members that TAR takes, whose payload frames are not
   * empty and decode to the body, that have distinct ids, and whose headers and frames expand to at most 32 MiB each,
   * when the seek table fits into 16 MiB.
   */
  lemma {:induction false} CopyableIff(t: Tools, ms: seq<Member>, packID: string)
    requires t.Contract()
    ensures Copyable(t, ms, packID) <==> (
      && TrimSpace(packID) != "" && |ms| > 0 && (forall i :: 0 <= i < |ms| ==> TarTakes(t, ms[i]) && PayloadOk(t, ms[i]))
      && DistinctKeys(ms) && AllCopyOk(t, ms) && (forall i :: 0 <= i < |ms| ==> FramesInBounds(t, ms[i]))
      && |t.marshal(TableOf(t, Terminated(t, CopyParts(t, ms)), RowsOf(t, ms), packID))| <= 16777216)
  {
    hide t.Contract, TrimSpace, RowsOf, TarAccepts, TarTakes, ValidTable, DistinctKeys, FramesInBounds, PayloadOk, Terminated, CopyParts;
    forall i | 0 <= i < |ms| ensures TarTakes(t, ms[i]) <==> TarAccepts(t, ms[i]) { TarTakesIff(t, ms[i]); }
    if AllCopyOk(t, ms) { CopyTableIff(t, ms, packID); }
  }

  lemma {:induction false} CopyTableIff(t: Tools, ms: seq<Member>, packID: string)
    requires t.Contract() && AllCopyOk(t, ms)
    ensures ValidTable(TableOf(t, Terminated(t, CopyParts(t, ms)), RowsOf(t, ms), packID)) <==>
            TrimSpace(packID) != "" && |ms| > 0 && DistinctKeys(ms) && forall i :: 0 <= i < |ms| ==> FramesInBounds(t, ms[i])
  {
    hide t.Contract, TrimSpace, TarAccepts, PayloadOk, ValidTable, DistinctKeys, RowsOf, EntryKey, MemberFits, TarStream, CopyParts, Raw,
         Zeros, GenPart, FramesInBounds, SoundPart;
    var parts, term := CopyParts(t, ms), GenPart(t, KIND_TERMINATOR, Zeros(TERMINATOR_BYTES));
    CopyPartsAreTheTarStream(t, ms);
    PartsAppend(parts, term);
    GenPartRaw(t, KIND_TERMINATOR, Zeros(TERMINATOR_BYTES));
    RowsFit(t, ms, Zeros(TERMINATOR_BYTES));
    TableValidIff(t, parts + term, RowsOf(t, ms), packID);
    CopySoundIff(t, ms);
    GenPartSound(t, KIND_TERMINATOR, Zeros(TERMINATOR_BYTES));
    SoundAppend(parts, term);
    OneTerminator(t);
    if ms == [] { NothingToCopy(t); }
  }

  lemma {:induction false} OneTerminator(t: Tools)
    ensures |GenPart(t, KIND_TERMINATOR, Zeros(TERMINATOR_BYTES))| == 1
  {}

  lemma {:induction false} NothingToCopy(t: Tools)
    ensures CopyParts(t, []) == []
  {}

  // ---- Which writer -------------------------------------------------------------------------------------------

  /** Which writer makes the pack: the repacking one where copying is not wanted or some member has no payload frame. */
  lemma {:induction false} RouteIff(t: Tools, ms: seq<Member>, packID: string, preferCopy: Option<bool>)
    ensures var wanted := preferCopy.None? || preferCopy.value;
            var single := forall m :: m in ms ==> |m.payloadFrames| == 1 && SinglePayload(t, m);
            var payloads := forall m :: m in ms ==> |m.payloadFrames| > 0;
            var route := RouteOf(t, ms, packID, preferCopy);
            && (route == CopySingle <==> wanted && single)
            && (route == CopyMulti <==> wanted && payloads && !single && Copyable(t, ms, packID))
  {
    hide TrimSpace, Copyable, PayloadMatchesBody;
  }
}
