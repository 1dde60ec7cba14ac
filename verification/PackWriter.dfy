/** The pack writers of internal/archive/pack.go and writer.go. */
module PackWriter {
  import opened Prelude
  import opened Frames
  import opened Text
  import opened PackModel

  datatype PackError =
    | PackIDRequired | MembersRequired | LengthMismatch | NameRequired | PayloadRequired | EmptyPayload
    | PayloadNotZstd | BodyMismatch | TarFailed | TooFewFrames | InvalidTable | TableTooLarge

  const KIND_CONTENT := "content"
  const KIND_HEADER := "header"
  const KIND_PAYLOAD := "payload"
  const KIND_PADDING := "padding"
  const KIND_TERMINATOR := "terminator"

  const DEFAULT_MODE := 0x1A4
  const DEFAULT_TARGET_FRAME_BYTES: nat := 8 * 1024 * 1024
  const TERMINATOR_BYTES: nat := 1024

  function Zeros(n: nat): (z: seq<byte>)
    ensures |z| == n
  {
    seq(n, _ => 0)
  }

  // ---- The TAR stream ------------------------------------------------------------------------------

  function ModeOf(m: Member): int { if m.mode == 0 then DEFAULT_MODE else m.mode }

  function PadLen(size: nat): nat { (512 - size % 512) % 512 }

  /** What archive/tar has written for one member once it is flushed: header, body, zero padding. */
  function TarBlock(t: Tools, name: string, body: seq<byte>, mode: int): Option<seq<byte>> {
    match t.tarHeader(name, |body|, mode)
    case None => None
    case Some(h) => Some(h + body + Zeros(PadLen(|body|)))
  }

  /** splitTarMemberFrames: header and padding recovered from the block by its length alone. */
  method SplitTarMemberFrames(t: Tools, name: string, body: seq<byte>, mode: int)
    returns (r: Option<(seq<byte>, seq<byte>)>)
    requires t.Contract()
    ensures r == match t.tarHeader(name, |body|, mode)
                 case None => None
                 case Some(h) => Some((h, Zeros(PadLen(|body|))))
  {
    hide t.HashContract, t.JsonContract, t.CodecContract, HeaderContract;
    var one := TarBlock(t, name, body, mode);
    if one.None? {
      return None;
    }
    var block := one.value;
    var padLen := (512 - |body| % 512) % 512;
    var headerLen := |block| - |body| - padLen;
    if headerLen <= 0 || headerLen > |block| {
      return None;
    }
    assert block[..headerLen] == t.tarHeader(name, |body|, mode).value;
    assert block[headerLen + |body|..] == Zeros(padLen);
    return Some((block[..headerLen], block[headerLen + |body|..]));
  }

  predicate TarAccepts(t: Tools, m: Member) {
    TrimSpace(m.name) != [] && t.tarHeader(TrimSpace(m.name), |m.body|, ModeOf(m)).Some?
  }

  function HeaderOf(t: Tools, m: Member): seq<byte>
    requires TarAccepts(t, m)
  {
    t.tarHeader(TrimSpace(m.name), |m.body|, ModeOf(m)).value
  }

  function MemberBlock(t: Tools, m: Member): seq<byte>
    requires TarAccepts(t, m)
  {
    HeaderOf(t, m) + m.body + Zeros(PadLen(|m.body|))
  }

  /** The TAR stream of the members, without its terminator. */
  function TarStream(t: Tools, ms: seq<Member>): seq<byte>
    requires forall i :: 0 <= i < |ms| ==> TarAccepts(t, ms[i])
  {
    if ms == [] then [] else TarStream(t, ms[..|ms| - 1]) + MemberBlock(t, ms[|ms| - 1])
  }

  /** The catalog row of a member whose header starts at raw offset start. */
  function RowAt(t: Tools, start: nat, m: Member): SeekMember
    requires TarAccepts(t, m)
  {
    var name := TrimSpace(m.name);
    SeekMember(name, if m.entryID == [] then name else m.entryID, start + |HeaderOf(t, m)|, |m.body|, ModeOf(m),
               t.shaHex(m.body))
  }

  function RowsOf(t: Tools, ms: seq<Member>): (rows: seq<SeekMember>)
    requires forall i :: 0 <= i < |ms| ==> TarAccepts(t, ms[i])
    ensures |rows| == |ms|
  {
    if ms == [] then []
    else
      var front := ms[..|ms| - 1];
      RowsOf(t, front) + [RowAt(t, |TarStream(t, front)|, ms[|ms| - 1])]
  }

  // ---- The parts of a copied pack ----------------------------------------------------------------------

  function GenPart(t: Tools, kind: string, raw: seq<byte>): seq<Part> {
    if raw == [] then [] else [Part(kind, raw, t.enc(raw))]
  }

  predicate PayloadOk(t: Tools, m: Member) {
    && m.payloadFrames != []
    && (forall i :: 0 <= i < |m.payloadFrames| ==> m.payloadFrames[i] != [] && t.dec(m.payloadFrames[i]).Some?)
    && Raw(PayloadParts(t, m.payloadFrames)) == m.body
  }

  function PayloadParts(t: Tools, frames: seq<seq<byte>>): seq<Part>
    requires forall i :: 0 <= i < |frames| ==> t.dec(frames[i]).Some?
  {
    seq(|frames|, i requires 0 <= i < |frames| => Part(KIND_PAYLOAD, t.dec(frames[i]).value, frames[i]))
  }

  predicate CopyOk(t: Tools, m: Member) {
    TarAccepts(t, m) && PayloadOk(t, m)
  }

  function MemberParts(t: Tools, m: Member): seq<Part>
    requires CopyOk(t, m)
  {
    GenPart(t, KIND_HEADER, HeaderOf(t, m)) + PayloadParts(t, m.payloadFrames)
    + GenPart(t, KIND_PADDING, Zeros(PadLen(|m.body|)))
  }

  predicate AllCopyOk(t: Tools, ms: seq<Member>) {
    forall i :: 0 <= i < |ms| ==> CopyOk(t, ms[i])
  }

  function CopyParts(t: Tools, ms: seq<Member>): seq<Part>
    requires AllCopyOk(t, ms)
  {
    if ms == [] then [] else CopyParts(t, ms[..|ms| - 1]) + MemberParts(t, ms[|ms| - 1])
  }

  /** Copied frames and generated frames together decode to the TAR stream. */
  lemma {:induction false} CopyPartsAreTheTarStream(t: Tools, ms: seq<Member>)
    requires AllCopyOk(t, ms)
    ensures Raw(CopyParts(t, ms)) == TarStream(t, ms)
  {
    if ms != [] {
      var front, m := ms[..|ms| - 1], ms[|ms| - 1];
      CopyPartsAreTheTarStream(t, front);
      MemberPartsAreItsBlock(t, m);
      hide *;
      PartsAppend(CopyParts(t, front), MemberParts(t, m));
      CopyPartsStep(t, ms);
      TarStreamStep(t, ms);
    }
  }

  lemma {:induction false} CopyPartsStep(t: Tools, ms: seq<Member>)
    requires AllCopyOk(t, ms) && ms != []
    ensures CopyParts(t, ms) == CopyParts(t, ms[..|ms| - 1]) + MemberParts(t, ms[|ms| - 1])
  {}

  lemma {:induction false} TarStreamStep(t: Tools, ms: seq<Member>)
    requires ms != [] && forall i :: 0 <= i < |ms| ==> TarAccepts(t, ms[i])
    ensures TarStream(t, ms) == TarStream(t, ms[..|ms| - 1]) + MemberBlock(t, ms[|ms| - 1])
  {}

  lemma {:induction false} GenPartRaw(t: Tools, kind: string, raw: seq<byte>)
    ensures Raw(GenPart(t, kind, raw)) == raw
  {
    if raw != [] {
      var none: seq<Part> := [];
      assert Raw(none) == [];
      PartsSnoc(none, Part(kind, raw, t.enc(raw)));
      assert none + [Part(kind, raw, t.enc(raw))] == GenPart(t, kind, raw);
    } else {
      assert GenPart(t, kind, raw) == [];
    }
  }

  lemma {:induction false} MemberPartsAreItsBlock(t: Tools, m: Member)
    requires CopyOk(t, m)
    ensures Raw(MemberParts(t, m)) == MemberBlock(t, m)
  {
    var h, p, z := HeaderOf(t, m), PayloadParts(t, m.payloadFrames), Zeros(PadLen(|m.body|));
    GenPartRaw(t, KIND_HEADER, h);
    GenPartRaw(t, KIND_PADDING, z);
    hide GenPart, PayloadParts, Raw;
    PartsAppend(GenPart(t, KIND_HEADER, h), p);
    PartsAppend(GenPart(t, KIND_HEADER, h) + p, GenPart(t, KIND_PADDING, z));
  }

  // ---- Layout of the TAR stream -----------------------------------------------------------------------

  lemma {:induction false} TarHeaderBlocks(t: Tools, name: string, size: nat, mode: int)
    requires t.Contract() && t.tarHeader(name, size, mode).Some?
    ensures |t.tarHeader(name, size, mode).value| % 512 == 0 && |t.tarHeader(name, size, mode).value| >= 512
  {
    hide HeaderContract, t.CodecContract, t.HashContract, t.JsonContract;
  }

  lemma {:induction false} PadCompletesBlock(n: nat)
    ensures (n + PadLen(n)) % 512 == 0
  {
    assert n == 512 * (n / 512) + n % 512;
    assert n % 512 != 0 ==> n + PadLen(n) == 512 * (n / 512 + 1);
  }

  lemma {:induction false} HeaderIsWholeBlocks(t: Tools, m: Member)
    requires t.Contract() && TarAccepts(t, m)
    ensures |HeaderOf(t, m)| % 512 == 0 && |HeaderOf(t, m)| >= 512
    ensures |MemberBlock(t, m)| % 512 == 0
  {
    hide *;
    MemberBlockLength(t, m);
    TarHeaderBlocks(t, TrimSpace(m.name), |m.body|, ModeOf(m));
    PadCompletesBlock(|m.body|);
    WholeBlocksAdd(|HeaderOf(t, m)|, |m.body| + PadLen(|m.body|));
  }

  lemma {:induction false} WholeBlocksAdd(a: nat, b: nat)
    requires a % 512 == 0 && b % 512 == 0
    ensures (a + b) % 512 == 0
  {}

  lemma {:induction false} MemberBlockLength(t: Tools, m: Member)
    requires TarAccepts(t, m)
    ensures |MemberBlock(t, m)| == |HeaderOf(t, m)| + (|m.body| + PadLen(|m.body|))
    ensures t.tarHeader(TrimSpace(m.name), |m.body|, ModeOf(m)).Some?
    ensures HeaderOf(t, m) == t.tarHeader(TrimSpace(m.name), |m.body|, ModeOf(m)).value
  {
    hide TrimSpace;
  }

  lemma {:induction false} TarIsWholeBlocks(t: Tools, ms: seq<Member>)
    requires t.Contract() && forall i :: 0 <= i < |ms| ==> TarAccepts(t, ms[i])
    ensures |TarStream(t, ms)| % 512 == 0
  {
    hide t.Contract, TarStream, TarAccepts, MemberBlock;
    if ms == [] {
      TarStreamEmpty(t);
    } else {
      TarStreamStep(t, ms);
      TarIsWholeBlocks(t, ms[..|ms| - 1]);
      HeaderIsWholeBlocks(t, ms[|ms| - 1]);
      WholeBlocksAdd(|TarStream(t, ms[..|ms| - 1])|, |MemberBlock(t, ms[|ms| - 1])|);
    }
  }

  lemma {:induction false} TarStreamEmpty(t: Tools)
    ensures TarStream(t, []) == []
  {}

  lemma {:induction false} RowsOfStep(t: Tools, ms: seq<Member>)
    requires ms != [] && forall i :: 0 <= i < |ms| ==> TarAccepts(t, ms[i])
    ensures var front, m := ms[..|ms| - 1], ms[|ms| - 1];
            RowsOf(t, ms) == RowsOf(t, front) + [RowAt(t, |TarStream(t, front)|, m)]
  {
    hide TarAccepts, TarStream, RowAt;
  }

  /** Every row names a 512-aligned range that carries its member's body, whatever follows the stream. */
  lemma {:induction false} RowsCarryBodies(t: Tools, ms: seq<Member>, suffix: seq<byte>, i: nat)
    requires t.Contract() && i < |ms| && forall k :: 0 <= k < |ms| ==> TarAccepts(t, ms[k])
    ensures Carries(TarStream(t, ms) + suffix, RowsOf(t, ms)[i], ms[i].body)
    ensures RowsOf(t, ms)[i].rawOffset % 512 == 0
    decreases |ms|
  {
    hide t.Contract, TarStream, TarAccepts, MemberBlock, RowsOf, RowAt, Carries;
    var front, m := ms[..|ms| - 1], ms[|ms| - 1];
    TarStreamStep(t, ms);
    RowsOfStep(t, ms);
    var before := TarStream(t, front);
    if i < |front| {
      RowsCarryBodies(t, front, MemberBlock(t, m) + suffix, i);
      assert before + (MemberBlock(t, m) + suffix) == before + MemberBlock(t, m) + suffix;
    } else {
      TarIsWholeBlocks(t, front);
      LastRowCarriesBody(t, before, m, suffix);
    }
  }

  lemma {:induction false} LastRowCarriesBody(t: Tools, before: seq<byte>, m: Member, suffix: seq<byte>)
    requires t.Contract() && TarAccepts(t, m) && |before| % 512 == 0
    ensures Carries(before + MemberBlock(t, m) + suffix, RowAt(t, |before|, m), m.body)
    ensures RowAt(t, |before|, m).rawOffset % 512 == 0
  {
    hide t.Contract, TarAccepts, HeaderOf, TrimSpace, ModeOf, PadLen, Zeros;
    HeaderIsWholeBlocks(t, m);
    WholeBlocksAdd(|before|, |HeaderOf(t, m)|);
    BodySlice(before, HeaderOf(t, m), m.body, Zeros(PadLen(|m.body|)), suffix);
  }

  lemma {:induction false} BodySlice(before: seq<byte>, h: seq<byte>, body: seq<byte>, pad: seq<byte>, suffix: seq<byte>)
    ensures var s := before + (h + body + pad) + suffix;
            |before| + |h| + |body| <= |s| && s[|before| + |h|..|before| + |h| + |body|] == body
  {
    var s := before + (h + body + pad) + suffix;
    assert s == (before + h) + body + (pad + suffix);
  }

  /** Member ranges come in order and a whole header lies between one and the next. */
  lemma {:induction false} RowsAreDisjoint(t: Tools, ms: seq<Member>, i: nat, j: nat)
    requires t.Contract() && i < j < |ms| && forall k :: 0 <= k < |ms| ==> TarAccepts(t, ms[k])
    ensures RowsOf(t, ms)[i].rawOffset + RowsOf(t, ms)[i].size + 512 <= RowsOf(t, ms)[j].rawOffset
    decreases |ms|
  {
    hide t.Contract, TarStream, TarAccepts, RowsOf, RowAt, HeaderOf;
    var front, m := ms[..|ms| - 1], ms[|ms| - 1];
    RowsOfStep(t, ms);
    if j < |front| {
      RowsAreDisjoint(t, front, i, j);
    } else {
      RowsCarryBodies(t, front, [], i);
      HeaderIsWholeBlocks(t, m);
      assert TarStream(t, front) + [] == TarStream(t, front);
      RowOffset(t, |TarStream(t, front)|, m);
    }
  }

  lemma {:induction false} RowOffset(t: Tools, start: nat, m: Member)
    requires TarAccepts(t, m)
    ensures RowAt(t, start, m).rawOffset == start + |HeaderOf(t, m)|
  {}

  // ---- Publishing -------------------------------------------------------------------------------------

  function TableOf(t: Tools, parts: seq<Part>, rows: seq<SeekMember>, packID: string): SeekTable {
    SeekTable(SEEK_MAGIC, FORMAT_VERSION, packID, |Raw(parts)|, FramesOf(t, parts), rows,
              t.shaHex(t.shaSum(Compressed(parts))), MIN_CONTENT_FRAMES)
  }

  predicate Publishable(t: Tools, parts: seq<Part>, rows: seq<SeekMember>, packID: string) {
    ValidTable(TableOf(t, parts, rows, packID)) && |t.marshal(TableOf(t, parts, rows, packID))| <= MAX_SEEK_TABLE_BYTES
  }

  function Publish(t: Tools, parts: seq<Part>, rows: seq<SeekMember>, packID: string): Packed
    requires Publishable(t, parts, rows, packID)
  {
    var st := TableOf(t, parts, rows, packID);
    Packed(Compressed(parts) + SkipFrame(t.marshal(st)), st)
  }

  lemma {:induction false} PublishedIsWellBuilt(t: Tools, parts: seq<Part>, rows: seq<SeekMember>, packID: string)
    requires Publishable(t, parts, rows, packID)
    requires forall i :: 0 <= i < |parts| ==> t.dec(parts[i].comp) == Some(parts[i].raw)
    ensures WellBuilt(t, Publish(t, parts, rows, packID), parts)
  {}

  lemma {:induction false} EmptyPayloadFails(t: Tools, m: Member)
    requires m.payloadFrames == []
    ensures !PayloadOk(t, m)
  {}

  lemma {:induction false} ModeOfMeaning(m: Member)
    ensures ModeOf(m) == if m.mode == 0 then DEFAULT_MODE else m.mode
  {}

  lemma {:induction false} HeaderOfMeaning(t: Tools, m: Member)
    requires TarAccepts(t, m)
    ensures HeaderOf(t, m) == t.tarHeader(TrimSpace(m.name), |m.body|, ModeOf(m)).value
  {}

  lemma {:induction false} GenPartExtends(t: Tools, parts: seq<Part>, kind: string, raw: seq<byte>)
    ensures |Raw(parts + GenPart(t, kind, raw))| == |Raw(parts)| + |raw|
  {
    PartsAppend(parts, GenPart(t, kind, raw));
    GenPartRaw(t, kind, raw);
  }

  lemma {:induction false} PayloadDecodes(t: Tools, m: Member)
    requires CopyOk(t, m)
    ensures forall i :: 0 <= i < |m.payloadFrames| ==> t.dec(m.payloadFrames[i]).Some?
  {
    hide TarAccepts;
  }

  lemma {:induction false} RowAtMeaning(t: Tools, start: nat, m: Member)
    requires CopyOk(t, m)
    ensures TarAccepts(t, m)
    ensures RowAt(t, start, m) ==
            SeekMember(TrimSpace(m.name), if m.entryID == [] then TrimSpace(m.name) else m.entryID,
                       start + |HeaderOf(t, m)|, |m.body|, ModeOf(m), t.shaHex(m.body))
  {
    hide PayloadOk, TrimSpace, HeaderOf, ModeOf;
  }

  lemma {:induction false} MemberPartsMeaning(t: Tools, before: seq<Part>, m: Member)
    requires CopyOk(t, m)
    ensures TarAccepts(t, m) && forall i :: 0 <= i < |m.payloadFrames| ==> t.dec(m.payloadFrames[i]).Some?
    ensures before + MemberParts(t, m) ==
            before + GenPart(t, KIND_HEADER, HeaderOf(t, m)) + PayloadParts(t, m.payloadFrames)
            + GenPart(t, KIND_PADDING, Zeros(PadLen(|m.body|)))
  {
    hide TarAccepts, PayloadParts, GenPart, HeaderOf, Zeros, PadLen;
  }

  /** The variables the writers extend step by step, and the parts they have come to represent. */
  class PackBuilder {
    const t: Tools
    var packBuf: seq<byte>
    var frames: seq<SeekFrame>
    var members: seq<SeekMember>
    var rawOff: nat
    var compOff: nat
    ghost var parts: seq<Part>

    ghost predicate Valid()
      reads this
    {
      && packBuf == Compressed(parts) && frames == FramesOf(t, parts)
      && rawOff == |Raw(parts)| && compOff == |Compressed(parts)|
    }

    constructor (t: Tools)
      ensures Valid() && this.t == t && parts == [] && members == []
    {
      this.t := t;
      packBuf, frames, members, rawOff, compOff := [], [], [], 0, 0;
      parts := [];
      new;
      assert Comps(parts) == [] && Raws(parts) == [];
    }

    method AppendFrame(kind: string, raw: seq<byte>, comp: seq<byte>)
      requires Valid()
      modifies this
      ensures Valid() && parts == old(parts) + [Part(kind, raw, comp)] && members == old(members)
    {
      var f := SeekFrame(|frames|, kind, compOff, |comp|, rawOff, |raw|, t.shaHex(raw), t.shaHex(comp), []);
      FramesOfSnoc(t, parts, Part(kind, raw, comp));
      PartsSnoc(parts, Part(kind, raw, comp));
      frames := frames + [f];
      packBuf := packBuf + comp;
      rawOff := rawOff + |raw|;
      compOff := compOff + |comp|;
      parts := parts + [Part(kind, raw, comp)];
    }

    /** The closure appendGen: compress and append, nothing for empty input. */
    method AppendGen(kind: string, raw: seq<byte>)
      requires Valid()
      modifies this
      ensures Valid() && parts == old(parts) + GenPart(t, kind, raw) && members == old(members)
      ensures rawOff == |Raw(parts)|
    {
      if |raw| == 0 {
        return;
      }
      AppendFrame(kind, raw, t.enc(raw));
    }

    method AppendPayload(payload: seq<seq<byte>>, decoded: seq<seq<byte>>)
      requires Valid() && |decoded| == |payload|
      requires forall i :: 0 <= i < |payload| ==> t.dec(payload[i]) == Some(decoded[i])
      modifies this
      ensures Valid() && parts == old(parts) + PayloadParts(t, payload) && members == old(members)
    {
      for i := 0 to |payload|
        invariant Valid() && members == old(members)
        invariant parts == old(parts) + PayloadParts(t, payload)[..i]
      {
        AppendFrame(KIND_PAYLOAD, decoded[i], payload[i]);
        assert PayloadParts(t, payload)[..i + 1] == PayloadParts(t, payload)[..i] + [PayloadParts(t, payload)[i]];
      }
    }

    /** The body of the member loop: check the payload, then header, payload frames, row, padding. */
    method AppendMember(m: Member) returns (err: Option<PackError>)
      requires Valid() && t.Contract()
      modifies this
      ensures Valid() && (err.None? <==> CopyOk(t, m))
      ensures err.None? ==> && parts == old(parts) + MemberParts(t, m)
                            && members == old(members) + [RowAt(t, |Raw(old(parts))|, m)]
    {
      hide Valid, MemberParts, RowAt, PayloadOk, t.Contract, ModeOf, HeaderOf;
      var name := TrimSpace(m.name);
      if name == [] { return Some(NameRequired); }
      if |m.payloadFrames| == 0 {
        EmptyPayloadFails(t, m);
        return Some(PayloadRequired);
      }
      var decoded := DecodePayload(t, m);
      if decoded.Err? { return Some(decoded.error); }
      var mode := m.mode;
      if mode == 0 { mode := DEFAULT_MODE; }
      assert mode == ModeOf(m) by { ModeOfMeaning(m); }
      var split := SplitTarMemberFrames(t, name, m.body, mode);
      if split.None? { return Some(TarFailed); }
      assert split.value.0 == HeaderOf(t, m) by { HeaderOfMeaning(t, m); }
      Emit(m, name, mode, split.value.0, split.value.1, decoded.value);
      return None;
    }

    /** Header frame, copied payload frames, catalog row and padding frame of a checked member. */
    method Emit(m: Member, name: string, mode: int, header: seq<byte>, pad: seq<byte>, decoded: seq<seq<byte>>)
      requires Valid() && CopyOk(t, m) && name == TrimSpace(m.name) && mode == ModeOf(m)
      requires header == HeaderOf(t, m) && pad == Zeros(PadLen(|m.body|)) && |decoded| == |m.payloadFrames|
      requires forall i :: 0 <= i < |decoded| ==> t.dec(m.payloadFrames[i]) == Some(decoded[i])
      modifies this
      ensures Valid() && parts == old(parts) + MemberParts(t, m)
      ensures members == old(members) + [RowAt(t, |Raw(old(parts))|, m)]
    {
      hide *;
      ghost var start := parts;
      GenPartExtends(t, start, KIND_HEADER, header);
      AppendGen(KIND_HEADER, header);
      var bodyStart := rawOff;
      PayloadDecodes(t, m);
      AppendPayload(m.payloadFrames, decoded);
      var entryID := m.entryID;
      if entryID == [] { entryID := name; }
      var row := SeekMember(name, entryID, bodyStart, |m.body|, mode, t.shaHex(m.body));
      RowAtMeaning(t, |Raw(start)|, m);
      AddRow(row);
      AppendGen(KIND_PADDING, pad);
      MemberPartsMeaning(t, start, m);
    }

    method SetRows(rows: seq<SeekMember>)
      requires Valid()
      modifies `members
      ensures Valid() && members == rows && parts == old(parts)
    {
      members := rows;
    }

    method AddRow(row: SeekMember)
      requires Valid()
      modifies `members
      ensures Valid() && members == old(members) + [row] && parts == old(parts)
    {
      members := members + [row];
    }

    /** The table, its validation, its JSON and the trailing skippable frame. */
    method Finish(packID: string) returns (r: Result<Packed, PackError>)
      requires Valid()
      ensures r.Ok? <==> Publishable(t, parts, members, packID)
      ensures r.Ok? ==> r.value == Publish(t, parts, members, packID)
    {
      if |frames| < MIN_CONTENT_FRAMES { return Err(TooFewFrames); }
      var st := SeekTable(SEEK_MAGIC, FORMAT_VERSION, packID, rawOff, frames, members, t.shaHex(t.shaSum(packBuf)),
                          MIN_CONTENT_FRAMES);
      var ok := Validate(st);
      if !ok { return Err(InvalidTable); }
      var skip := WriteSkippableFrame(t.marshal(st));
      if skip.None? { return Err(TableTooLarge); }
      return Ok(Packed(packBuf + skip.value, st));
    }
  }

  /** Verify that the payload frames decompress, in order, to the member's body. */
  method DecodePayload(t: Tools, m: Member) returns (r: Result<seq<seq<byte>>, PackError>)
    requires m.payloadFrames != []
    ensures r.Ok? <==> PayloadOk(t, m)
    ensures r.Ok? ==> && |r.value| == |m.payloadFrames|
                      && forall i :: 0 <= i < |r.value| ==> t.dec(m.payloadFrames[i]) == Some(r.value[i])
  {
    var parts: seq<seq<byte>>, reassembled := [], [];
    var n := |m.payloadFrames|;
    for i := 0 to n
      invariant |parts| == i && reassembled == Flatten(parts)
      invariant forall k :: 0 <= k < i ==> m.payloadFrames[k] != [] && t.dec(m.payloadFrames[k]) == Some(parts[k])
    {
      var pf := m.payloadFrames[i];
      if |pf| == 0 { return Err(EmptyPayload); }
      var got := t.dec(pf);
      if got.None? { return Err(PayloadNotZstd); }
      FlattenSnoc(parts, got.value);
      parts := parts + [got.value];
      reassembled := reassembled + got.value;
    }
    assert Raws(PayloadParts(t, m.payloadFrames)) == parts;
    if reassembled != m.body { return Err(BodyMismatch); }
    return Ok(parts);
  }

  function Terminated(t: Tools, parts: seq<Part>): seq<Part> {
    parts + GenPart(t, KIND_TERMINATOR, Zeros(TERMINATOR_BYTES))
  }

  /** The parts and rows of a pack that copies payload frames. */
  predicate Copyable(t: Tools, ms: seq<Member>, packID: string) {
    && TrimSpace(packID) != [] && AllCopyOk(t, ms)
    && Publishable(t, Terminated(t, CopyParts(t, ms)), RowsOf(t, ms), packID)
  }

  /** The member loop and the ending shared by the two writers that copy payload frames. */
  method CopyMembers(t: Tools, ms: seq<Member>, packID: string) returns (r: Result<Packed, PackError>)
    requires t.Contract() && TrimSpace(packID) != []
    ensures r.Ok? <==> Copyable(t, ms, packID)
    ensures r.Ok? ==> r.value == Publish(t, Terminated(t, CopyParts(t, ms)), RowsOf(t, ms), packID)
  {
    hide *;
    var b := new PackBuilder(t);
    var i := 0;
    NothingCopied(t, ms);
    while i < |ms|
      invariant 0 <= i <= |ms| && b.Valid() && b.t == t && fresh(b) && HasCopied(t, ms[..i], b.parts, b.members)
    {
      CopyOneMore(t, ms, i, b.parts, b.members, CopyOk(t, ms[i]));
      var err := b.AppendMember(ms[i]);
      if err.Some? {
        NotCopyable(t, ms, packID);
        return Err(err.value);
      }
      i := i + 1;
    }
    assert ms[..i] == ms;
    AllCopied(t, ms, b.parts, b.members, packID);
    b.AppendGen(KIND_TERMINATOR, Zeros(TERMINATOR_BYTES));
    r := b.Finish(packID);
  }

  lemma {:induction false} NothingCopied(t: Tools, ms: seq<Member>)
    ensures HasCopied(t, ms[..0], [], [])
  {}

  lemma {:induction false} NotCopyable(t: Tools, ms: seq<Member>, packID: string)
    requires !AllCopyOk(t, ms)
    ensures !Copyable(t, ms, packID)
  {}

  lemma {:induction false} AllCopied(t: Tools, ms: seq<Member>, parts: seq<Part>, rows: seq<SeekMember>, packID: string)
    requires HasCopied(t, ms, parts, rows) && TrimSpace(packID) != []
    ensures AllCopyOk(t, ms) && (forall i :: 0 <= i < |ms| ==> TarAccepts(t, ms[i]))
    ensures parts + GenPart(t, KIND_TERMINATOR, Zeros(TERMINATOR_BYTES)) == Terminated(t, CopyParts(t, ms))
    ensures rows == RowsOf(t, ms)
    ensures Copyable(t, ms, packID) <==> Publishable(t, Terminated(t, CopyParts(t, ms)), RowsOf(t, ms), packID)
  {
    hide CopyParts, RowsOf, TarAccepts, PayloadOk, Publishable, GenPart, Zeros;
  }

  /** writePackMultiPayload. */
  method WritePackMultiPayload(t: Tools, ms: seq<Member>, packID: string) returns (r: Result<Packed, PackError>)
    requires t.Contract()
    ensures r.Ok? <==> Copyable(t, ms, packID)
    ensures r.Ok? ==> r.value == Publish(t, Terminated(t, CopyParts(t, ms)), RowsOf(t, ms), packID)
  {
    if TrimSpace(packID) == [] { return Err(PackIDRequired); }
    r := CopyMembers(t, ms, packID);
  }

  /** WritePackWithPayloadFrames: payload frame i belongs to member i. */
  method WritePackWithPayloadFrames(t: Tools, ms: seq<Member>, frames: seq<seq<byte>>, packID: string)
    returns (r: Result<Packed, PackError>)
    requires t.Contract()
    ensures r.Ok? <==> ms != [] && |ms| == |frames| && Copyable(t, WithFrames(ms, frames), packID)
    ensures r.Ok? ==> var ms' := WithFrames(ms, frames);
                      r.value == Publish(t, Terminated(t, CopyParts(t, ms')), RowsOf(t, ms'), packID)
  {
    if TrimSpace(packID) == [] { return Err(PackIDRequired); }
    if |ms| == 0 || |ms| != |frames| { return Err(LengthMismatch); }
    r := CopyMembers(t, WithFrames(ms, frames), packID);
  }

  function WithFrames(ms: seq<Member>, frames: seq<seq<byte>>): seq<Member> {
    seq(Min(|ms|, |frames|), i requires 0 <= i < |ms| && i < |frames| => ms[i].(payloadFrames := [frames[i]]))
  }

  ghost predicate HasCopied(t: Tools, done: seq<Member>, parts: seq<Part>, rows: seq<SeekMember>) {
    AllCopyOk(t, done) && parts == CopyParts(t, done) && rows == RowsOf(t, done)
  }

  /** The members copied so far grow by one, or the list as a whole cannot be copied. */
  lemma {:induction false} CopyOneMore(t: Tools, ms: seq<Member>, i: nat, parts: seq<Part>, rows: seq<SeekMember>, ok: bool)
    requires i < |ms| && HasCopied(t, ms[..i], parts, rows) && (ok <==> CopyOk(t, ms[i]))
    ensures ok ==> HasCopied(t, ms[..i + 1], parts + MemberParts(t, ms[i]), rows + [RowAt(t, |Raw(parts)|, ms[i])])
    ensures !ok ==> !AllCopyOk(t, ms)
  {
    hide MemberParts, RowAt, Raw, TarStream, TarAccepts, PayloadOk;
    if ok {
      var upto := ms[..i + 1];
      assert upto[..i] == ms[..i] && upto[i] == ms[i];
      assert AllCopyOk(t, upto);
      CopyPartsAreTheTarStream(t, ms[..i]);
      CopyPartsStep(t, upto);
      RowsOfStep(t, upto);
    }
  }

  // ---- The repacking writer -----------------------------------------------------------------------------

  predicate AllTarAccept(t: Tools, ms: seq<Member>) {
    forall i :: 0 <= i < |ms| ==> TarAccepts(t, ms[i])
  }

  /** buildTAR: the whole stream with its two zero blocks, and where each body landed. */
  method BuildTar(t: Tools, ms: seq<Member>) returns (r: Option<(seq<byte>, seq<SeekMember>)>)
    ensures r.Some? <==> AllTarAccept(t, ms)
    ensures r.Some? ==> r.value == (TarStream(t, ms) + Zeros(TERMINATOR_BYTES), RowsOf(t, ms))
  {
    hide *;
    var buf, rows := [], [];
    NothingInTar(t, ms);
    for i := 0 to |ms|
      invariant HasTarred(t, ms[..i], buf, rows)
    {
      TarOneMore(t, ms, i, buf, rows);
      var block := TarMember(t, ms[i], |buf|);
      if block.None? { return None; }
      buf, rows := buf + block.value.0, rows + [block.value.1];
    }
    assert ms[..|ms|] == ms;
    AllTarred(t, ms, buf, rows);
    return Some((buf + Zeros(TERMINATOR_BYTES), rows));
  }

  ghost predicate HasTarred(t: Tools, done: seq<Member>, buf: seq<byte>, rows: seq<SeekMember>) {
    AllTarAccept(t, done) && buf == TarStream(t, done) && rows == RowsOf(t, done)
  }

  lemma {:induction false} NothingInTar(t: Tools, ms: seq<Member>)
    ensures HasTarred(t, ms[..0], [], [])
  {}

  lemma {:induction false} AllTarred(t: Tools, ms: seq<Member>, buf: seq<byte>, rows: seq<SeekMember>)
    requires HasTarred(t, ms, buf, rows)
    ensures AllTarAccept(t, ms) && (forall i :: 0 <= i < |ms| ==> TarAccepts(t, ms[i]))
    ensures buf == TarStream(t, ms) && rows == RowsOf(t, ms)
  {}

  /** One turn of the loop: WriteHeader, the body, its padding, and the catalog row. */
  method TarMember(t: Tools, m: Member, start: nat) returns (r: Option<(seq<byte>, SeekMember)>)
    ensures r.Some? <==> TarAccepts(t, m)
    ensures r.Some? ==> r.value == (MemberBlock(t, m), RowAt(t, start, m))
  {
    TarAcceptsMeaning(t, m);
    ModeOfMeaning(m);
    hide *;
    var name := TrimSpace(m.name);
    if name == [] { return None; }
    var mode := m.mode;
    if mode == 0 { mode := DEFAULT_MODE; }
    var h := t.tarHeader(name, |m.body|, mode);
    if h.None? { return None; }
    var bodyOff := start + |h.value|;
    var entryID := m.entryID;
    if entryID == [] { entryID := name; }
    return Some((h.value + m.body + Zeros(PadLen(|m.body|)),
                 SeekMember(name, entryID, bodyOff, |m.body|, mode, t.shaHex(m.body))));
  }

  lemma {:induction false} TarAcceptsMeaning(t: Tools, m: Member)
    ensures TarAccepts(t, m) <==> TrimSpace(m.name) != [] && t.tarHeader(TrimSpace(m.name), |m.body|, ModeOf(m)).Some?
    ensures TarAccepts(t, m) ==>
              var h, name := t.tarHeader(TrimSpace(m.name), |m.body|, ModeOf(m)).value, TrimSpace(m.name);
              && MemberBlock(t, m) == h + m.body + Zeros(PadLen(|m.body|))
              && forall start: nat :: RowAt(t, start, m) ==
                   SeekMember(name, if m.entryID == [] then name else m.entryID, start + |h|, |m.body|, ModeOf(m),
                              t.shaHex(m.body))
  {
    hide TrimSpace, ModeOf, Zeros, PadLen;
  }

  lemma {:induction false} TarOneMore(t: Tools, ms: seq<Member>, i: nat, buf: seq<byte>, rows: seq<SeekMember>)
    requires i < |ms| && HasTarred(t, ms[..i], buf, rows)
    ensures !TarAccepts(t, ms[i]) ==> !AllTarAccept(t, ms)
    ensures TarAccepts(t, ms[i]) ==>
              HasTarred(t, ms[..i + 1], buf + MemberBlock(t, ms[i]), rows + [RowAt(t, |buf|, ms[i])])
  {
    hide TarAccepts, MemberBlock, RowAt;
    var upto := ms[..i + 1];
    assert upto[..i] == ms[..i] && upto[i] == ms[i];
    if TarAccepts(t, ms[i]) {
      assert AllTarAccept(t, upto);
      TarStreamStep(t, upto);
      RowsOfStep(t, upto);
    }
  }

  /** Floor of half the stream, so that at least two frames result; a smaller target is kept. */
  function EnsureMultiFrameTarget(tarLen: nat, target: nat): (r: nat)
    requires target > 0
    ensures r >= 1 && (tarLen >= MIN_CONTENT_FRAMES ==> r < tarLen)
  {
    if tarLen == 0 then target
    else
      var maxPer := if tarLen / MIN_CONTENT_FRAMES < 1 then 1 else tarLen / MIN_CONTENT_FRAMES;
      var capped := if target > maxPer then maxPer else target;
      if (tarLen + capped - 1) / capped < MIN_CONTENT_FRAMES then
        if tarLen / MIN_CONTENT_FRAMES >= 1 then tarLen / MIN_CONTENT_FRAMES else 1
      else capped
  }

  function ChunkParts(t: Tools, raw: seq<byte>, off: nat, target: nat): seq<Part>
    requires target > 0
    decreases |raw| - off
  {
    if off >= |raw| then []
    else
      var end := Min(off + target, |raw|);
      [Part(KIND_CONTENT, raw[off..end], t.enc(raw[off..end]))] + ChunkParts(t, raw, end, target)
  }

  lemma {:induction false} ChunksAreTheStream(t: Tools, raw: seq<byte>, off: nat, target: nat)
    requires t.Contract() && target > 0 && off <= |raw|
    ensures Raw(ChunkParts(t, raw, off, target)) == raw[off..]
    ensures forall i :: 0 <= i < |ChunkParts(t, raw, off, target)| ==> FromEncoder(t, ChunkParts(t, raw, off, target)[i])
    decreases |raw| - off
  {
    hide HeaderContract, t.HashContract, t.JsonContract, t.TarContract, ContentFrame;
    if off >= |raw| {
      assert Raws(ChunkParts(t, raw, off, target)) == [];
    } else {
      var end := Min(off + target, |raw|);
      var p := Part(KIND_CONTENT, raw[off..end], t.enc(raw[off..end]));
      ChunksAreTheStream(t, raw, end, target);
      hide t.CodecContract;
      PartsAppend([p], ChunkParts(t, raw, end, target));
      SinglePartRaw(p);
      assert raw[off..end] + raw[end..] == raw[off..];
    }
  }

  lemma {:induction false} SinglePartRaw(p: Part)
    ensures Raw([p]) == p.raw
  {
    assert Raws([p]) == [p.raw];
    assert Flatten([p.raw]) == p.raw + Flatten([]);
  }

  /** The part was compressed by the writer itself. */
  ghost predicate FromEncoder(t: Tools, p: Part) {
    ContentFrame(t.header, p.comp) && t.dec(p.comp) == Some(p.raw)
  }

  function WholeTar(t: Tools, ms: seq<Member>): seq<byte>
    requires AllTarAccept(t, ms)
  {
    TarStream(t, ms) + Zeros(TERMINATOR_BYTES)
  }

  /** The frame size the repacking writer settles on. */
  function TargetFor(tarLen: nat, requested: int): (r: nat)
    ensures r >= 1
  {
    EnsureMultiFrameTarget(tarLen, if requested <= 0 then DEFAULT_TARGET_FRAME_BYTES else requested)
  }

  function RepackParts(t: Tools, ms: seq<Member>, targetFrameBytes: int): seq<Part>
    requires AllTarAccept(t, ms)
  {
    ChunkParts(t, WholeTar(t, ms), 0, TargetFor(|WholeTar(t, ms)|, targetFrameBytes))
  }

  predicate Repackable(t: Tools, ms: seq<Member>, packID: string, targetFrameBytes: int) {
    && TrimSpace(packID) != [] && ms != [] && AllTarAccept(t, ms)
    && Publishable(t, RepackParts(t, ms, targetFrameBytes), RowsOf(t, ms), packID)
  }

  /** WritePack: encode the whole TAR stream in frames of about target bytes. */
  method WritePack(t: Tools, ms: seq<Member>, packID: string, targetFrameBytes: int)
    returns (r: Result<Packed, PackError>)
    requires t.Contract()
    ensures r.Ok? <==> Repackable(t, ms, packID, targetFrameBytes)
    ensures r.Ok? ==> r.value == Publish(t, RepackParts(t, ms, targetFrameBytes), RowsOf(t, ms), packID)
  {
    if TrimSpace(packID) == [] { return Err(PackIDRequired); }
    if |ms| == 0 { return Err(MembersRequired); }
    var tar := BuildTar(t, ms);
    if tar.None? { return Err(TarFailed); }
    var raw := tar.value.0;
    assert AllTarAccept(t, ms) && raw == WholeTar(t, ms);
    hide TarAccepts, TarStream, RowsOf, Publishable, Publish, ChunkParts, TrimSpace, t.Contract, Zeros;
    var target := TargetFor(|raw|, targetFrameBytes);
    var b := EncodeChunks(t, raw, target);
    b.SetRows(tar.value.1);
    r := b.Finish(packID);
  }

  method EncodeChunks(t: Tools, raw: seq<byte>, target: nat) returns (b: PackBuilder)
    requires target > 0
    ensures fresh(b) && b.Valid() && b.t == t && b.parts == ChunkParts(t, raw, 0, target)
  {
    b := new PackBuilder(t);
    ghost var all := ChunkParts(t, raw, 0, target);
    assert b.parts + all == all;
    var rawOff := 0;
    while rawOff < |raw|
      invariant rawOff <= |raw| && b.Valid() && b.t == t && fresh(b)
      invariant b.parts + ChunkParts(t, raw, rawOff, target) == all
    {
      hide *;
      var end := rawOff + target;
      if end > |raw| { end := |raw|; }
      var chunk := raw[rawOff..end];
      ChunkStep(t, b.parts, raw, rawOff, end, target);
      b.AppendFrame(KIND_CONTENT, chunk, t.enc(chunk));
      rawOff := end;
    }
    assert b.parts + [] == b.parts;
  }

  lemma {:induction false} ChunkStep(t: Tools, was: seq<Part>, raw: seq<byte>, off: nat, end: nat, target: nat)
    requires target > 0 && off < |raw| && end == if off + target > |raw| then |raw| else off + target
    ensures was + ChunkParts(t, raw, off, target)
         == was + [Part(KIND_CONTENT, raw[off..end], t.enc(raw[off..end]))] + ChunkParts(t, raw, end, target)
  {
    var p, rest := Part(KIND_CONTENT, raw[off..end], t.enc(raw[off..end])), ChunkParts(t, raw, end, target);
    assert ChunkParts(t, raw, off, target) == [p] + rest;
    hide *;
    assert was + ([p] + rest) == was + [p] + rest;
  }

  // ---- Choosing a writer ----------------------------------------------------------------------------------

  function PayloadMatchesBody(t: Tools, frame: seq<byte>, body: seq<byte>): bool {
    if |frame| == 0 then |body| == 0 else t.dec(frame) == Some(body)
  }

  predicate AllMembersHavePayloads(ms: seq<Member>) {
    forall i :: 0 <= i < |ms| ==> ms[i].payloadFrames != []
  }

  predicate SinglePayload(t: Tools, m: Member) {
    TrimSpace(m.name) != [] && |m.payloadFrames| == 1 && PayloadMatchesBody(t, m.payloadFrames[0], m.body)
  }

  /** A single payload is one frame that decodes to the body; an empty one stands for an empty body, and cannot be copied. */
  lemma {:induction false} SinglePayloadIff(t: Tools, m: Member)
    requires |m.payloadFrames| == 1
    ensures var f := m.payloadFrames[0];
            && (f == [] ==> (SinglePayload(t, m) <==> TrimSpace(m.name) != "" && m.body == []) && !PayloadOk(t, m))
            && (f != [] ==> (SinglePayload(t, m) <==> TrimSpace(m.name) != "" && PayloadOk(t, m)))
  {
    hide TrimSpace, PayloadOk;
    PayloadOkIff(t, m);
    var f := m.payloadFrames[0];
    if f != [] && t.dec(f) == Some(m.body) {
      OnePiece(m.body);
      assert DecodeTo(t, m.payloadFrames, [m.body]);
    }
    if pieces :| DecodeTo(t, m.payloadFrames, pieces) && Flatten(pieces) == m.body {
      assert pieces == [pieces[0]];
      OnePiece(pieces[0]);
    }
  }

  lemma {:induction false} OnePiece<T>(x: seq<T>)
    ensures Flatten([x]) == x
  {
    assert Flatten([x]) == x + Flatten([]);
  }

  /** prepareSinglePayloadCopy: every member has exactly one frame and it decompresses to the body. */
  method PrepareSinglePayloadCopy(t: Tools, ms: seq<Member>) returns (r: Option<(seq<Member>, seq<seq<byte>>)>)
    ensures r.Some? <==> forall i :: 0 <= i < |ms| ==> SinglePayload(t, ms[i])
    ensures r.Some? ==> |r.value.0| == |r.value.1| == |ms| && WithFrames(r.value.0, r.value.1) == Named(ms)
  {
    hide NamedInput, TrimSpace, PayloadMatchesBody;
    var inputs, frames := [], [];
    for i := 0 to |ms|
      invariant |inputs| == |frames| == i
      invariant forall k :: 0 <= k < i ==> Prepared(t, ms[k], inputs[k], frames[k])
    {
      var m := ms[i];
      if TrimSpace(m.name) == [] || |m.payloadFrames| != 1 { return None; }
      if !PayloadMatchesBody(t, m.payloadFrames[0], m.body) { return None; }
      assert Prepared(t, m, NamedInput(m), m.payloadFrames[0]);
      hide Prepared;
      inputs := inputs + [NamedInput(m)];
      frames := frames + [m.payloadFrames[0]];
    }
    ZipIsNamed(t, ms, inputs, frames);
    return Some((inputs, frames));
  }

  ghost predicate Prepared(t: Tools, m: Member, input: Member, frame: seq<byte>) {
    SinglePayload(t, m) && input == NamedInput(m) && frame == m.payloadFrames[0]
  }

  lemma {:induction false} ZipIsNamed(t: Tools, ms: seq<Member>, inputs: seq<Member>, frames: seq<seq<byte>>)
    requires |inputs| == |frames| == |ms|
    requires forall k :: 0 <= k < |ms| ==> Prepared(t, ms[k], inputs[k], frames[k])
    ensures WithFrames(inputs, frames) == Named(ms)
  {
    hide TrimSpace, PayloadMatchesBody;
    var a, b := WithFrames(inputs, frames), Named(ms);
    assert |a| == |b|;
    forall k | 0 <= k < |ms| ensures a[k] == b[k] {
      assert Prepared(t, ms[k], inputs[k], frames[k]) && [frames[k]] == ms[k].payloadFrames;
      assert a[k] == inputs[k].(payloadFrames := [frames[k]]);
    }
  }

  /** The writer input made from a generation member: trimmed name, no payload. */
  function NamedInput(m: Member): Member {
    m.(name := TrimSpace(m.name), payloadFrames := [])
  }

  function NamedInputs(ms: seq<Member>): seq<Member> {
    seq(|ms|, i requires 0 <= i < |ms| => NamedInput(ms[i]))
  }

  function Named(ms: seq<Member>): seq<Member> {
    seq(|ms|, i requires 0 <= i < |ms| => ms[i].(name := TrimSpace(ms[i].name)))
  }

  /** All that the TAR stream and the catalog row take from a member. */
  predicate SameEntry(m: Member, m': Member) {
    TrimSpace(m.name) == TrimSpace(m'.name) && m.entryID == m'.entryID && m.mode == m'.mode && m.body == m'.body
  }

  lemma {:induction false} SameEntrySameBlock(t: Tools, m: Member, m': Member)
    requires SameEntry(m, m') && TarAccepts(t, m')
    ensures TarAccepts(t, m) && MemberBlock(t, m) == MemberBlock(t, m')
    ensures forall start: nat :: RowAt(t, start, m) == RowAt(t, start, m')
  {
    hide TrimSpace, Zeros, PadLen;
  }

  lemma {:induction false} SameEntriesSameTar(t: Tools, ms: seq<Member>, ms': seq<Member>)
    requires |ms'| == |ms| && AllTarAccept(t, ms') && forall i :: 0 <= i < |ms| ==> SameEntry(ms[i], ms'[i])
    ensures AllTarAccept(t, ms)
    ensures TarStream(t, ms) == TarStream(t, ms') && RowsOf(t, ms) == RowsOf(t, ms')
  {
    hide SameEntry, TarAccepts, MemberBlock, RowAt;
    forall i | 0 <= i < |ms| ensures TarAccepts(t, ms[i]) {
      SameEntrySameBlock(t, ms[i], ms'[i]);
    }
    if ms != [] {
      SameEntriesSameTar(t, ms[..|ms| - 1], ms'[..|ms| - 1]);
      SameEntrySameBlock(t, ms[|ms| - 1], ms'[|ms| - 1]);
    }
  }

  /** A pack that stands for these members: its frames decode to their TAR stream and its rows are theirs. */
  ghost predicate Holds(t: Tools, p: Packed, parts: seq<Part>, ms: seq<Member>) {
    && WellBuilt(t, p, parts) && AllTarAccept(t, ms)
    && Raw(parts) == WholeTar(t, ms) && p.table.members == RowsOf(t, ms)
  }

  /** A part either was compressed here or is a payload frame of some member, copied unchanged. */
  ghost predicate Sourced(t: Tools, ms: seq<Member>, p: Part) {
    || FromEncoder(t, p)
    || (t.dec(p.comp) == Some(p.raw) && exists i :: 0 <= i < |ms| && p.comp in ms[i].payloadFrames)
  }

  ghost predicate AllSourced(t: Tools, ms: seq<Member>, parts: seq<Part>) {
    forall i :: 0 <= i < |parts| ==> Sourced(t, ms, parts[i])
  }

  lemma {:induction false} GenPartSourced(t: Tools, ms: seq<Member>, kind: string, raw: seq<byte>)
    requires t.Contract()
    ensures AllSourced(t, ms, GenPart(t, kind, raw))
  {
    hide HeaderContract, t.TarContract, t.HashContract, t.JsonContract, ContentFrame;
  }

  lemma {:induction false} AllSourcedAppend(t: Tools, ms: seq<Member>, a: seq<Part>, b: seq<Part>)
    requires AllSourced(t, ms, a) && AllSourced(t, ms, b)
    ensures AllSourced(t, ms, a + b)
  {
    hide Sourced;
  }

  lemma {:induction false} MemberPartsSourced(t: Tools, ms: seq<Member>, k: nat)
    requires t.Contract() && k < |ms| && CopyOk(t, ms[k])
    ensures AllSourced(t, ms, MemberParts(t, ms[k]))
  {
    var m := ms[k];
    var h, z := HeaderOf(t, m), Zeros(PadLen(|m.body|));
    var payload := PayloadParts(t, m.payloadFrames);
    forall i | 0 <= i < |payload| ensures Sourced(t, ms, payload[i]) {
      assert payload[i].comp == m.payloadFrames[i] && payload[i].comp in ms[k].payloadFrames;
    }
    GenPartSourced(t, ms, KIND_HEADER, h);
    GenPartSourced(t, ms, KIND_PADDING, z);
    hide AllSourced, GenPart, PayloadParts, HeaderOf, Zeros, t.Contract, PadLen;
    AllSourcedAppend(t, ms, GenPart(t, KIND_HEADER, h), payload);
    AllSourcedAppend(t, ms, GenPart(t, KIND_HEADER, h) + payload, GenPart(t, KIND_PADDING, z));
  }

  lemma {:induction false} CopyPartsSourced(t: Tools, ms: seq<Member>, n: nat)
    requires t.Contract() && n <= |ms| && AllCopyOk(t, ms)
    ensures AllCopyOk(t, ms[..n]) && AllSourced(t, ms, CopyParts(t, ms[..n]))
    decreases n
  {
    hide *;
    CopyOkTake(t, ms, n);
    if n == 0 {
      NoPartsSourced(t, ms, ms[..n]);
    } else {
      CopyPartsSourced(t, ms, n - 1);
      MemberPartsSourced(t, ms, n - 1);
      var taken := ms[..n];
      assert |taken| == n && taken[..n - 1] == ms[..n - 1] && taken[n - 1] == ms[n - 1];
      CopyPartsStep(t, taken);
      AllSourcedAppend(t, ms, CopyParts(t, ms[..n - 1]), MemberParts(t, ms[n - 1]));
    }
  }

  lemma {:induction false} CopyOkTake(t: Tools, ms: seq<Member>, n: nat)
    requires n <= |ms| && AllCopyOk(t, ms)
    ensures AllCopyOk(t, ms[..n]) && (n > 0 ==> CopyOk(t, ms[n - 1]))
  {
    hide CopyOk;
  }

  lemma {:induction false} NoPartsSourced(t: Tools, ms: seq<Member>, none: seq<Member>)
    requires none == []
    ensures AllCopyOk(t, none) && AllSourced(t, ms, CopyParts(t, none))
  {}

  /** The pack the copying writers publish holds its members. */
  lemma {:induction false} CopiedPackHolds(t: Tools, ms: seq<Member>, packID: string)
    requires t.Contract() && Copyable(t, ms, packID)
    ensures var parts := Terminated(t, CopyParts(t, ms));
            && Publishable(t, parts, RowsOf(t, ms), packID)
            && Holds(t, Publish(t, parts, RowsOf(t, ms), packID), parts, ms) && AllSourced(t, ms, parts)
  {
    hide t.Contract, TrimSpace, Sourced, ValidTable, TarAccepts, PayloadOk, Zeros, GenPart, Raw;
    var parts, term := CopyParts(t, ms), GenPart(t, KIND_TERMINATOR, Zeros(TERMINATOR_BYTES));
    assert ms[..|ms|] == ms;
    CopyPartsSourced(t, ms, |ms|);
    GenPartSourced(t, ms, KIND_TERMINATOR, Zeros(TERMINATOR_BYTES));
    AllSourcedAppend(t, ms, parts, term);
    CopyPartsAreTheTarStream(t, ms);
    PartsAppend(parts, term);
    GenPartRaw(t, KIND_TERMINATOR, Zeros(TERMINATOR_BYTES));
    SourcedDecodes(t, ms, parts + term);
    PublishedIsWellBuilt(t, parts + term, RowsOf(t, ms), packID);
  }

  lemma {:induction false} SourcedDecodes(t: Tools, ms: seq<Member>, parts: seq<Part>)
    requires AllSourced(t, ms, parts)
    ensures forall i :: 0 <= i < |parts| ==> t.dec(parts[i].comp) == Some(parts[i].raw)
  {
    forall i | 0 <= i < |parts| ensures t.dec(parts[i].comp) == Some(parts[i].raw) {
      assert Sourced(t, ms, parts[i]);
    }
  }

  /** The pack the repacking writer publishes holds its members. */
  lemma {:induction false} RepackedPackHolds(t: Tools, ms: seq<Member>, packID: string, target: int)
    requires t.Contract() && Repackable(t, ms, packID, target)
    ensures var parts := RepackParts(t, ms, target);
            && Publishable(t, parts, RowsOf(t, ms), packID)
            && Holds(t, Publish(t, parts, RowsOf(t, ms), packID), parts, ms) && AllSourced(t, [], parts)
  {
    hide t.Contract, TrimSpace, ValidTable, TarAccepts, Raw, WholeTar, ChunkParts;
    var raw, parts := WholeTar(t, ms), RepackParts(t, ms, target);
    ChunksAreTheStream(t, raw, 0, TargetFor(|raw|, target));
    assert raw[0..] == raw;
    assert AllSourced(t, [], parts);
    hide AllSourced, FromEncoder, Publishable;
    SourcedDecodes(t, [], parts);
    PublishedIsWellBuilt(t, parts, RowsOf(t, ms), packID);
  }

  datatype Route = CopySingle | CopyMulti | Repack

  /** Which writer ends up producing the pack. */
  function RouteOf(t: Tools, ms: seq<Member>, packID: string, preferCopy: Option<bool>): Route {
    if preferCopy == Some(false) || !AllMembersHavePayloads(ms) then Repack
    else if forall i :: 0 <= i < |ms| ==> SinglePayload(t, ms[i]) then CopySingle
    else if Copyable(t, ms, packID) then CopyMulti
    else Repack
  }

  /**
   * PackFromGenerations. A successful pack holds every member, and each of its frames was compressed
   * here or copied from a payload. The single-frame route has no fallback: if it cannot publish, the
   * call fails even where repacking would not.
   */
  method PackFromGenerations(t: Tools, ms: seq<Member>, packID: string, preferCopy: Option<bool>, target: int)
    returns (r: Result<Packed, PackError>, ghost parts: seq<Part>)
    requires t.Contract()
    ensures r.Ok? <==> && TrimSpace(packID) != [] && ms != []
                       && match RouteOf(t, ms, packID, preferCopy)
                          case CopySingle => Copyable(t, Named(ms), packID)
                          case CopyMulti => true
                          case Repack => Repackable(t, NamedInputs(ms), packID, target)
    ensures r.Ok? ==> Holds(t, r.value, parts, ms) && AllSourced(t, ms, parts) && r.value.table.packID == packID
    ensures r.Ok? && RouteOf(t, ms, packID, preferCopy) == Repack ==> AllSourced(t, [], parts)
  {
    RouteMeaning(t, ms, packID, preferCopy);
    hide *;
    parts := [];
    if TrimSpace(packID) == [] { return Err(PackIDRequired), []; }
    if |ms| == 0 { return Err(MembersRequired), []; }
    var prefer := true;
    if preferCopy.Some? { prefer := preferCopy.value; }
    if prefer && AllMembersHavePayloads(ms) {
      var single := PrepareSinglePayloadCopy(t, ms);
      if single.Some? {
        r := WritePackWithPayloadFrames(t, single.value.0, single.value.1, packID);
        if r.Ok? { parts := PublishedSingle(t, ms, packID); }
        return;
      }
      r := WritePackMultiPayload(t, ms, packID);
      if r.Ok? {
        parts := PublishedMulti(t, ms, packID);
        return;
      }
    }
    r := WritePack(t, NamedInputs(ms), packID, target);
    if r.Ok? { parts := PublishedRepack(t, ms, packID, target); }
  }

  lemma {:induction false} RouteMeaning(t: Tools, ms: seq<Member>, packID: string, preferCopy: Option<bool>)
    ensures var copying := preferCopy != Some(false) && AllMembersHavePayloads(ms);
            var single := forall i :: 0 <= i < |ms| ==> SinglePayload(t, ms[i]);
            && (!copying ==> RouteOf(t, ms, packID, preferCopy) == Repack)
            && (copying && single ==> RouteOf(t, ms, packID, preferCopy) == CopySingle)
            && (copying && !single && Copyable(t, ms, packID) ==> RouteOf(t, ms, packID, preferCopy) == CopyMulti)
            && (copying && !single && !Copyable(t, ms, packID) ==> RouteOf(t, ms, packID, preferCopy) == Repack)
  {
    hide SinglePayload, Copyable, AllMembersHavePayloads;
  }

  lemma {:induction false} PublishedMulti(t: Tools, ms: seq<Member>, packID: string) returns (parts: seq<Part>)
    requires t.Contract() && Copyable(t, ms, packID)
    ensures parts == Terminated(t, CopyParts(t, ms)) && Publishable(t, parts, RowsOf(t, ms), packID)
    ensures Holds(t, Publish(t, parts, RowsOf(t, ms), packID), parts, ms) && AllSourced(t, ms, parts)
    ensures Publish(t, parts, RowsOf(t, ms), packID).table.packID == packID
  {
    hide t.Contract, CopyOk, AllSourced, TarAccepts, Holds, Publishable, TrimSpace;
    CopiedPackHolds(t, ms, packID);
    parts := Terminated(t, CopyParts(t, ms));
  }

  lemma {:induction false} PublishedSingle(t: Tools, ms: seq<Member>, packID: string) returns (parts: seq<Part>)
    requires t.Contract() && Copyable(t, Named(ms), packID)
    ensures var ms' := Named(ms);
            && parts == Terminated(t, CopyParts(t, ms')) && Publishable(t, parts, RowsOf(t, ms'), packID)
            && Holds(t, Publish(t, parts, RowsOf(t, ms'), packID), parts, ms)
            && AllSourced(t, ms, parts)
            && Publish(t, parts, RowsOf(t, ms'), packID).table.packID == packID
  {
    var ms' := Named(ms);
    hide t.Contract, CopyOk, Sourced, ValidTable, TarAccepts, WellBuilt, TrimSpace;
    CopiedPackHolds(t, ms', packID);
    parts := Terminated(t, CopyParts(t, ms'));
    forall i | 0 <= i < |ms| ensures SameEntry(ms[i], ms'[i]) { assert ms'[i].name == TrimSpace(ms[i].name); }
    hide SameEntry;
    SameEntriesSameTar(t, ms, ms');
    forall i | 0 <= i < |parts| ensures Sourced(t, ms, parts[i]) {
      SourcedRenamed(t, ms, parts[i]);
    }
  }

  lemma {:induction false} SourcedRenamed(t: Tools, ms: seq<Member>, p: Part)
    requires Sourced(t, Named(ms), p)
    ensures Sourced(t, ms, p)
  {
    hide TrimSpace;
    if i :| 0 <= i < |Named(ms)| && p.comp in Named(ms)[i].payloadFrames {
      assert p.comp in ms[i].payloadFrames;
    }
  }

  lemma {:induction false} PublishedRepack(t: Tools, ms: seq<Member>, packID: string, target: int)
    returns (parts: seq<Part>)
    requires t.Contract() && Repackable(t, NamedInputs(ms), packID, target)
    ensures var ms' := NamedInputs(ms);
            && parts == RepackParts(t, ms', target) && Publishable(t, parts, RowsOf(t, ms'), packID)
            && Holds(t, Publish(t, parts, RowsOf(t, ms'), packID), parts, ms)
            && AllSourced(t, ms, parts) && AllSourced(t, [], parts)
            && Publish(t, parts, RowsOf(t, ms'), packID).table.packID == packID
  {
    var ms' := NamedInputs(ms);
    hide t.Contract, ValidTable, TarAccepts, WellBuilt, TrimSpace, FromEncoder, Publishable, RepackParts;
    RepackedPackHolds(t, ms', packID, target);
    parts := RepackParts(t, ms', target);
    forall i | 0 <= i < |ms| ensures SameEntry(ms[i], ms'[i]) { assert ms'[i] == NamedInput(ms[i]); }
    hide SameEntry;
    SameEntriesSameTar(t, ms, ms');
    assert AllSourced(t, ms, parts) by {
      forall i | 0 <= i < |parts| ensures Sourced(t, ms, parts[i]) { assert Sourced(t, [], parts[i]); }
    }
  }

  // ---- Blocks, payloads and chunks spelled out --------------------------------------------------------------------

  /** Padding is the least that fills the block. */
  lemma {:induction false} PadsToBlock(size: nat)
    ensures PadLen(size) < 512 && exists blocks: nat :: size + PadLen(size) == 512 * blocks
  {
    PadCompletesBlock(size);
    assert size + PadLen(size) == 512 * ((size + PadLen(size)) / 512);
  }

  /** The TAR stream ends in two blocks of zero bytes. */
  lemma {:induction false} TarEndsInZeros(t: Tools, ms: seq<Member>)
    requires AllTarAccept(t, ms)
    ensures var tar := WholeTar(t, ms); |tar| >= 1024 && forall i :: |tar| - 1024 <= i < |tar| ==> tar[i] == 0
  {
    hide TarStream;
  }

  /** The frames, none of them empty, decode to these pieces. */
  ghost predicate DecodeTo(t: Tools, frames: seq<seq<byte>>, pieces: seq<seq<byte>>) {
    |pieces| == |frames| && forall i :: 0 <= i < |pieces| ==> |frames[i]| > 0 && t.dec(frames[i]) == Some(pieces[i])
  }

  /** Which payload can be copied: one or more frames that decode to pieces which together are the body. */
  lemma {:induction false} PayloadOkIff(t: Tools, m: Member)
    ensures PayloadOk(t, m) <==>
            |m.payloadFrames| > 0 && exists pieces :: DecodeTo(t, m.payloadFrames, pieces) && Flatten(pieces) == m.body
  {
    if PayloadOk(t, m) {
      assert DecodeTo(t, m.payloadFrames, Raws(PayloadParts(t, m.payloadFrames)));
    }
    if pieces :| DecodeTo(t, m.payloadFrames, pieces) && Flatten(pieces) == m.body {
      assert Raws(PayloadParts(t, m.payloadFrames)) == pieces;
    }
  }

  /** The frame size of a repacked pack: what was asked for, by default 8 MiB, but no more than half of the stream. */
  lemma {:induction false} TargetIs(tarLen: nat, requested: int)
    requires tarLen >= 2
    ensures TargetFor(tarLen, requested) == Min(if requested > 0 then requested else 8388608, tarLen / 2)
  {
    var capped := Min(if requested > 0 then requested else 8388608, tarLen / 2);
    assert 2 * capped <= tarLen;
    TwoFit(tarLen, capped);
  }

  lemma {:induction false} TwoFit(n: nat, d: nat)
    requires 0 < d && 2 * d <= n
    ensures (n + d - 1) / d >= 2
  {
    var q := (n + d - 1) / d;
    assert n + d - 1 == d * q + (n + d - 1) % d;
    assert q <= 1 ==> d * q <= d;
  }

  /** A repacked pack has two frames or more; each but the last stands for exactly the target, one after the other. */
  lemma {:induction false} RepackedChunks(t: Tools, ms: seq<Member>, requested: int, i: nat)
    requires AllTarAccept(t, ms)
    ensures |RepackParts(t, ms, requested)| >= 2
    ensures var parts, raw := RepackParts(t, ms, requested), WholeTar(t, ms);
            var target := TargetFor(|raw|, requested);
            i < |parts| ==> 0 <= i * target < |raw| && parts[i].raw == raw[i * target..Min(i * target + target, |raw|)]
  {
    TarEndsInZeros(t, ms);
    var raw := WholeTar(t, ms);
    var target := TargetFor(|raw|, requested);
    TargetIs(|raw|, requested);
    TwoChunks(t, raw, target);
    hide WholeTar, TargetFor, ChunkParts;
    if i < |ChunkParts(t, raw, 0, target)| { ChunkAt(t, raw, 0, target, i); }
  }

  lemma {:induction false} TwoChunks(t: Tools, raw: seq<byte>, target: nat)
    requires 0 < target < |raw|
    ensures |ChunkParts(t, raw, 0, target)| >= 2
  {
    assert |ChunkParts(t, raw, target, target)| >= 1;
    assert |ChunkParts(t, raw, 0, target)| == 1 + |ChunkParts(t, raw, target, target)|;
  }

  lemma {:induction false} ChunkAt(t: Tools, raw: seq<byte>, off: nat, target: nat, i: nat)
    requires target > 0 && i < |ChunkParts(t, raw, off, target)|
    ensures off + i * target < |raw|
    ensures ChunkParts(t, raw, off, target)[i].raw == raw[off + i * target..Min(off + i * target + target, |raw|)]
    decreases i
  {
    if i > 0 {
      var end := Min(off + target, |raw|);
      ChunkAt(t, raw, end, target, i - 1);
      OneTargetMore(i, target);
    }
  }

  lemma {:induction false} OneTargetMore(i: nat, target: nat)
    requires i > 0
    ensures target + (i - 1) * target == i * target && i * target >= 0
  {}
}
