/** Seek tables, TAR members and the parts a pack file is made of (internal/archive/seektable.go, types.go). */
module PackModel {
  import opened Prelude
  import opened Frames
  import opened Text

  const SEEK_MAGIC := "JMCP-SEEK-V1"
  const FORMAT_VERSION := 1
  const MIN_CONTENT_FRAMES := 2
  const MAX_FRAME_UNCOMPRESSED := 32 * 1024 * 1024

  datatype SeekFrame = SeekFrame(index: int, kind: string, compressedOffset: int, compressedSize: int, rawOffset: int,
                                 rawSize: int, contentSHA: string, frameSHA: string, dictID: string)

  datatype SeekMember = SeekMember(name: string, entryID: string, rawOffset: int, size: int, mode: int,
                                   contentSHA: string)

  datatype SeekTable = SeekTable(magic: string, formatVersion: int, packID: string, tarSize: int,
                                 frames: seq<SeekFrame>, members: seq<SeekMember>, packSHA: string,
                                 minContentFrames: int)

  /** A sealed log to promote; an absent body is an empty one. */
  datatype Member = Member(name: string, entryID: string, mode: int, body: seq<byte>, payloadFrames: seq<seq<byte>>)

  /** A finished pack: its bytes and its seek table. */
  datatype Packed = Packed(data: seq<byte>, table: SeekTable)

  /**
   * The libraries a pack passes through: the header decoder, EncodeAll and DecodeAll of the codec, the
   * header block written by archive/tar, SHA-256 in hex and raw, and the JSON form of a seek table.
   */
  datatype Tools = Tools(header: HeaderDecoder,
                         enc: seq<byte> -> seq<byte>,
                         dec: seq<byte> -> Option<seq<byte>>,
                         tarHeader: (string, nat, int) -> Option<seq<byte>>,
                         shaHex: seq<byte> -> string,
                         shaSum: seq<byte> -> seq<byte>,
                         marshal: SeekTable -> seq<byte>,
                         parse: seq<byte> -> Option<SeekTable>)
  {
    /** What is asked of them: inverse pairs, one content frame per encoded input, whole TAR blocks. */
    ghost predicate Contract() {
      HeaderContract(header) && CodecContract() && TarContract() && HashContract() && JsonContract()
    }

    ghost predicate CodecContract() {
      forall x :: x != [] ==> ContentFrame(header, enc(x)) && dec(enc(x)) == Some(x)
    }

    ghost predicate TarContract() {
      forall n, s, m :: tarHeader(n, s, m).Some? ==>
        |tarHeader(n, s, m).value| > 0 && |tarHeader(n, s, m).value| % 512 == 0
    }

    ghost predicate HashContract() {
      forall x :: shaHex(x) != []
    }

    ghost predicate JsonContract() {
      forall st :: marshal(st) != [] && parse(marshal(st)) == Some(st)
    }
  }

  // ---- Seek-table validity ---------------------------------------------------------------------------

  /** Compressed (raw) bytes covered by the first n frames. */
  function CompressedEnd(frames: seq<SeekFrame>, n: nat): int
    requires n <= |frames|
  {
    if n == 0 then 0 else CompressedEnd(frames, n - 1) + frames[n - 1].compressedSize
  }

  function RawEnd(frames: seq<SeekFrame>, n: nat): int
    requires n <= |frames|
  {
    if n == 0 then 0 else RawEnd(frames, n - 1) + frames[n - 1].rawSize
  }

  predicate FrameFits(frames: seq<SeekFrame>, i: nat)
    requires i < |frames|
  {
    var f := frames[i];
    && (f.index == 0 || f.index == i)
    && f.compressedOffset == CompressedEnd(frames, i) && f.compressedSize > 0
    && f.rawOffset == RawEnd(frames, i) && 0 <= f.rawSize <= MAX_FRAME_UNCOMPRESSED
    && f.dictID == []
  }

  function EntryKey(m: SeekMember): string {
    if m.entryID == [] then m.name else m.entryID
  }

  predicate MemberFits(m: SeekMember, tarSize: int) {
    && EntryKey(m) != []
    && m.size >= 0 && m.rawOffset >= 0 && m.rawOffset + m.size <= tarSize
  }

  /** Frames tile both streams without a gap; members have distinct keys and lie inside the raw stream. */
  predicate ValidTable(st: SeekTable) {
    && st.magic == SEEK_MAGIC && st.formatVersion == FORMAT_VERSION && TrimSpace(st.packID) != []
    && |st.frames| >= (if st.minContentFrames <= 0 then MIN_CONTENT_FRAMES else st.minContentFrames)
    && (forall i :: 0 <= i < |st.frames| ==> FrameFits(st.frames, i))
    && st.tarSize == RawEnd(st.frames, |st.frames|)
    && (forall i :: 0 <= i < |st.members| ==> MemberFits(st.members[i], st.tarSize))
    && (forall i, j :: 0 <= i < j < |st.members| ==> EntryKey(st.members[i]) != EntryKey(st.members[j]))
  }

  method ValidateFrames(frames: seq<SeekFrame>) returns (rawEnd: Option<int>)
    ensures rawEnd.Some? <==> forall i :: 0 <= i < |frames| ==> FrameFits(frames, i)
    ensures rawEnd.Some? ==> rawEnd.value == RawEnd(frames, |frames|)
  {
    var raw, comp := 0, 0;
    for i := 0 to |frames|
      invariant raw == RawEnd(frames, i) && comp == CompressedEnd(frames, i)
      invariant forall k :: 0 <= k < i ==> FrameFits(frames, k)
    {
      var f := frames[i];
      ghost var fits := FrameFits(frames, i);
      if f.index != 0 && f.index != i { return None; }
      if f.compressedOffset != comp { return None; }
      if f.compressedSize <= 0 { return None; }
      if f.rawOffset != raw { return None; }
      if f.rawSize < 0 { return None; }
      if f.rawSize > MAX_FRAME_UNCOMPRESSED { return None; }
      if f.dictID != [] { return None; }
      comp, raw := comp + f.compressedSize, raw + f.rawSize;
    }
    return Some(raw);
  }

  /** SeekTable.Validate. */
  method Validate(st: SeekTable) returns (ok: bool)
    ensures ok <==> ValidTable(st)
  {
    hide FrameFits, MemberFits, TrimSpace, RawEnd, EntryKey;
    if st.magic != SEEK_MAGIC || st.formatVersion != FORMAT_VERSION || TrimSpace(st.packID) == [] {
      return false;
    }
    var minFrames := st.minContentFrames;
    if minFrames <= 0 {
      minFrames := MIN_CONTENT_FRAMES;
    }
    if |st.frames| < minFrames {
      return false;
    }
    var rawEnd := ValidateFrames(st.frames);
    if rawEnd.None? || st.tarSize != rawEnd.value {
      return false;
    }
    ok := ValidateMembers(st.members, st.tarSize);
  }

  method ValidateMembers(members: seq<SeekMember>, tarSize: int) returns (ok: bool)
    ensures ok <==> && (forall i :: 0 <= i < |members| ==> MemberFits(members[i], tarSize))
                    && (forall i, j :: 0 <= i < j < |members| ==> EntryKey(members[i]) != EntryKey(members[j]))
  {
    var seen: set<string> := {};
    for i := 0 to |members|
      invariant forall k :: 0 <= k < i ==> MemberFits(members[k], tarSize)
      invariant forall k, l :: 0 <= k < l < i ==> EntryKey(members[k]) != EntryKey(members[l])
      invariant forall id :: id in seen <==> exists k :: 0 <= k < i && EntryKey(members[k]) == id
    {
      var m := members[i];
      if m.name == [] && m.entryID == [] { return false; }
      var id := EntryKey(m);
      if id in seen { return false; }
      seen := seen + {id};
      if m.size < 0 || m.rawOffset < 0 { return false; }
      if m.rawOffset + m.size > tarSize { return false; }
    }
    return true;
  }

  /** Each frame starts where the one before it ends, in both streams, from the start to the end of the raw one. */
  predicate Tiles(frames: seq<SeekFrame>, tarSize: int) {
    && (if frames == [] then tarSize == 0
        else var first, last := frames[0], frames[|frames| - 1];
             first.compressedOffset == 0 && first.rawOffset == 0 && last.rawOffset + last.rawSize == tarSize)
    && forall i :: 0 < i < |frames| ==>
         && frames[i].compressedOffset - frames[i - 1].compressedOffset == frames[i - 1].compressedSize
         && frames[i].rawOffset - frames[i - 1].rawOffset == frames[i - 1].rawSize
  }

  /** A frame that holds something, expands to at most 32 MiB, needs no dictionary, and has no index or its own. */
  predicate SoundFrame(f: SeekFrame, i: nat) {
    f.index in {0, i} && f.compressedSize >= 1 && 0 <= f.rawSize < 33554433 && f.dictID == ""
  }

  /** A member is known by its entry id, or by its name where it has none. */
  predicate KnownBy(m: SeekMember, id: string) { m.entryID == id || (m.entryID == "" && m.name == id) }

  /** Which seek tables are valid, without the running offsets of the check. */
  lemma {:induction false} ValidIff(st: SeekTable)
    ensures ValidTable(st) <==> (
      && st.magic == "JMCP-SEEK-V1" && st.formatVersion == 1 && TrimSpace(st.packID) != ""
      && |st.frames| >= (if st.minContentFrames >= 1 then st.minContentFrames else 2)
      && Tiles(st.frames, st.tarSize) && (forall i :: 0 <= i < |st.frames| ==> SoundFrame(st.frames[i], i))
      && (forall m :: m in st.members ==>
            m.entryID + m.name != "" && m.size > -1 && m.rawOffset > -1 && st.tarSize >= m.rawOffset + m.size)
      && (forall i, j, id :: 0 <= i < j < |st.members| && id != "" && KnownBy(st.members[i], id) ==> !KnownBy(st.members[j], id)))
  {
    hide TrimSpace, Tiles, RawEnd, CompressedEnd, FrameFits;
    TilesIff(st.frames, st.tarSize);
    MembersIff(st.members, st.tarSize);
    hide MemberFits, KnownBy;
  }

  predicate StartsAtEnd(frames: seq<SeekFrame>, i: nat)
    requires i < |frames|
  {
    frames[i].compressedOffset == CompressedEnd(frames, i) && frames[i].rawOffset == RawEnd(frames, i)
  }

  lemma {:induction false} TilesIff(frames: seq<SeekFrame>, tarSize: int)
    ensures (forall i :: 0 <= i < |frames| ==> FrameFits(frames, i)) && tarSize == RawEnd(frames, |frames|)
            <==> Tiles(frames, tarSize) && forall i :: 0 <= i < |frames| ==> SoundFrame(frames[i], i)
  {
    StartsIff(frames, tarSize);
    hide Tiles, SoundFrame, FrameFits, StartsAtEnd;
    forall i | 0 <= i < |frames| ensures FrameFits(frames, i) <==> SoundFrame(frames[i], i) && StartsAtEnd(frames, i) {
      FitsParts(frames, i);
    }
  }

  lemma {:induction false} FitsParts(frames: seq<SeekFrame>, i: nat)
    requires i < |frames|
    ensures FrameFits(frames, i) <==> SoundFrame(frames[i], i) && StartsAtEnd(frames, i)
  {}

  lemma {:induction false} StartsIff(frames: seq<SeekFrame>, tarSize: int)
    ensures (forall i :: 0 <= i < |frames| ==> StartsAtEnd(frames, i)) && tarSize == RawEnd(frames, |frames|)
            <==> Tiles(frames, tarSize)
  {
    if Tiles(frames, tarSize) {
      forall i | 0 <= i < |frames| ensures StartsAtEnd(frames, i) { TileAt(frames, tarSize, i); }
    }
    if forall i :: 0 <= i < |frames| ==> StartsAtEnd(frames, i) {
      forall i | 0 < i < |frames|
        ensures frames[i].compressedOffset - frames[i - 1].compressedOffset == frames[i - 1].compressedSize
        ensures frames[i].rawOffset - frames[i - 1].rawOffset == frames[i - 1].rawSize
      {
        assert StartsAtEnd(frames, i - 1) && StartsAtEnd(frames, i);
      }
      if frames != [] { assert StartsAtEnd(frames, 0) && StartsAtEnd(frames, |frames| - 1); }
    }
  }

  lemma {:induction false} TileAt(frames: seq<SeekFrame>, tarSize: int, i: nat)
    requires Tiles(frames, tarSize) && i < |frames|
    ensures frames[i].compressedOffset == CompressedEnd(frames, i) && frames[i].rawOffset == RawEnd(frames, i)
  {
    if i > 0 { TileAt(frames, tarSize, i - 1); }
  }

  lemma {:induction false} MembersIff(members: seq<SeekMember>, tarSize: int)
    ensures (forall i :: 0 <= i < |members| ==> MemberFits(members[i], tarSize)) <==>
            forall m :: m in members ==> m.entryID + m.name != "" && m.size > -1 && m.rawOffset > -1 && tarSize >= m.rawOffset + m.size
    ensures (forall i :: 0 <= i < |members| ==> EntryKey(members[i]) != []) ==>
              ((forall i, j :: 0 <= i < j < |members| ==> EntryKey(members[i]) != EntryKey(members[j]))
               <==> forall i, j, id :: 0 <= i < j < |members| && id != "" && KnownBy(members[i], id) ==> !KnownBy(members[j], id))
  {
    assert forall m: SeekMember :: EntryKey(m) != [] <==> m.entryID + m.name != "";
    assert forall m: SeekMember, id :: id != "" ==> (KnownBy(m, id) <==> EntryKey(m) == id);
    if i, j :| 0 <= i < j < |members| && EntryKey(members[i]) == EntryKey(members[j]) != [] {
      assert KnownBy(members[i], EntryKey(members[i])) && KnownBy(members[j], EntryKey(members[i]));
    }
  }

  // ---- Parts ------------------------------------------------------------------------------------------

  /** One content frame of a pack: its label, the raw bytes it stands for and its compressed form. */
  datatype Part = Part(kind: string, raw: seq<byte>, comp: seq<byte>)

  function Comps(parts: seq<Part>): seq<seq<byte>> {
    seq(|parts|, i requires 0 <= i < |parts| => parts[i].comp)
  }

  function Raws(parts: seq<Part>): seq<seq<byte>> {
    seq(|parts|, i requires 0 <= i < |parts| => parts[i].raw)
  }

  function Compressed(parts: seq<Part>): seq<byte> { Flatten(Comps(parts)) }

  function Raw(parts: seq<Part>): seq<byte> { Flatten(Raws(parts)) }

  lemma {:induction false} PartsSnoc(parts: seq<Part>, p: Part)
    ensures Compressed(parts + [p]) == Compressed(parts) + p.comp
    ensures Raw(parts + [p]) == Raw(parts) + p.raw
  {
    assert Comps(parts + [p]) == Comps(parts) + [p.comp];
    assert Raws(parts + [p]) == Raws(parts) + [p.raw];
    FlattenSnoc(Comps(parts), p.comp);
    FlattenSnoc(Raws(parts), p.raw);
  }

  lemma {:induction false} PartsAppend(a: seq<Part>, b: seq<Part>)
    ensures Compressed(a + b) == Compressed(a) + Compressed(b)
    ensures Raw(a + b) == Raw(a) + Raw(b)
  {
    assert Comps(a + b) == Comps(a) + Comps(b);
    assert Raws(a + b) == Raws(a) + Raws(b);
    FlattenAppend(Comps(a), Comps(b));
    FlattenAppend(Raws(a), Raws(b));
  }

  /** The seek-table row of a part, given what precedes it. */
  function FrameAt(t: Tools, before: seq<Part>, p: Part): SeekFrame {
    SeekFrame(|before|, p.kind, |Compressed(before)|, |p.comp|, |Raw(before)|, |p.raw|, t.shaHex(p.raw), t.shaHex(p.comp), [])
  }

  function FramesOf(t: Tools, parts: seq<Part>): (frames: seq<SeekFrame>)
    ensures |frames| == |parts|
  {
    seq(|parts|, i requires 0 <= i < |parts| => FrameAt(t, parts[..i], parts[i]))
  }

  lemma {:induction false} FramesOfSnoc(t: Tools, parts: seq<Part>, p: Part)
    ensures FramesOf(t, parts + [p]) == FramesOf(t, parts) + [FrameAt(t, parts, p)]
  {
    hide FrameAt;
    forall i | 0 <= i <= |parts|
      ensures FramesOf(t, parts + [p])[i] == (FramesOf(t, parts) + [FrameAt(t, parts, p)])[i]
    {
      assert (parts + [p])[..i] == parts[..i];
      assert i == |parts| ==> parts[..i] == parts;
    }
  }

  /** The table's running offsets are the lengths of what precedes each part. */
  lemma {:induction false} EndsOfFrames(t: Tools, parts: seq<Part>, n: nat)
    requires n <= |parts|
    ensures CompressedEnd(FramesOf(t, parts), n) == |Compressed(parts[..n])|
    ensures RawEnd(FramesOf(t, parts), n) == |Raw(parts[..n])|
  {
    if n > 0 {
      EndsOfFrames(t, parts, n - 1);
      PartsSnoc(parts[..n - 1], parts[n - 1]);
      assert parts[..n] == parts[..n - 1] + [parts[n - 1]];
    }
  }

  /** data is what a writer makes of these parts: their compressed forms and then the seek table. */
  ghost predicate WellBuilt(t: Tools, p: Packed, parts: seq<Part>) {
    && |t.marshal(p.table)| <= MAX_SEEK_TABLE_BYTES
    && p.data == Compressed(parts) + SkipFrame(t.marshal(p.table))
    && p.table.frames == FramesOf(t, parts)
    && p.table.packSHA == t.shaHex(t.shaSum(Compressed(parts)))
    && p.table.minContentFrames == MIN_CONTENT_FRAMES
    && ValidTable(p.table)
    && forall i :: 0 <= i < |parts| ==> t.dec(parts[i].comp) == Some(parts[i].raw)
  }

  /** The raw stream carries body at the range recorded for m. */
  predicate Carries(raw: seq<byte>, m: SeekMember, body: seq<byte>) {
    && 0 <= m.rawOffset && m.size == |body| && m.rawOffset + m.size <= |raw|
    && raw[m.rawOffset..m.rawOffset + m.size] == body
  }
}
