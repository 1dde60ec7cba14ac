/** Opening, verifying and reading packs (internal/archive/reader.go), and the round trips with the writers. */
module PackReader {
  import opened Prelude
  import opened Frames
  import opened Text
  import opened PackModel
  import opened PackWriter

  const MAX_DECOMPRESS_PER_OP: nat := 64 * 1024 * 1024

  // ---- Opening --------------------------------------------------------------------------------------------

  function Contents(locs: seq<FrameLoc>): seq<FrameLoc> {
    if locs == [] then []
    else
      var last := locs[|locs| - 1];
      Contents(locs[..|locs| - 1]) + if last.skippable then [] else [last]
  }

  /** The scanned content frames lie exactly where the table says. */
  predicate Bound(contents: seq<FrameLoc>, frames: seq<SeekFrame>) {
    && |contents| == |frames|
    && forall i :: 0 <= i < |frames| ==>
         contents[i].offset == frames[i].compressedOffset && contents[i].size == frames[i].compressedSize
  }

  /** These frames form a pack with table st: content frames bound to st, and last a skippable frame holding st. */
  ghost predicate FramesCarry(t: Tools, fs: seq<seq<byte>>, st: SeekTable) {
    && |fs| >= 2 && SkippableFrame(fs[|fs| - 1])
    && fs[|fs| - 1][8..] != [] && t.parse(fs[|fs| - 1][8..]) == Some(st) && ValidTable(st)
    && |Contents(LocsOf(fs))| >= MIN_CONTENT_FRAMES && Bound(Contents(LocsOf(fs)), st.frames)
  }

  ghost predicate OpensAs(t: Tools, data: seq<byte>, st: SeekTable) {
    exists fs :: AllFrames(t.header, fs) && Flatten(fs) == data && FramesCarry(t, fs, st)
  }

  datatype OpenError =
    | EmptyData | ScanFailed | SingleFrame | NoSeekTable | TooFewContentFrames | SeekTableNotLast | BadSeekTable
    | FrameCountMismatch | FrameBindingMismatch

  method ContentLocs(locs: seq<FrameLoc>) returns (contents: seq<FrameLoc>)
    ensures contents == Contents(locs)
  {
    contents := [];
    for i := 0 to |locs|
      invariant contents == Contents(locs[..i])
    {
      assert locs[..i + 1][..i] == locs[..i];
      if !locs[i].skippable { contents := contents + [locs[i]]; }
    }
    assert locs[..|locs|] == locs;
  }

  /** The index of the last skippable location. */
  method LastSkippable(locs: seq<FrameLoc>) returns (r: Option<nat>)
    ensures r.None? ==> forall i :: 0 <= i < |locs| ==> !locs[i].skippable
    ensures r.Some? ==> r.value < |locs| && locs[r.value].skippable
                        && forall i :: r.value < i < |locs| ==> !locs[i].skippable
  {
    var i := |locs|;
    while i > 0
      invariant 0 <= i <= |locs| && forall k :: i <= k < |locs| ==> !locs[k].skippable
    {
      i := i - 1;
      if locs[i].skippable { return Some(i); }
    }
    return None;
  }

  method BindFrames(contents: seq<FrameLoc>, frames: seq<SeekFrame>) returns (ok: bool)
    requires |contents| == |frames|
    ensures ok <==> Bound(contents, frames)
  {
    for i := 0 to |frames|
      invariant forall k :: 0 <= k < i ==>
        contents[k].offset == frames[k].compressedOffset && contents[k].size == frames[k].compressedSize
    {
      if contents[i].offset != frames[i].compressedOffset || contents[i].size != frames[i].compressedSize {
        return false;
      }
    }
    return true;
  }

  /** ParseSeekTable: bounded, decoded and validated. */
  method ParseSeekTable(t: Tools, payload: seq<byte>) returns (r: Option<SeekTable>)
    ensures r == if payload != [] && |payload| <= MAX_SEEK_TABLE_BYTES && t.parse(payload).Some?
                    && ValidTable(t.parse(payload).value) then t.parse(payload) else None
  {
    if |payload| == 0 || |payload| > MAX_SEEK_TABLE_BYTES { return None; }
    var st := t.parse(payload);
    if st.None? { return None; }
    var ok := Validate(st.value);
    if !ok { return None; }
    return st;
  }

  lemma {:induction false} LocsOfAt(fs: seq<seq<byte>>, i: nat)
    requires i < |fs|
    ensures LocsOf(fs)[i] == LocAt(|Flatten(fs[..i])|, fs[i])
  {
    hide LocAt;
    var front := fs[..|fs| - 1];
    if i < |front| {
      LocsOfAt(front, i);
      assert front[..i] == fs[..i];
    }
  }

  /** Each location spans its frame, and only the last one reaches the end of the stream. */
  lemma {:induction false} LocSpan(header: HeaderDecoder, fs: seq<seq<byte>>, i: nat)
    requires AllFrames(header, fs) && i < |fs|
    ensures var loc := LocsOf(fs)[i];
            && loc.size == |fs[i]| && loc.offset + loc.size <= |Flatten(fs)|
            && Flatten(fs)[loc.offset..loc.offset + loc.size] == fs[i]
            && (loc.offset + loc.size == |Flatten(fs)| <==> i == |fs| - 1)
            && (loc.skippable <==> SkippableFrame(fs[i]))
            && (loc.skippable ==> loc.payloadOffset == loc.offset + 8 && loc.payloadSize == loc.size - 8)
  {
    LocsOfAt(fs, i);
    assert Frame(header, fs[i]);
    FlattenAt(fs, i);
    FlattenTake(fs, i);
    if i + 1 < |fs| {
      FrameNotEmpty(header, fs[i + 1]);
      FlattenAt(fs, i + 1);
    } else {
      assert fs[..i + 1] == fs;
    }
  }

  lemma {:induction false} OpensOnlyAs(t: Tools, data: seq<byte>, fs: seq<seq<byte>>, st: SeekTable)
    requires HeaderContract(t.header) && AllFrames(t.header, fs) && Flatten(fs) == data
    ensures OpensAs(t, data, st) <==> FramesCarry(t, fs, st)
  {
    hide HeaderContract, AllFrames, FramesCarry;
    if OpensAs(t, data, st) {
      var gs :| AllFrames(t.header, gs) && Flatten(gs) == data && FramesCarry(t, gs, st);
      SameStreamSameFrames(t.header, fs, gs);
    }
  }

  /** OpenPack succeeds exactly on the data that some frames and some seek table make a pack of. */
  method OpenPack(t: Tools, data: seq<byte>) returns (r: Result<SeekTable, OpenError>)
    requires t.Contract()
    ensures r.Ok? ==> OpensAs(t, data, r.value)
    ensures r.Err? ==> forall st :: !OpensAs(t, data, st)
  {
    hide *;
    HeaderKept(t);
    if |data| == 0 {
      NoPackInNothing(t);
      return Err(EmptyData);
    }
    var scan := ScanFrames(t.header, data);
    if scan.Err? {
      NotAStream(t, data);
      return Err(ScanFailed);
    }
    ghost var fs := FramesIn(t.header, data);
    forall st ensures OpensAs(t, data, st) <==> FramesCarry(t, fs, st) { OpensOnlyAs(t, data, fs, st); }
    r := OpenScanned(t, data, scan.value, fs);
  }

  lemma {:induction false} HeaderKept(t: Tools)
    requires t.Contract()
    ensures HeaderContract(t.header)
  {}

  lemma {:induction false} FramesIn(header: HeaderDecoder, data: seq<byte>) returns (fs: seq<seq<byte>>)
    requires IsFrameStream(header, data)
    ensures AllFrames(header, fs) && Flatten(fs) == data
  {
    hide AllFrames;
    fs :| AllFrames(header, fs) && Flatten(fs) == data;
  }

  lemma {:induction false} NoPackInNothing(t: Tools)
    ensures forall st :: !OpensAs(t, [], st)
  {
    hide FramesCarry;
    forall fs | AllFrames(t.header, fs) && Flatten(fs) == [] ensures forall st :: !FramesCarry(t, fs, st) {
      NothingIsNoFrames(t, fs);
    }
  }

  lemma {:induction false} NothingIsNoFrames(t: Tools, fs: seq<seq<byte>>)
    requires AllFrames(t.header, fs) && Flatten(fs) == []
    ensures fs == [] && forall st :: !FramesCarry(t, fs, st)
  {
    if fs != [] { FrameNotEmpty(t.header, fs[0]); }
  }

  lemma {:induction false} NotAStream(t: Tools, data: seq<byte>)
    requires !IsFrameStream(t.header, data)
    ensures forall st :: !OpensAs(t, data, st)
  {
    hide AllFrames, FramesCarry;
  }

  /** The rest of OpenPack, over the scanned locations. */
  method OpenScanned(t: Tools, data: seq<byte>, locs: seq<FrameLoc>, ghost fs: seq<seq<byte>>)
    returns (r: Result<SeekTable, OpenError>)
    requires AllFrames(t.header, fs) && Flatten(fs) == data && locs == LocsOf(fs)
    ensures r.Ok? ==> FramesCarry(t, fs, r.value)
    ensures r.Err? ==> forall st :: !FramesCarry(t, fs, st)
  {
    hide Contents, LocsOf, AllFrames, ValidTable, Bound, SkippableFrame;
    if |locs| < 2 { return Err(SingleFrame); }
    LocSpan(t.header, fs, |fs| - 1);
    var seek := LastSkippable(locs);
    if seek.None? { return Err(NoSeekTable); }
    var contents := ContentLocs(locs);
    if |contents| < MIN_CONTENT_FRAMES { return Err(TooFewContentFrames); }
    var seekLoc := locs[seek.value];
    LocSpan(t.header, fs, seek.value);
    if seekLoc.offset + seekLoc.size != |data| && !locs[|locs| - 1].skippable { return Err(SeekTableNotLast); }
    assert seek.value == |fs| - 1;
    SliceOfSlice(data, seekLoc.offset, seekLoc.offset + seekLoc.size, 8);
    SkippableHasHeader(fs[|fs| - 1]);
    var payload := data[seekLoc.payloadOffset..seekLoc.payloadOffset + seekLoc.payloadSize];
    assert payload == fs[|fs| - 1][8..];
    var st := ParseSeekTable(t, payload);
    if st.None? { return Err(BadSeekTable); }
    if |contents| != |st.value.frames| {
      CountMismatch(contents, st.value.frames);
      return Err(FrameCountMismatch);
    }
    var bound := BindFrames(contents, st.value.frames);
    if !bound { return Err(FrameBindingMismatch); }
    return Ok(st.value);
  }

  lemma {:induction false} CountMismatch(contents: seq<FrameLoc>, frames: seq<SeekFrame>)
    requires |contents| != |frames|
    ensures !Bound(contents, frames)
  {}

  lemma {:induction false} SkippableHasHeader(f: seq<byte>)
    requires SkippableFrame(f)
    ensures |f| >= 8 && |f[8..]| <= MAX_SEEK_TABLE_BYTES
  {}

  lemma {:induction false} SliceOfSlice(d: seq<byte>, lo: nat, hi: nat, skip: nat)
    requires lo + skip <= hi <= |d|
    ensures d[lo..hi][skip..] == d[lo + skip..hi]
  {}

  // ---- Which built packs open --------------------------------------------------------------------------------

  lemma {:induction false} ContentsOfContentFrames(header: HeaderDecoder, fs: seq<seq<byte>>)
    requires forall i :: 0 <= i < |fs| ==> ContentFrame(header, fs[i])
    ensures Contents(LocsOf(fs)) == LocsOf(fs)
  {
    if fs != [] {
      ContentsOfContentFrames(header, fs[..|fs| - 1]);
    }
  }

  lemma {:induction false} ContentLocAtIndex(header: HeaderDecoder, fs: seq<seq<byte>>, i: nat)
    requires i < |fs| && ContentFrame(header, fs[i])
    ensures LocsOf(fs)[i] == FrameLoc(|Flatten(fs[..i])|, |fs[i]|, false, 0, 0)
  {
    LocsOfAt(fs, i);
  }

  /** Every scanned content location is the place of one content frame of the stream. */
  lemma {:induction false} ContentsAreContentFrames(header: HeaderDecoder, fs: seq<seq<byte>>, i: nat)
    requires AllFrames(header, fs) && i < |Contents(LocsOf(fs))|
    ensures var loc := Contents(LocsOf(fs))[i];
            loc.offset + loc.size <= |Flatten(fs)| && ContentFrame(header, Flatten(fs)[loc.offset..loc.offset + loc.size])
  {
    hide Contents, LocsOf, ContentFrame, SkippableFrame;
    var j := ContentsPick(LocsOf(fs), i);
    assert Frame(header, fs[j]);
    LocSpan(header, fs, j);
  }

  lemma {:induction false} ContentsPick(locs: seq<FrameLoc>, i: nat) returns (j: nat)
    requires i < |Contents(locs)|
    ensures j < |locs| && Contents(locs)[i] == locs[j] && !locs[j].skippable
  {
    var front := locs[..|locs| - 1];
    if i < |Contents(front)| {
      j := ContentsPick(front, i);
    } else {
      j := |locs| - 1;
    }
  }

  /** The table row of part i names the bytes of its compressed form. */
  lemma {:induction false} RowNamesPart(t: Tools, parts: seq<Part>, i: nat)
    requires i < |parts|
    ensures var f := FramesOf(t, parts)[i];
            && f.compressedOffset == |Flatten(Comps(parts)[..i])| && f.compressedSize == |parts[i].comp|
            && f.compressedOffset + f.compressedSize <= |Compressed(parts)|
            && Compressed(parts)[f.compressedOffset..f.compressedOffset + f.compressedSize] == parts[i].comp
  {
    assert Comps(parts)[..i] == Comps(parts[..i]);
    FlattenAt(Comps(parts), i);
  }

  /** The frames a built pack consists of when every part is one content frame. */
  function PackFrames(t: Tools, p: Packed, parts: seq<Part>): seq<seq<byte>>
    requires |t.marshal(p.table)| <= MAX_SEEK_TABLE_BYTES
  {
    Comps(parts) + [SkipFrame(t.marshal(p.table))]
  }

  ghost predicate SingleFrames(t: Tools, parts: seq<Part>) {
    forall i :: 0 <= i < |parts| ==> ContentFrame(t.header, parts[i].comp)
  }

  lemma {:induction false} PackFramesTile(t: Tools, p: Packed, parts: seq<Part>)
    requires WellBuilt(t, p, parts) && SingleFrames(t, parts)
    ensures AllFrames(t.header, PackFrames(t, p, parts)) && Flatten(PackFrames(t, p, parts)) == p.data
  {
    hide ContentFrame, ValidTable, FramesOf, SkipFrame;
    var fs := PackFrames(t, p, parts);
    forall i | 0 <= i < |fs| ensures Frame(t.header, fs[i]) { assert i < |parts| ==> fs[i] == parts[i].comp; }
    FlattenSnoc(Comps(parts), SkipFrame(t.marshal(p.table)));
  }

  /** Scanning such a pack recovers the table's offsets and sizes in order, then one skippable frame. */
  lemma {:induction false} PackScansToTable(t: Tools, p: Packed, parts: seq<Part>, i: nat)
    requires WellBuilt(t, p, parts) && SingleFrames(t, parts) && i <= |parts|
    ensures var locs := LocsOf(PackFrames(t, p, parts));
            && |locs| == |parts| + 1
            && locs[i] == if i < |parts|
                          then FrameLoc(p.table.frames[i].compressedOffset, p.table.frames[i].compressedSize, false, 0, 0)
                          else FrameLoc(|Compressed(parts)|, 8 + |t.marshal(p.table)|, true, |Compressed(parts)| + 8,
                                        |t.marshal(p.table)|)
  {
    hide ValidTable, ContentFrame, WellBuilt, FramesOf;
    BuiltFrames(t, p, parts);
    var fs := PackFrames(t, p, parts);
    assert fs[..i] == Comps(parts)[..i];
    if i < |parts| {
      RowNamesPart(t, parts, i);
      ContentLocAtIndex(t.header, fs, i);
    } else {
      LocsOfAt(fs, i);
      assert Comps(parts)[..i] == Comps(parts);
      SkipFrameSize(t.marshal(p.table));
    }
  }

  lemma {:induction false} BuiltFrames(t: Tools, p: Packed, parts: seq<Part>)
    requires WellBuilt(t, p, parts)
    ensures p.table.frames == FramesOf(t, parts) && |t.marshal(p.table)| <= MAX_SEEK_TABLE_BYTES
  {}

  lemma {:induction false} SkipFrameSize(payload: seq<byte>)
    requires |payload| <= MAX_SEEK_TABLE_BYTES
    ensures |SkipFrame(payload)| == 8 + |payload| && IsSkippableMagic(SkipFrame(payload))
  {}

  /** A pack built of single content frames opens as its own table. */
  lemma {:induction false} SingleFramesOpen(t: Tools, p: Packed, parts: seq<Part>)
    requires t.Contract() && WellBuilt(t, p, parts) && SingleFrames(t, parts)
    ensures OpensAs(t, p.data, p.table)
    ensures FramesCarry(t, PackFrames(t, p, parts), p.table)
  {
    hide HeaderContract, ContentFrame, t.CodecContract, t.TarContract, t.HashContract, FramesOf, SkipFrame;
    PackFramesTile(t, p, parts);
    var fs, skip := PackFrames(t, p, parts), SkipFrame(t.marshal(p.table));
    EnoughFrames(p.table);
    hide ValidTable;
    ContentsOfContentFrames(t.header, Comps(parts));
    ContentsSnocSkippable(Comps(parts), skip);
    assert Contents(LocsOf(fs)) == LocsOf(Comps(parts));
    forall i | 0 <= i < |parts|
      ensures LocsOf(Comps(parts))[i].offset == p.table.frames[i].compressedOffset
      ensures LocsOf(Comps(parts))[i].size == p.table.frames[i].compressedSize
    {
      RowNamesPart(t, parts, i);
      ContentLocAtIndex(t.header, Comps(parts), i);
    }
    hide LocsOf, Contents, AllFrames;
    assert FramesCarry(t, fs, p.table);
  }

  /** Conversely a built pack that opens as its own table consists of single content frames. */
  lemma {:induction false} OpenedMeansSingleFrames(t: Tools, p: Packed, parts: seq<Part>)
    requires WellBuilt(t, p, parts) && OpensAs(t, p.data, p.table)
    ensures SingleFrames(t, parts)
  {
    hide ContentFrame, ValidTable, FramesOf, SkipFrame, LocsOf, Contents, AllFrames;
    var fs :| AllFrames(t.header, fs) && Flatten(fs) == p.data && FramesCarry(t, fs, p.table);
    forall i | 0 <= i < |parts| ensures ContentFrame(t.header, parts[i].comp) {
      ContentsAreContentFrames(t.header, fs, i);
      RowNamesPart(t, parts, i);
      var loc, c := Contents(LocsOf(fs))[i], Compressed(parts);
      assert loc.offset == p.table.frames[i].compressedOffset && loc.size == p.table.frames[i].compressedSize;
      assert p.data[loc.offset..loc.offset + loc.size] == c[loc.offset..loc.offset + loc.size];
    }
  }

  /**
   * Writers accept payload elements made of several frames, and such a pack does not open: when each
   * element is at least a stream of frames, the pack opens if and only if each is one content frame,
   * and then as the very table that was written.
   */
  lemma {:induction false} OpensIffSingleFrames(t: Tools, p: Packed, parts: seq<Part>)
    requires t.Contract() && WellBuilt(t, p, parts)
    requires forall i :: 0 <= i < |parts| ==> IsFrameStream(t.header, parts[i].comp)
    ensures (exists st :: OpensAs(t, p.data, st)) <==> SingleFrames(t, parts)
    ensures forall st :: OpensAs(t, p.data, st) ==> st == p.table
  {
    hide HeaderContract, ContentFrame, ValidTable, FramesOf, SkipFrame, LocsOf, Contents, SingleFrames;
    var head := StreamOfStreams(t.header, Comps(parts));
    var skip := SkipFrame(t.marshal(p.table));
    var gs := head + [skip];
    assert AllFrames(t.header, gs) by { assert Frame(t.header, skip); }
    FlattenSnoc(head, skip);
    hide AllFrames, WellBuilt;
    forall st | OpensAs(t, p.data, st) ensures st == p.table {
      OpensOnlyAs(t, p.data, gs, st);
      assert gs[|gs| - 1] == skip;
    }
    if st :| OpensAs(t, p.data, st) { OpenedMeansSingleFrames(t, p, parts); }
    if SingleFrames(t, parts) { SingleFramesOpen(t, p, parts); }
  }

  lemma {:induction false} StreamOfStreams(header: HeaderDecoder, pieces: seq<seq<byte>>) returns (fs: seq<seq<byte>>)
    requires forall i :: 0 <= i < |pieces| ==> IsFrameStream(header, pieces[i])
    ensures AllFrames(header, fs) && Flatten(fs) == Flatten(pieces)
  {
    hide Frame;
    if pieces == [] {
      fs := [];
    } else {
      var first :| AllFrames(header, first) && Flatten(first) == pieces[0];
      var rest := StreamOfStreams(header, pieces[1..]);
      fs := first + rest;
      FlattenAppend(first, rest);
    }
  }

  lemma {:induction false} ContentsSnocSkippable(fs: seq<seq<byte>>, skip: seq<byte>)
    requires SkippableFrame(skip)
    ensures Contents(LocsOf(fs + [skip])) == Contents(LocsOf(fs))
  {
    assert (fs + [skip])[..|fs|] == fs;
    assert LocsOf(fs + [skip])[..|fs|] == LocsOf(fs);
  }

  lemma {:induction false} EnoughFrames(st: SeekTable)
    requires ValidTable(st)
    ensures st.minContentFrames > 0 ==> |st.frames| >= st.minContentFrames
  {}

  // ---- Verifying ------------------------------------------------------------------------------------------------

  predicate InBounds(data: seq<byte>, f: SeekFrame) {
    0 <= f.compressedOffset && 0 <= f.compressedSize && f.compressedOffset + f.compressedSize <= |data|
  }

  /** The compressed bytes a table row names; nothing when it points outside the data. */
  function FrameBytes(data: seq<byte>, f: SeekFrame): seq<byte> {
    if InBounds(data, f) then data[f.compressedOffset..f.compressedOffset + f.compressedSize] else []
  }

  predicate FrameVerifies(t: Tools, data: seq<byte>, f: SeekFrame) {
    InBounds(data, f) && f.frameSHA != [] && t.shaHex(FrameBytes(data, f)) == f.frameSHA
  }

  /** The bytes of the first n frames, in table order. */
  function Covered(data: seq<byte>, frames: seq<SeekFrame>, n: nat): seq<byte>
    requires n <= |frames|
  {
    if n == 0 then [] else Covered(data, frames, n - 1) + FrameBytes(data, frames[n - 1])
  }

  predicate Verifies(t: Tools, data: seq<byte>, st: SeekTable) {
    && (forall i :: 0 <= i < |st.frames| ==> FrameVerifies(t, data, st.frames[i]))
    && st.packSHA != [] && t.shaHex(t.shaSum(Covered(data, st.frames, |st.frames|))) == st.packSHA
  }

  /** One turn of the verification loop. */
  method VerifyFrame(t: Tools, data: seq<byte>, f: SeekFrame) returns (slice: Option<seq<byte>>)
    requires f.compressedSize > 0
    ensures slice == if FrameVerifies(t, data, f) then Some(FrameBytes(data, f)) else None
  {
    if f.compressedOffset < 0 || f.compressedOffset + f.compressedSize > |data| { return None; }
    if f.frameSHA == [] { return None; }
    var bytes := data[f.compressedOffset..f.compressedOffset + f.compressedSize];
    if t.shaHex(bytes) != f.frameSHA { return None; }
    return Some(bytes);
  }

  /** VerifyContentFrames, on a table that has been validated. */
  method VerifyContentFrames(t: Tools, data: seq<byte>, st: SeekTable) returns (ok: bool)
    requires ValidTable(st)
    ensures ok <==> Verifies(t, data, st)
  {
    hide FrameVerifies, FrameBytes, TrimSpace, MemberFits, EntryKey;
    var h := [];
    for i := 0 to |st.frames|
      invariant forall k :: 0 <= k < i ==> FrameVerifies(t, data, st.frames[k])
      invariant h == Covered(data, st.frames, i)
    {
      assert FrameFits(st.frames, i);
      var slice := VerifyFrame(t, data, st.frames[i]);
      if slice.None? { return false; }
      h := h + slice.value;
    }
    if st.packSHA == [] { return false; }
    return t.shaHex(t.shaSum(h)) == st.packSHA;
  }

  lemma {:induction false} PartVerifies(t: Tools, p: Packed, parts: seq<Part>, i: nat)
    requires t.HashContract() && WellBuilt(t, p, parts) && i < |parts|
    ensures |p.table.frames| == |parts|
    ensures FrameVerifies(t, p.data, p.table.frames[i]) && FrameBytes(p.data, p.table.frames[i]) == parts[i].comp
  {
    hide ValidTable, SkipFrame;
    RowNamesPart(t, parts, i);
    var f, c := FramesOf(t, parts)[i], Compressed(parts);
    assert p.data[f.compressedOffset..f.compressedOffset + f.compressedSize]
        == c[f.compressedOffset..f.compressedOffset + f.compressedSize];
  }

  lemma {:induction false} PartsCovered(t: Tools, p: Packed, parts: seq<Part>, n: nat)
    requires t.HashContract() && WellBuilt(t, p, parts) && n <= |parts| == |p.table.frames|
    ensures Covered(p.data, p.table.frames, n) == Compressed(parts[..n])
  {
    hide WellBuilt, FrameBytes, t.HashContract;
    if n > 0 {
      PartsCovered(t, p, parts, n - 1);
      PartVerifies(t, p, parts, n - 1);
      PartsSnoc(parts[..n - 1], parts[n - 1]);
      assert parts[..n] == parts[..n - 1] + [parts[n - 1]];
    } else {
      assert Comps(parts[..0]) == [];
    }
  }

  /** Every pack a writer builds passes verification. */
  lemma {:induction false} BuiltPacksVerify(t: Tools, p: Packed, parts: seq<Part>)
    requires t.HashContract() && WellBuilt(t, p, parts)
    ensures Verifies(t, p.data, p.table)
  {
    hide FrameVerifies, Compressed, FramesOf, ValidTable;
    assert |p.table.frames| == |parts|;
    forall i | 0 <= i < |parts| ensures FrameVerifies(t, p.data, p.table.frames[i]) { PartVerifies(t, p, parts, i); }
    PartsCovered(t, p, parts, |parts|);
    assert parts[..|parts|] == parts;
  }

  // ---- Reading a member range -------------------------------------------------------------------------------------

  datatype ReadError = BadArgument | EntryNotFound | Corrupt | OverBudget

  predicate Names(m: SeekMember, id: string) {
    m.entryID == id || m.name == id
  }

  /** The first member whose entry id or name is id. */
  function FindFrom(members: seq<SeekMember>, id: string, from: nat): (r: Option<nat>)
    requires from <= |members|
    ensures r.Some? ==> from <= r.value < |members| && Names(members[r.value], id)
                        && forall k :: from <= k < r.value ==> !Names(members[k], id)
    ensures r.None? ==> forall k :: from <= k < |members| ==> !Names(members[k], id)
    decreases |members| - from
  {
    if from == |members| then None
    else if Names(members[from], id) then Some(from)
    else FindFrom(members, id, from + 1)
  }

  /** FindMember. */
  method FindMember(st: SeekTable, entryID: string) returns (r: Option<SeekMember>)
    ensures r == match FindFrom(st.members, TrimSpace(entryID), 0) case None => None case Some(i) => Some(st.members[i])
  {
    var id := TrimSpace(entryID);
    for i := 0 to |st.members|
      invariant FindFrom(st.members, id, 0) == FindFrom(st.members, id, i)
    {
      if st.members[i].entryID == id || st.members[i].name == id { return Some(st.members[i]); }
    }
    return None;
  }

  /** What is found for an id: the first member that has it as entry id or as name. */
  lemma {:induction false} FoundIff(members: seq<SeekMember>, id: string, i: nat)
    ensures FindFrom(members, id, 0) == Some(i) <==>
            i < |members| && id in {members[i].entryID, members[i].name}
            && forall m :: m in members[..i] ==> m.entryID != id && m.name != id
  {
    if i < |members| {
      assert forall m :: m in members[..i] <==> exists k :: 0 <= k < i && members[k] == m;
      assert forall k :: 0 <= k < i ==> members[k] in members[..i];
    }
  }

  /** A member is found under its own id exactly when the id has no outer spaces and no earlier member answers to it. */
  lemma {:induction false} FoundUnderOwnId(st: SeekTable, i: nat)
    requires i < |st.members|
    ensures FindFrom(st.members, TrimSpace(st.members[i].entryID), 0) == Some(i) && TrimSpace(st.members[i].entryID) == st.members[i].entryID
        <==> Trimmed(st.members[i].entryID) && forall k :: 0 <= k < i ==> !Names(st.members[k], st.members[i].entryID)
  {
    var id := st.members[i].entryID;
    var r := FindFrom(st.members, TrimSpace(id), 0);
    assert Names(st.members[i], id);
  }

  predicate Overlaps(f: SeekFrame, start: int, end: int) {
    f.rawOffset < end && f.rawOffset + f.rawSize > start
  }

  function Hits(frames: seq<SeekFrame>, start: int, end: int): seq<SeekFrame> {
    if frames == [] then []
    else
      var last := frames[|frames| - 1];
      Hits(frames[..|frames| - 1], start, end) + if Overlaps(last, start, end) then [last] else []
  }

  method FramesIntersectingRaw(frames: seq<SeekFrame>, start: int, end: int) returns (out: seq<SeekFrame>)
    requires start < end
    ensures out == Hits(frames, start, end)
  {
    out := [];
    for i := 0 to |frames|
      invariant out == Hits(frames[..i], start, end)
    {
      assert frames[..i + 1][..i] == frames[..i];
      var fEnd := frames[i].rawOffset + frames[i].rawSize;
      if frames[i].rawOffset < end && fEnd > start { out := out + [frames[i]]; }
    }
    assert frames[..|frames|] == frames;
  }

  /** decompressFrame: bounds, both checksums and the recorded raw size must agree. */
  function Decompressed(t: Tools, data: seq<byte>, f: SeekFrame): Option<seq<byte>> {
    if !InBounds(data, f) || f.frameSHA == [] || t.shaHex(FrameBytes(data, f)) != f.frameSHA then None
    else
      match t.dec(FrameBytes(data, f))
      case None => None
      case Some(raw) =>
        if |raw| != f.rawSize || f.contentSHA == [] || t.shaHex(raw) != f.contentSHA then None else Some(raw)
  }

  /** The part of a decoded frame that falls into [start, end) of the raw stream. */
  function Clip(raw: seq<byte>, rawOffset: int, start: int, end: int): seq<byte> {
    var lo, hi := Max(start, rawOffset) - rawOffset, Min(end, rawOffset + |raw|) - rawOffset;
    if 0 <= lo < hi <= |raw| then raw[lo..hi] else []
  }

  datatype Gathered = Gathered(out: seq<byte>, used: nat)

  function GatherStep(t: Tools, data: seq<byte>, f: SeekFrame, start: int, end: int, g: Gathered): Result<Gathered, ReadError> {
    match Decompressed(t, data, f)
    case None => Err(Corrupt)
    case Some(raw) =>
      if g.used + |raw| > MAX_DECOMPRESS_PER_OP then Err(OverBudget)
      else Ok(Gathered(g.out + Clip(raw, f.rawOffset, start, end), g.used + |raw|))
  }

  /** What the read loop has collected after these frames. */
  function Gather(t: Tools, data: seq<byte>, fs: seq<SeekFrame>, start: int, end: int): Result<Gathered, ReadError> {
    if fs == [] then Ok(Gathered([], 0))
    else
      match Gather(t, data, fs[..|fs| - 1], start, end)
      case Err(e) => Err(e)
      case Ok(g) => GatherStep(t, data, fs[|fs| - 1], start, end, g)
  }

  /** What reading [offset, offset+length) of an entry yields. */
  function ReadOutcome(t: Tools, data: seq<byte>, st: SeekTable, entryID: string, offset: int, length: int)
    : Result<seq<byte>, ReadError>
  {
    if offset < 0 || length < 0 || TrimSpace(entryID) == [] then Err(BadArgument)
    else
      match FindFrom(st.members, TrimSpace(entryID), 0)
      case None => Err(EntryNotFound)
      case Some(i) =>
        var m := st.members[i];
        if length == 0 || offset >= m.size then Ok([])
        else
          var absStart := m.rawOffset + offset;
          var absEnd := absStart + Min(length, m.size - offset);
          var hits := Hits(st.frames, absStart, absEnd);
          if hits == [] then Err(Corrupt)
          else
            match Gather(t, data, hits, absStart, absEnd)
            case Err(e) => Err(e)
            case Ok(g) => Ok(g.out)
  }

  lemma {:induction false} GatherErrs(t: Tools, data: seq<byte>, fs: seq<SeekFrame>, start: int, end: int)
    ensures Gather(t, data, fs, start, end).Err? ==> Gather(t, data, fs, start, end).error in {Corrupt, OverBudget}
  {
    hide Decompressed, Clip;
    if fs != [] { GatherErrs(t, data, fs[..|fs| - 1], start, end); }
  }

  /** Which read is refused as a bad request or for an unknown entry, which is empty, and when a range without a frame is corrupt. */
  lemma {:induction false} ReadErrors(t: Tools, data: seq<byte>, st: SeekTable, entryID: string, offset: int, length: int)
    ensures var r, id := ReadOutcome(t, data, st, entryID, offset, length), TrimSpace(entryID);
            var bad := offset < 0 || length < 0 || id == "";
            var unknown := forall m :: m in st.members ==> id !in {m.entryID, m.name};
            && (r == Err(BadArgument) <==> bad) && (r == Err(EntryNotFound) <==> !bad && unknown)
            && (!bad && !unknown ==>
                  exists i :: 0 <= i < |st.members| && FindFrom(st.members, id, 0) == Some(i)
                    && var m := st.members[i];
                       && (length == 0 || offset >= m.size ==> r == Ok([]))
                       && (length > 0 && offset < m.size
                           && (forall f :: f in st.frames ==> !Overlaps(f, m.rawOffset + offset, m.rawOffset + Min(offset + length, m.size)))
                           ==> r == Err(Corrupt)))
  {
    hide TrimSpace, Gather, FindFrom, Hits, Overlaps;
    var id := TrimSpace(entryID);
    match FindFrom(st.members, id, 0)
    case None =>
      forall m | m in st.members ensures id !in {m.entryID, m.name} {
        var k :| 0 <= k < |st.members| && st.members[k] == m;
        assert !Names(st.members[k], id);
      }
    case Some(i) =>
      var m := st.members[i];
      assert m in st.members && Names(m, id);
      if offset >= 0 && length > 0 && offset < m.size {
        var absStart, absEnd := m.rawOffset + offset, m.rawOffset + offset + Min(length, m.size - offset);
        assert absEnd == m.rawOffset + Min(offset + length, m.size);
        GatherErrs(t, data, Hits(st.frames, absStart, absEnd), absStart, absEnd);
        if forall f :: f in st.frames ==> !Overlaps(f, absStart, absEnd) { NoHits(st.frames, absStart, absEnd); }
      }
  }

  lemma {:induction false} NoHits(frames: seq<SeekFrame>, start: int, end: int)
    requires forall f :: f in frames ==> !Overlaps(f, start, end)
    ensures Hits(frames, start, end) == []
  {
    if frames != [] {
      assert frames[|frames| - 1] in frames;
      NoHits(frames[..|frames| - 1], start, end);
    }
  }

  /** ReadMemberRange: only the frames that intersect the range are decompressed, within a budget. */
  method ReadMemberRange(t: Tools, data: seq<byte>, st: SeekTable, entryID: string, offset: int, length: int)
    returns (r: Result<seq<byte>, ReadError>)
    ensures r == ReadOutcome(t, data, st, entryID, offset, length)
  {
    hide TrimSpace, Hits, FindFrom, Gather;
    if offset < 0 || length < 0 { return Err(BadArgument); }
    if TrimSpace(entryID) == [] { return Err(BadArgument); }
    var m := FindMember(st, entryID);
    if m.None? { return Err(EntryNotFound); }
    if length == 0 || offset >= m.value.size { return Ok([]); }
    var len := length;
    if offset + len > m.value.size { len := m.value.size - offset; }
    var absStart := m.value.rawOffset + offset;
    var absEnd := absStart + len;
    var frames := FramesIntersectingRaw(st.frames, absStart, absEnd);
    if |frames| == 0 { return Err(Corrupt); }
    var g := CollectFrames(t, data, frames, absStart, absEnd);
    if g.Err? { return Err(g.error); }
    return Ok(g.value.out);
  }

  method CollectFrames(t: Tools, data: seq<byte>, frames: seq<SeekFrame>, start: int, end: int)
    returns (r: Result<Gathered, ReadError>)
    ensures r == Gather(t, data, frames, start, end)
  {
    hide GatherStep;
    var g := Gathered([], 0);
    for i := 0 to |frames|
      invariant Gather(t, data, frames[..i], start, end) == Ok(g)
    {
      assert frames[..i + 1][..i] == frames[..i];
      var step := GatherStep(t, data, frames[i], start, end, g);
      if step.Err? {
        GatherStops(t, data, frames, i + 1, start, end);
        return Err(step.error);
      }
      g := step.value;
    }
    assert frames[..|frames|] == frames;
    return Ok(g);
  }

  lemma {:induction false} GatherStops(t: Tools, data: seq<byte>, fs: seq<SeekFrame>, n: nat, start: int, end: int)
    requires n <= |fs| && Gather(t, data, fs[..n], start, end).Err?
    ensures Gather(t, data, fs, start, end) == Gather(t, data, fs[..n], start, end)
    decreases |fs|
  {
    hide GatherStep;
    if n < |fs| {
      assert fs[..|fs| - 1][..n] == fs[..n];
      GatherStops(t, data, fs[..|fs| - 1], n, start, end);
    } else {
      assert fs[..n] == fs;
    }
  }

  // ---- Reading back what was written --------------------------------------------------------------------------------

  function Window(s: seq<byte>, start: nat, end: nat): seq<byte>
    requires start <= end
  {
    s[Min(start, |s|)..Min(end, |s|)]
  }

  lemma {:induction false} WindowAppend(a: seq<byte>, b: seq<byte>, start: nat, end: nat)
    requires start <= end
    ensures Window(a + b, start, end) == Window(a, start, end) + Clip(b, |a|, start, end)
  {
    hide *;
    if end <= |a| {
      WindowInFirst(a, b, start, end);
    } else if start >= |a| {
      WindowInSecond(a, b, start, end);
    } else {
      WindowInBoth(a, b, start, end);
    }
  }

  lemma {:induction false} WindowInFirst(a: seq<byte>, b: seq<byte>, start: nat, end: nat)
    requires start <= end <= |a|
    ensures Window(a + b, start, end) == Window(a, start, end) + Clip(b, |a|, start, end)
  {
    assert Clip(b, |a|, start, end) == [];
    hide Clip;
    WindowBefore(a, b, start, end);
  }

  lemma {:induction false} WindowInSecond(a: seq<byte>, b: seq<byte>, start: nat, end: nat)
    requires |a| <= start <= end
    ensures Window(a + b, start, end) == Window(a, start, end) + Clip(b, |a|, start, end)
  {
    hide Clip;
    ClipAfter(b, |a|, start, end);
    WindowAfter(a, b, Min(start, |a| + |b|), Min(end, |a| + |b|));
    assert Window(a, start, end) == [];
  }

  lemma {:induction false} WindowInBoth(a: seq<byte>, b: seq<byte>, start: nat, end: nat)
    requires start < |a| < end
    ensures Window(a + b, start, end) == Window(a, start, end) + Clip(b, |a|, start, end)
  {
    hide Clip;
    ClipAcross(b, |a|, start, end);
    WindowAcross(a, b, start, Min(end, |a| + |b|));
  }

  lemma {:induction false} ClipAfter(b: seq<byte>, at: nat, start: nat, end: nat)
    requires at <= start <= end
    ensures Clip(b, at, start, end) == b[Min(start, at + |b|) - at..Min(end, at + |b|) - at]
  {}

  lemma {:induction false} ClipAcross(b: seq<byte>, at: nat, start: nat, end: nat)
    requires start < at < end
    ensures Clip(b, at, start, end) == b[..Min(end, at + |b|) - at]
  {}

  lemma {:induction false} WindowBefore<T>(a: seq<T>, b: seq<T>, lo: nat, hi: nat)
    requires lo <= hi <= |a|
    ensures (a + b)[lo..hi] == a[lo..hi]
  {}

  lemma {:induction false} WindowAcross<T>(a: seq<T>, b: seq<T>, lo: nat, hi: nat)
    requires lo <= |a| <= hi <= |a| + |b|
    ensures (a + b)[lo..hi] == a[lo..] + b[..hi - |a|]
  {}

  lemma {:induction false} WindowAfter<T>(a: seq<T>, b: seq<T>, lo: nat, hi: nat)
    requires |a| <= lo <= hi <= |a| + |b|
    ensures (a + b)[lo..hi] == b[lo - |a|..hi - |a|]
  {}

  /** Raw bytes of the first n parts that a read of [start, end) has to decompress. */
  function HitBytes(parts: seq<Part>, n: nat, start: int, end: int): nat
    requires n <= |parts|
  {
    if n == 0 then 0
    else
      var before := |Raw(parts[..n - 1])|;
      HitBytes(parts, n - 1, start, end)
      + if before < end && before + |parts[n - 1].raw| > start then |parts[n - 1].raw| else 0
  }

  lemma {:induction false} PartDecompresses(t: Tools, p: Packed, parts: seq<Part>, i: nat)
    requires t.HashContract() && WellBuilt(t, p, parts) && i < |parts|
    ensures |p.table.frames| == |parts|
    ensures p.table.frames[i] == FrameAt(t, parts[..i], parts[i])
    ensures Decompressed(t, p.data, p.table.frames[i]) == Some(parts[i].raw)
  {
    hide ValidTable, FrameBytes;
    PartVerifies(t, p, parts, i);
  }

  ghost predicate GatheredWindow(r: Result<Gathered, ReadError>, raw: seq<byte>, bytes: nat, start: nat, end: nat)
    requires start <= end
  {
    if bytes <= MAX_DECOMPRESS_PER_OP then r == Ok(Gathered(Window(raw, start, end), bytes)) else r == Err(OverBudget)
  }

  /** The frames that intersect a range yield exactly the window of the raw stream, or exceed the budget. */
  lemma {:induction false} GatherIsWindow(t: Tools, p: Packed, parts: seq<Part>, n: nat, start: nat, end: nat)
    requires t.HashContract() && WellBuilt(t, p, parts) && n <= |parts| == |p.table.frames| && start < end
    ensures GatheredWindow(Gather(t, p.data, Hits(p.table.frames[..n], start, end), start, end),
                           Raw(parts[..n]), HitBytes(parts, n, start, end), start, end)
  {
    hide *;
    if n == 0 {
      GatherNone(t, p, parts, start, end);
    } else {
      GatherIsWindow(t, p, parts, n - 1, start, end);
      PartDecompresses(t, p, parts, n - 1);
      PartsSnoc(parts[..n - 1], parts[n - 1]);
      assert parts[..n] == parts[..n - 1] + [parts[n - 1]];
      WindowAppend(Raw(parts[..n - 1]), parts[n - 1].raw, start, end);
      GatherNext(t, p, parts, n, start, end);
    }
  }

  lemma {:induction false} GatherNone(t: Tools, p: Packed, parts: seq<Part>, start: nat, end: nat)
    requires start < end
    ensures GatheredWindow(Gather(t, p.data, Hits(p.table.frames[..0], start, end), start, end),
                           Raw(parts[..0]), HitBytes(parts, 0, start, end), start, end)
  {
    assert Raws(parts[..0]) == [];
    hide GatherStep;
  }

  lemma {:induction false} GatherNext(t: Tools, p: Packed, parts: seq<Part>, n: nat, start: nat, end: nat)
    requires 0 < n <= |parts| == |p.table.frames| && start < end
    requires p.table.frames[n - 1] == FrameAt(t, parts[..n - 1], parts[n - 1])
    requires Decompressed(t, p.data, p.table.frames[n - 1]) == Some(parts[n - 1].raw)
    requires GatheredWindow(Gather(t, p.data, Hits(p.table.frames[..n - 1], start, end), start, end),
                            Raw(parts[..n - 1]), HitBytes(parts, n - 1, start, end), start, end)
    requires Window(Raw(parts[..n]), start, end)
             == Window(Raw(parts[..n - 1]), start, end) + Clip(parts[n - 1].raw, |Raw(parts[..n - 1])|, start, end)
    ensures GatheredWindow(Gather(t, p.data, Hits(p.table.frames[..n], start, end), start, end),
                           Raw(parts[..n]), HitBytes(parts, n, start, end), start, end)
  {
    hide Window, Decompressed, Raw, Compressed, Clip;
    var frames, f := p.table.frames, p.table.frames[n - 1];
    var front := Hits(frames[..n - 1], start, end);
    assert frames[..n][..n - 1] == frames[..n - 1];
    HitBytesStep(parts, n, start, end);
    if Overlaps(f, start, end) {
      assert Hits(frames[..n], start, end) == front + [f];
      hide Hits;
      GatherSnoc(t, p.data, front, f, start, end);
    } else {
      assert Hits(frames[..n], start, end) == front;
      NoClip(parts[n - 1].raw, |Raw(parts[..n - 1])|, start, end);
      assert Window(Raw(parts[..n]), start, end) == Window(Raw(parts[..n - 1]), start, end);
    }
  }

  lemma {:induction false} GatherSnoc(t: Tools, data: seq<byte>, front: seq<SeekFrame>, f: SeekFrame, start: int, end: int)
    requires Decompressed(t, data, f).Some?
    ensures var raw := Decompressed(t, data, f).value;
            Gather(t, data, front + [f], start, end) ==
            match Gather(t, data, front, start, end)
            case Err(e) => Err(e)
            case Ok(g) =>
              if g.used + |raw| > MAX_DECOMPRESS_PER_OP then Err(OverBudget)
              else Ok(Gathered(g.out + Clip(raw, f.rawOffset, start, end), g.used + |raw|))
  {
    hide Decompressed, Clip;
    assert (front + [f])[..|front|] == front;
  }

  lemma {:induction false} NoClip(raw: seq<byte>, rawOffset: nat, start: nat, end: nat)
    requires !(rawOffset < end && rawOffset + |raw| > start)
    ensures Clip(raw, rawOffset, start, end) == []
  {}

  lemma {:induction false} HitBytesStep(parts: seq<Part>, n: nat, start: int, end: int)
    requires 0 < n <= |parts|
    ensures var before := |Raw(parts[..n - 1])|;
            HitBytes(parts, n, start, end) == HitBytes(parts, n - 1, start, end)
              + if before < end && before + |parts[n - 1].raw| > start then |parts[n - 1].raw| else 0
  {
    hide Raw;
  }

  /** The slice of body that a read of [offset, offset+length) is entitled to. */
  function BodySliceOf(body: seq<byte>, offset: nat, length: nat): seq<byte> {
    Window(body, offset, offset + length)
  }

  /**
   * Reading back: whatever member a pack holds, a range read under the id that finds it returns that
   * slice of its body, and fails only when the frames it needs exceed the decompression budget.
   */
  lemma {:induction false} MembersReadBack(t: Tools, p: Packed, parts: seq<Part>, ms: seq<Member>, i: nat, entryID: string,
                                           offset: nat, length: nat)
    requires t.Contract() && Holds(t, p, parts, ms) && i < |ms|
    requires TrimSpace(entryID) != [] && FindFrom(p.table.members, TrimSpace(entryID), 0) == Some(i)
    ensures var m, body := RowsOf(t, ms)[i], ms[i].body;
            var start := m.rawOffset + offset;
            var bytes := HitBytes(parts, |parts|, start, start + Min(length, |body| - offset));
            ReadOutcome(t, p.data, p.table, entryID, offset, length) ==
            if length == 0 || offset >= |body| || bytes <= MAX_DECOMPRESS_PER_OP
            then Ok(BodySliceOf(body, offset, length)) else Err(OverBudget)
  {
    hide t.Contract, WellBuilt, TrimSpace, FindFrom, TarAccepts, TarStream, Raw, Hits, Gather, HitBytes, RowsOf, Zeros,
         FramesOf;
    var m, body := RowsOf(t, ms)[i], ms[i].body;
    RowsCarryBodies(t, ms, Zeros(TERMINATOR_BYTES), i);
    if length > 0 && offset < |body| {
      var start := m.rawOffset + offset;
      var end := start + Min(length, |body| - offset);
      ReadWindow(t, p, parts, start, end);
      WindowOfCarried(Raw(parts), m.rawOffset, body, offset, length);
    }
  }

  lemma {:induction false} WindowOfCarried(raw: seq<byte>, at: nat, body: seq<byte>, offset: nat, length: nat)
    requires at + |body| <= |raw| && raw[at..at + |body|] == body && length > 0 && offset < |body|
    ensures Window(raw, at + offset, at + offset + Min(length, |body| - offset)) == BodySliceOf(body, offset, length)
  {
    SliceInside(raw, at, at + |body|, offset, offset + Min(length, |body| - offset));
  }

  lemma {:induction false} SliceInside<T>(s: seq<T>, lo: nat, hi: nat, i: nat, j: nat)
    requires lo <= hi <= |s| && i <= j <= hi - lo
    ensures s[lo..hi][i..j] == s[lo + i..lo + j]
  {
    var inner := s[lo..hi];
    forall k | 0 <= k < j - i ensures inner[i..j][k] == s[lo + i..lo + j][k] {
      assert inner[i..j][k] == inner[i + k] == s[lo + (i + k)];
    }
  }

  lemma {:induction false} ReadWindow(t: Tools, p: Packed, parts: seq<Part>, start: nat, end: nat)
    requires t.Contract() && WellBuilt(t, p, parts) && start < end <= |Raw(parts)|
    ensures Hits(p.table.frames, start, end) != []
    ensures GatheredWindow(Gather(t, p.data, Hits(p.table.frames, start, end), start, end), Raw(parts),
                           HitBytes(parts, |parts|, start, end), start, end)
  {
    BuiltBasics(t, p, parts);
    hide *;
    WholeWindow(t, p, parts, start, end);
    SomethingHit(t, p.data, p.table.frames, Raw(parts), HitBytes(parts, |parts|, start, end), start, end);
  }

  lemma {:induction false} WholeWindow(t: Tools, p: Packed, parts: seq<Part>, start: nat, end: nat)
    requires t.HashContract() && WellBuilt(t, p, parts) && |p.table.frames| == |parts| && start < end
    ensures GatheredWindow(Gather(t, p.data, Hits(p.table.frames, start, end), start, end), Raw(parts),
                           HitBytes(parts, |parts|, start, end), start, end)
  {
    hide *;
    GatherIsWindow(t, p, parts, |parts|, start, end);
    assert p.table.frames[..|parts|] == p.table.frames && parts[..|parts|] == parts;
  }

  lemma {:induction false} SomethingHit(t: Tools, data: seq<byte>, frames: seq<SeekFrame>, raw: seq<byte>, bytes: nat,
                                        start: nat, end: nat)
    requires start < end <= |raw| && GatheredWindow(Gather(t, data, Hits(frames, start, end), start, end), raw, bytes, start, end)
    ensures Hits(frames, start, end) != []
  {
    hide *;
    GatherNothing(t, data, start, end);
    NotNothing(raw, bytes, start, end);
  }

  lemma {:induction false} BuiltBasics(t: Tools, p: Packed, parts: seq<Part>)
    requires t.Contract() && WellBuilt(t, p, parts)
    ensures t.HashContract() && |p.table.frames| == |parts|
  {
    hide HeaderContract, t.CodecContract, t.TarContract, t.HashContract, t.JsonContract, ValidTable;
  }

  lemma {:induction false} NotNothing(raw: seq<byte>, bytes: nat, start: nat, end: nat)
    requires start < end <= |raw|
    ensures !GatheredWindow(Ok(Gathered([], 0)), raw, bytes, start, end)
  {}

  lemma {:induction false} GatherNothing(t: Tools, data: seq<byte>, start: int, end: int)
    ensures Gather(t, data, [], start, end) == Ok(Gathered([], 0))
  {}

  /** A pack that holds members in single frames opens as its own table and verifies. */
  lemma {:induction false} HeldPackOpensAndVerifies(t: Tools, p: Packed, parts: seq<Part>, ms: seq<Member>)
    requires t.Contract() && Holds(t, p, parts, ms) && SingleFrames(t, parts)
    ensures OpensAs(t, p.data, p.table) && Verifies(t, p.data, p.table)
  {
    hide HeaderContract, t.CodecContract, t.TarContract, t.HashContract, t.JsonContract, WellBuilt, SingleFrames, RowsOf,
         AllTarAccept;
    SingleFramesOpen(t, p, parts);
    BuiltPacksVerify(t, p, parts);
  }

  /** A repacked pack consists of single frames, so it always opens. */
  lemma {:induction false} RepackedIsSingleFrames(t: Tools, parts: seq<Part>)
    requires AllSourced(t, [], parts)
    ensures SingleFrames(t, parts)
  {
    hide ContentFrame;
    forall i | 0 <= i < |parts| ensures ContentFrame(t.header, parts[i].comp) { assert Sourced(t, [], parts[i]); }
  }

  /**
   * Layout: a pack's frames follow each other without a gap in the compressed and in the raw stream, from
   * the first byte of the file and of the TAR stream to the seek table and to TarSize; members lie apart,
   * in order, at 512-byte boundaries, and TarSize is a whole number of blocks.
   */
  lemma {:induction false} HeldLayout(t: Tools, p: Packed, parts: seq<Part>, ms: seq<Member>, k: nat, i: nat, j: nat)
    requires t.Contract() && Holds(t, p, parts, ms) && k < |parts| && i <= j < |ms|
    ensures var f := FramesOf(t, parts)[k];
            && |p.table.frames| == |parts| && p.table.frames[k] == f
            && f.compressedOffset == CompressedEnd(p.table.frames, k) && f.rawOffset == RawEnd(p.table.frames, k)
            && CompressedEnd(p.table.frames, |parts|) + |SkipFrame(t.marshal(p.table))| == |p.data|
            && RawEnd(p.table.frames, |parts|) == p.table.tarSize == |Raw(parts)|
    ensures var m, n := p.table.members[i], p.table.members[j];
            m.rawOffset % 512 == 0 && (i < j ==> m.rawOffset + m.size <= n.rawOffset)
    ensures p.table.tarSize % 512 == 0
  {
    FrameEnds(t, p, parts, k);
    hide *;
    HeldMembers(t, p, parts, ms, i, j);
  }

  lemma {:induction false} FrameEnds(t: Tools, p: Packed, parts: seq<Part>, k: nat)
    requires WellBuilt(t, p, parts) && k < |parts|
    ensures var f := FramesOf(t, parts)[k];
            && |p.table.frames| == |parts| && p.table.frames[k] == f
            && f.compressedOffset == CompressedEnd(p.table.frames, k) && f.rawOffset == RawEnd(p.table.frames, k)
            && CompressedEnd(p.table.frames, |parts|) + |SkipFrame(t.marshal(p.table))| == |p.data|
            && RawEnd(p.table.frames, |parts|) == p.table.tarSize == |Raw(parts)|
  {
    hide SkipFrame, MemberFits, FrameFits, Raw, Compressed, TrimSpace, RawEnd, CompressedEnd;
    EndsOfFrames(t, parts, k);
    EndsOfFrames(t, parts, |parts|);
    assert parts[..|parts|] == parts;
  }

  lemma {:induction false} HeldMembers(t: Tools, p: Packed, parts: seq<Part>, ms: seq<Member>, i: nat, j: nat)
    requires t.Contract() && Holds(t, p, parts, ms) && i <= j < |ms| && p.table.tarSize == |Raw(parts)|
    ensures var m, n := p.table.members[i], p.table.members[j];
            m.rawOffset % 512 == 0 && (i < j ==> m.rawOffset + m.size <= n.rawOffset)
    ensures p.table.tarSize % 512 == 0
  {
    hide t.Contract, WellBuilt, TarAccepts, TarStream, RowsOf, Carries, Zeros;
    RowsCarryBodies(t, ms, [], i);
    if i < j { RowsAreDisjoint(t, ms, i, j); }
    TarIsWholeBlocks(t, ms);
    assert |WholeTar(t, ms)| == |TarStream(t, ms)| + TERMINATOR_BYTES;
  }
}
