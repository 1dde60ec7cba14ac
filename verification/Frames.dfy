/**
 * The physical frame scanner of internal/archive/frames.go over the frame grammar of RFC 8878:
 * Zstandard frames (section 3.1.1), blocks (section 3.1.1.2) and skippable frames (section 3.1.2).
 */
module Frames {
  import opened Prelude

  newtype byte = b: int | 0 <= b < 256

  const ZSTD_MAGIC := 0xFD2FB528
  const SKIPPABLE_MAGIC_MIN := 0x184D2A50
  const SKIPPABLE_MAGIC_MAX := 0x184D2A5F
  const MAX_SEEK_TABLE_BYTES := 16 * 1024 * 1024

  /** What the library's header decoder reports about the start of a content frame. */
  datatype Header = Header(size: nat, hasCheckSum: bool)

  type HeaderDecoder = seq<byte> -> Option<Header>

  function Le32(d: seq<byte>, off: nat): (v: nat)
    requires off + 4 <= |d|
  {
    d[off] as int + 0x100 * d[off + 1] as int + 0x10000 * d[off + 2] as int + 0x1000000 * d[off + 3] as int
  }

  function Le24(d: seq<byte>, off: nat): nat
    requires off + 3 <= |d|
  {
    d[off] as int + 0x100 * d[off + 1] as int + 0x10000 * d[off + 2] as int
  }

  /**
   * The header is read from the front of its input: it fits in what was given, covers at least the magic
   * and the descriptor byte, and any other input with the same header bytes decodes alike.
   */
  ghost predicate HeaderContract(header: HeaderDecoder) {
    && (forall s :: header(s).Some? && IsContentMagic(s) ==>
          5 <= header(s).value.size <= |s|)
    && (forall s, t :: header(s).Some? && header(s).value.size <= |s| && s[..header(s).value.size] <= t ==>
          header(t) == header(s))
  }

  predicate IsContentMagic(s: seq<byte>) {
    |s| >= 4 && Le32(s, 0) == ZSTD_MAGIC
  }

  // ---- The frame grammar -------------------------------------------------------------------------

  predicate LastBlock(h: nat) { h % 2 == 1 }

  function BlockType(h: nat): nat { h / 2 % 4 }

  /** Bytes that follow a block header: Block_Size for raw and compressed blocks, one byte for RLE. */
  function BlockBody(h: nat): nat { if BlockType(h) == 1 then 1 else h / 8 }

  /** s is a list of blocks of which exactly the last carries the last-block flag. */
  predicate Blocks(s: seq<byte>)
    decreases |s|
  {
    |s| >= 3 && BlockType(Le24(s, 0)) != 3 &&
    var n := 3 + BlockBody(Le24(s, 0));
    n <= |s| && if LastBlock(Le24(s, 0)) then n == |s| else Blocks(s[n..])
  }

  /** The blocks, followed by the four bytes of Content_Checksum when the header announces one. */
  predicate FrameTail(tail: seq<byte>, hasCheckSum: bool) {
    if hasCheckSum then |tail| >= 4 && Blocks(tail[..|tail| - 4]) else Blocks(tail)
  }

  predicate ContentFrame(header: HeaderDecoder, f: seq<byte>) {
    IsContentMagic(f) && header(f).Some? && header(f).value.size <= |f| &&
    FrameTail(f[header(f).value.size..], header(f).value.hasCheckSum)
  }

  predicate IsSkippableMagic(s: seq<byte>) {
    |s| >= 4 && SKIPPABLE_MAGIC_MIN <= Le32(s, 0) <= SKIPPABLE_MAGIC_MAX
  }

  predicate SkippableFrame(f: seq<byte>) {
    |f| >= 8 && IsSkippableMagic(f) && |f| == 8 + Le32(f, 4) && Le32(f, 4) <= MAX_SEEK_TABLE_BYTES
  }

  predicate Frame(header: HeaderDecoder, f: seq<byte>) {
    ContentFrame(header, f) || SkippableFrame(f)
  }

  predicate AllFrames(header: HeaderDecoder, fs: seq<seq<byte>>) {
    forall i :: 0 <= i < |fs| ==> Frame(header, fs[i])
  }

  // ---- Where a frame that starts at an offset must end -------------------------------------------

  function BlocksEnd(d: seq<byte>, pos: nat): Option<nat>
    decreases |d| - pos
  {
    if pos + 3 > |d| || BlockType(Le24(d, pos)) == 3 then None
    else
      var n := pos + 3 + BlockBody(Le24(d, pos));
      if n > |d| then None
      else if LastBlock(Le24(d, pos)) then Some(n)
      else BlocksEnd(d, n)
  }

  lemma {:induction false} BlocksEndMeaning(d: seq<byte>, pos: nat, e: nat)
    ensures BlocksEnd(d, pos) == Some(e) <==> pos < e <= |d| && Blocks(d[pos..e])
    decreases |d| - pos
  {
    if pos + 3 <= |d| {
      var n := pos + 3 + BlockBody(Le24(d, pos));
      if n <= |d| && n > pos {
        BlocksEndMeaning(d, n, e);
      }
      if pos + 3 <= e <= |d| {
        var s := d[pos..e];
        assert Le24(s, 0) == Le24(d, pos);
        if n <= e { assert s[n - pos..] == d[n..e]; }
      }
    }
  }

  function TailEnd(d: seq<byte>, pos: nat, hasCheckSum: bool): Option<nat> {
    match BlocksEnd(d, pos)
    case None => None
    case Some(e) => if !hasCheckSum then Some(e) else if e + 4 > |d| then None else Some(e + 4)
  }

  lemma {:induction false} TailEndMeaning(d: seq<byte>, pos: nat, hasCheckSum: bool, e: nat)
    ensures TailEnd(d, pos, hasCheckSum) == Some(e) <==> pos < e <= |d| && FrameTail(d[pos..e], hasCheckSum)
  {
    if hasCheckSum {
      if e >= 4 { BlocksEndMeaning(d, pos, e - 4); }
      if pos + 4 <= e <= |d| { assert d[pos..e][..e - pos - 4] == d[pos..e - 4]; }
    } else {
      BlocksEndMeaning(d, pos, e);
    }
  }

  function ContentEnd(header: HeaderDecoder, d: seq<byte>, off: nat): Option<nat>
    requires off <= |d|
  {
    if !IsContentMagic(d[off..]) || header(d[off..]).None? then None
    else
      var h := header(d[off..]).value;
      TailEnd(d, off + h.size, h.hasCheckSum)
  }

  /** The frame that starts at off ends at e exactly when data[off..e] is a content frame. */
  lemma {:induction false} ContentEndMeaning(header: HeaderDecoder, d: seq<byte>, off: nat, e: nat)
    requires HeaderContract(header) && off <= |d|
    ensures ContentEnd(header, d, off) == Some(e) <==> off < e <= |d| && ContentFrame(header, d[off..e])
  {
    if ContentEnd(header, d, off) == Some(e) { ContentEndSound(header, d, off, e); }
    if off < e <= |d| && ContentFrame(header, d[off..e]) { ContentEndComplete(header, d, off, e); }
  }

  lemma {:induction false} HeaderFits(header: HeaderDecoder, s: seq<byte>)
    requires HeaderContract(header) && IsContentMagic(s) && header(s).Some?
    ensures 5 <= header(s).value.size <= |s|
  {}

  lemma {:induction false} HeaderAgrees(header: HeaderDecoder, s: seq<byte>, t: seq<byte>)
    requires HeaderContract(header) && IsContentMagic(s) && header(s).Some?
    requires header(s).value.size <= |s| && s[..header(s).value.size] <= t
    ensures IsContentMagic(t) && header(t) == header(s)
  {
    HeaderFits(header, s);
    var n := header(s).value.size;
    assert forall i :: 0 <= i < 4 ==> s[i] == s[..n][i] == t[i];
  }

  lemma {:induction false} ContentEndSound(header: HeaderDecoder, d: seq<byte>, off: nat, e: nat)
    requires HeaderContract(header) && off <= |d|
    requires ContentEnd(header, d, off) == Some(e)
    ensures off < e <= |d| && ContentFrame(header, d[off..e])
  {
    hide HeaderContract, IsContentMagic, FrameTail, TailEnd;
    var rest := d[off..];
    var h := header(rest).value;
    TailEndMeaning(d, off + h.size, h.hasCheckSum, e);
    var f := d[off..e];
    HeaderFits(header, rest);
    assert rest[..h.size] == f[..h.size];
    HeaderAgrees(header, rest, f);
    assert f[h.size..] == d[off + h.size..e];
  }

  lemma {:induction false} ContentEndComplete(header: HeaderDecoder, d: seq<byte>, off: nat, e: nat)
    requires HeaderContract(header) && off < e <= |d| && ContentFrame(header, d[off..e])
    ensures ContentEnd(header, d, off) == Some(e)
  {
    hide HeaderContract, IsContentMagic, FrameTail, TailEnd;
    var f, rest := d[off..e], d[off..];
    var h := header(f).value;
    HeaderFits(header, f);
    assert f[..h.size] == rest[..h.size];
    HeaderAgrees(header, f, rest);
    assert f[h.size..] == d[off + h.size..e];
    EmptyTail(h.hasCheckSum);
    TailEndMeaning(d, off + h.size, h.hasCheckSum, e);
  }

  lemma {:induction false} EmptyTail(hasCheckSum: bool)
    ensures !FrameTail([], hasCheckSum)
  {}

  /** Where any frame that starts at off ends: the step of the scanner. */
  function FrameEnd(header: HeaderDecoder, d: seq<byte>, off: nat): Option<nat>
    requires off <= |d|
  {
    if IsSkippableMagic(d[off..]) then
      if off + 8 > |d| || off + 8 + Le32(d, off + 4) > |d| || Le32(d, off + 4) > MAX_SEEK_TABLE_BYTES then None
      else Some(off + 8 + Le32(d, off + 4))
    else ContentEnd(header, d, off)
  }

  lemma {:induction false} FrameEndMeaning(header: HeaderDecoder, d: seq<byte>, off: nat, e: nat)
    requires HeaderContract(header) && off <= |d|
    ensures FrameEnd(header, d, off) == Some(e) <==> off < e <= |d| && Frame(header, d[off..e])
  {
    ContentEndMeaning(header, d, off, e);
    hide HeaderContract, ContentEnd;
    if off + 4 <= e <= |d| {
      SameMagic(d, off, e);
    }
  }

  /** The first word, and for a skippable frame its length field, read the same in the frame and in the stream. */
  lemma {:induction false} SameMagic(d: seq<byte>, off: nat, e: nat)
    requires off + 4 <= e <= |d|
    ensures Le32(d[off..e], 0) == Le32(d[off..], 0) == Le32(d, off)
    ensures off + 8 <= e ==> Le32(d[off..e], 4) == Le32(d, off + 4)
  {}

  /** The end of a frame depends on no byte outside the frame, and on no offset. */
  lemma {:induction false} FrameEndIsLocal(header: HeaderDecoder, d: seq<byte>, off: nat, e: nat,
                                           d': seq<byte>, off': nat)
    requires HeaderContract(header) && off < e <= |d| && off' + e - off <= |d'|
    requires FrameEnd(header, d, off) == Some(e)
    requires d'[off'..off' + e - off] == d[off..e]
    ensures FrameEnd(header, d', off') == Some(off' + e - off)
  {
    hide HeaderContract, FrameEnd, Frame;
    FrameEndMeaning(header, d, off, e);
    FrameEndMeaning(header, d', off', off' + e - off);
  }

  // ---- Decompositions are unique ------------------------------------------------------------------

  /** No frame is a proper prefix of another. */
  lemma {:induction false} FramesArePrefixFree(header: HeaderDecoder, f: seq<byte>, g: seq<byte>, x: seq<byte>, y: seq<byte>)
    requires HeaderContract(header) && Frame(header, f) && Frame(header, g)
    requires f + x == g + y
    ensures f == g && x == y
  {
    FrameNotEmpty(header, f);
    FrameNotEmpty(header, g);
    hide HeaderContract, FrameEnd, Frame;
    var d := f + x;
    assert d[0..|f|] == f && d[0..|g|] == g;
    FrameEndMeaning(header, d, 0, |f|);
    FrameEndMeaning(header, d, 0, |g|);
    assert x == d[|f|..] && y == d[|g|..];
  }

  lemma {:induction false} FrameNotEmpty(header: HeaderDecoder, f: seq<byte>)
    requires Frame(header, f)
    ensures |f| >= 4
  {}

  /** A stream of frames has one decomposition: a known beginning of it extends to any other. */
  lemma {:induction false} DecompositionIsUnique(header: HeaderDecoder, fs: seq<seq<byte>>, rest: seq<byte>,
                                                 gs: seq<seq<byte>>) returns (more: seq<seq<byte>>)
    requires HeaderContract(header) && AllFrames(header, fs) && AllFrames(header, gs)
    requires Flatten(fs) + rest == Flatten(gs)
    ensures gs == fs + more && rest == Flatten(more)
    decreases |fs|
  {
    if fs == [] {
      more := gs;
      assert Flatten(fs) + rest == rest;
    } else {
      FirstFrameIsUnique(header, fs, rest, gs);
      hide *;
      more := DecompositionIsUnique(header, fs[1..], rest, gs[1..]);
      ConsAppend(fs, gs, more);
    }
  }

  lemma {:induction false} FirstFrameIsUnique(header: HeaderDecoder, fs: seq<seq<byte>>, rest: seq<byte>,
                                              gs: seq<seq<byte>>)
    requires HeaderContract(header) && AllFrames(header, fs) && AllFrames(header, gs)
    requires fs != [] && Flatten(fs) + rest == Flatten(gs)
    ensures gs != [] && fs[0] == gs[0] && Flatten(fs[1..]) + rest == Flatten(gs[1..])
    ensures AllFrames(header, fs[1..]) && AllFrames(header, gs[1..])
  {
    FrameNotEmpty(header, fs[0]);
    assert gs != [] by { assert |Flatten(fs)| >= |fs[0]|; }
    assert Frame(header, fs[0]) && Frame(header, gs[0]);
    var x := Flatten(fs[1..]) + rest;
    FlattenCons(fs, rest);
    hide HeaderContract, Frame;
    FramesArePrefixFree(header, fs[0], gs[0], x, Flatten(gs[1..]));
  }

  // ---- The scanner ----------------------------------------------------------------------------------

  /** One physical frame: where it lies and, when skippable, where its user data lies. */
  datatype FrameLoc = FrameLoc(offset: nat, size: nat, skippable: bool, payloadOffset: nat, payloadSize: nat)

  datatype ScanError =
    | EmptyPack | TruncatedMagic | TruncatedSkippableHeader | TruncatedSkippablePayload | SkippableTooLarge
    | InvalidMagic | InvalidHeader | TruncatedBlockHeader | ReservedBlockType | TruncatedBlockBody | TruncatedCheckSum

  function LocAt(off: nat, f: seq<byte>): FrameLoc {
    if IsSkippableMagic(f) && |f| >= 8 then FrameLoc(off, |f|, true, off + 8, |f| - 8)
    else FrameLoc(off, |f|, false, 0, 0)
  }

  /** The locations a list of frames has when laid end to end. */
  function LocsOf(fs: seq<seq<byte>>): (locs: seq<FrameLoc>)
    ensures |locs| == |fs|
  {
    if fs == [] then []
    else LocsOf(fs[..|fs| - 1]) + [LocAt(|Flatten(fs[..|fs| - 1])|, fs[|fs| - 1])]
  }

  ghost predicate IsFrameStream(header: HeaderDecoder, data: seq<byte>) {
    exists fs :: AllFrames(header, fs) && Flatten(fs) == data
  }

  method ContentFrameEnd(header: HeaderDecoder, data: seq<byte>, off: nat) returns (r: Result<nat, ScanError>)
    requires HeaderContract(header) && off <= |data| && IsContentMagic(data[off..])
    ensures match r case Ok(end) => ContentEnd(header, data, off) == Some(end)
                    case Err(_) => ContentEnd(header, data, off) == None
  {
    var decoded := header(data[off..]);
    if decoded.None? {
      return Err(InvalidHeader);
    }
    var h := decoded.value;
    var pos := off + h.size;
    while true
      invariant BlocksEnd(data, off + h.size) == BlocksEnd(data, pos)
      decreases |data| + 1 - pos
    {
      if pos + 3 > |data| {
        return Err(TruncatedBlockHeader);
      }
      var bheader := Le24(data, pos);
      var next := pos + 3 + BlockBody(bheader);
      if BlockType(bheader) == 3 {
        return Err(ReservedBlockType);
      }
      if next > |data| {
        return Err(TruncatedBlockBody);
      }
      if LastBlock(bheader) {
        pos := next;
        break;
      }
      pos := next;
    }
    if h.hasCheckSum {
      if pos + 4 > |data| {
        return Err(TruncatedCheckSum);
      }
      pos := pos + 4;
    }
    return Ok(pos);
  }

  ghost predicate IsNextFrame(header: HeaderDecoder, data: seq<byte>, off: nat, r: Result<FrameLoc, ScanError>)
    requires off <= |data|
  {
    match r
    case Ok(loc) =>
      var end := off + loc.size;
      FrameEnd(header, data, off) == Some(end) && end <= |data| && loc == LocAt(off, data[off..end])
    case Err(_) => FrameEnd(header, data, off) == None
  }

  /** The skippable branch of the loop. */
  method ScanSkippable(header: HeaderDecoder, data: seq<byte>, off: nat) returns (r: Result<FrameLoc, ScanError>)
    requires off < |data| && IsSkippableMagic(data[off..])
    ensures IsNextFrame(header, data, off, r)
  {
    if off + 8 > |data| {
      return Err(TruncatedSkippableHeader);
    }
    var psz := Le32(data, off + 4);
    var total := 8 + psz;
    if off + total > |data| {
      return Err(TruncatedSkippablePayload);
    }
    if psz > MAX_SEEK_TABLE_BYTES {
      return Err(SkippableTooLarge);
    }
    SameMagic(data, off, off + total);
    return Ok(FrameLoc(off, total, true, off + 8, psz));
  }

  /** One turn of the scan loop: the frame at off, or why there is none. */
  method ScanOne(header: HeaderDecoder, data: seq<byte>, off: nat) returns (r: Result<FrameLoc, ScanError>)
    requires HeaderContract(header) && off < |data|
    ensures IsNextFrame(header, data, off, r)
  {
    if off + 4 > |data| {
      NoFrameWithoutMagic(header, data, off);
      return Err(TruncatedMagic);
    }
    var magic := Le32(data, off);
    MagicAt(data, off);
    hide *;
    if SKIPPABLE_MAGIC_MIN <= magic <= SKIPPABLE_MAGIC_MAX {
      r := ScanSkippable(header, data, off);
      return;
    }
    if magic != ZSTD_MAGIC {
      NoFrameWithoutMagic(header, data, off);
      return Err(InvalidMagic);
    }
    var end := ContentFrameEnd(header, data, off);
    ContentLoc(header, data, off, end);
    if end.Err? {
      return Err(end.error);
    }
    return Ok(FrameLoc(off, end.value - off, false, 0, 0));
  }

  lemma {:induction false} MagicAt(data: seq<byte>, off: nat)
    requires off + 4 <= |data|
    ensures IsSkippableMagic(data[off..]) <==> SKIPPABLE_MAGIC_MIN <= Le32(data, off) <= SKIPPABLE_MAGIC_MAX
    ensures IsContentMagic(data[off..]) <==> Le32(data, off) == ZSTD_MAGIC
  {}

  lemma {:induction false} NoFrameWithoutMagic(header: HeaderDecoder, data: seq<byte>, off: nat)
    requires off <= |data| && !IsSkippableMagic(data[off..]) && !IsContentMagic(data[off..])
    ensures FrameEnd(header, data, off) == None
    ensures forall e :: IsNextFrame(header, data, off, Err(e))
  {}

  lemma {:induction false} ContentLoc(header: HeaderDecoder, data: seq<byte>, off: nat, r: Result<nat, ScanError>)
    requires HeaderContract(header) && off <= |data| && !IsSkippableMagic(data[off..])
    requires match r case Ok(end) => ContentEnd(header, data, off) == Some(end)
                     case Err(_) => ContentEnd(header, data, off) == None
    ensures match r case Ok(end) => off < end <= |data| &&
                                    IsNextFrame(header, data, off, Ok(FrameLoc(off, end - off, false, 0, 0)))
                    case Err(e) => IsNextFrame(header, data, off, Err(e))
  {
    if r.Ok? {
      ContentLocAt(header, data, off, r.value);
      hide HeaderContract, ContentEnd, LocAt, IsSkippableMagic;
    }
  }

  lemma {:induction false} ContentLocAt(header: HeaderDecoder, data: seq<byte>, off: nat, end: nat)
    requires HeaderContract(header) && off <= |data| && ContentEnd(header, data, off) == Some(end)
    ensures off < end <= |data| && LocAt(off, data[off..end]) == FrameLoc(off, end - off, false, 0, 0)
  {
    ContentEndMeaning(header, data, off, end);
    hide HeaderContract, ContentEnd;
    assert IsContentMagic(data[off..end]);
  }

  /**
   * The scan succeeds on exactly the non-empty concatenations of well-formed frames, and reports the
   * locations of the one decomposition such data has.
   */
  method ScanFrames(header: HeaderDecoder, data: seq<byte>) returns (r: Result<seq<FrameLoc>, ScanError>)
    requires HeaderContract(header)
    ensures r.Ok? <==> data != [] && IsFrameStream(header, data)
    ensures r.Ok? ==> forall fs :: AllFrames(header, fs) && Flatten(fs) == data ==> r.value == LocsOf(fs)
  {
    hide *;
    if |data| == 0 {
      return Err(EmptyPack);
    }
    var out, off := [], 0;
    ghost var fs: seq<seq<byte>> := [];
    StartScan(header, data);
    while off < |data|
      invariant off <= |data| && Scanned(header, data, fs, off) && out == LocsOf(fs)
    {
      var one := ScanOne(header, data, off);
      if one.Err? {
        StuckScan(header, data, fs, off, one);
        return Err(one.error);
      }
      NextFrameFacts(header, data, off, one);
      ghost var f := data[off..off + one.value.size];
      ScannedSnoc(header, data, fs, off, off + one.value.size);
      LocsOfSnoc(header, data, fs, off, f);
      fs := fs + [f];
      out, off := out + [one.value], off + one.value.size;
    }
    CompleteScan(header, data, fs);
    return Ok(out);
  }

  /** fs are the frames found so far and off the end of the last of them. */
  ghost predicate Scanned(header: HeaderDecoder, data: seq<byte>, fs: seq<seq<byte>>, off: nat) {
    off <= |data| && AllFrames(header, fs) && Flatten(fs) == data[..off]
  }

  lemma {:induction false} StartScan(header: HeaderDecoder, data: seq<byte>)
    ensures Scanned(header, data, [], 0) && LocsOf([]) == []
  {}

  lemma {:induction false} NextFrameFacts(header: HeaderDecoder, data: seq<byte>, off: nat,
                                          one: Result<FrameLoc, ScanError>)
    requires HeaderContract(header) && off < |data| && one.Ok? && IsNextFrame(header, data, off, one)
    ensures one.value.size > 0 && off + one.value.size <= |data|
    ensures Frame(header, data[off..off + one.value.size])
    ensures one.value == LocAt(off, data[off..off + one.value.size])
  {
    hide HeaderContract, Frame, FrameEnd, LocAt;
    FrameEndMeaning(header, data, off, off + one.value.size);
  }

  lemma {:induction false} LocsOfSnoc(header: HeaderDecoder, data: seq<byte>, fs: seq<seq<byte>>, off: nat, f: seq<byte>)
    requires Scanned(header, data, fs, off)
    ensures LocsOf(fs + [f]) == LocsOf(fs) + [LocAt(off, f)]
  {
    hide AllFrames;
    assert |Flatten(fs)| == off;
    assert (fs + [f])[..|fs|] == fs;
  }

  lemma {:induction false} ScannedSnoc(header: HeaderDecoder, data: seq<byte>, fs: seq<seq<byte>>, off: nat, end: nat)
    requires Scanned(header, data, fs, off) && off < end <= |data| && Frame(header, data[off..end])
    ensures Scanned(header, data, fs + [data[off..end]], end)
  {
    hide Frame;
    FlattenSnoc(fs, data[off..end]);
    assert data[..off] + data[off..end] == data[..end];
  }

  /** Where the scanner finds no frame, no decomposition of the data exists at all. */
  lemma {:induction false} StuckScan(header: HeaderDecoder, data: seq<byte>, fs: seq<seq<byte>>, off: nat,
                                     one: Result<FrameLoc, ScanError>)
    requires HeaderContract(header) && off < |data| && Scanned(header, data, fs, off)
    requires one.Err? && IsNextFrame(header, data, off, one)
    ensures !IsFrameStream(header, data)
  {
    if IsFrameStream(header, data) {
      var gs :| AllFrames(header, gs) && Flatten(gs) == data;
      hide HeaderContract, Frame, FrameEnd;
      assert data[..off] + data[off..] == data;
      var more := DecompositionIsUnique(header, fs, data[off..], gs);
      assert forall i :: 0 <= i < |more| ==> more[i] == gs[|fs| + i];
      NextFrameExists(header, data, off, more);
    }
  }

  lemma {:induction false} NextFrameExists(header: HeaderDecoder, data: seq<byte>, off: nat, rest: seq<seq<byte>>)
    requires HeaderContract(header) && off < |data|
    requires AllFrames(header, rest) && data[off..] == Flatten(rest)
    ensures FrameEnd(header, data, off).Some?
  {
    assert rest != [];
    FrameNotEmpty(header, rest[0]);
    hide HeaderContract, Frame, FrameEnd;
    var end := off + |rest[0]|;
    assert data[off..end] == data[off..][..|rest[0]|] == rest[0];
    FrameEndMeaning(header, data, off, end);
  }

  lemma {:induction false} CompleteScan(header: HeaderDecoder, data: seq<byte>, fs: seq<seq<byte>>)
    requires HeaderContract(header) && Scanned(header, data, fs, |data|)
    ensures IsFrameStream(header, data)
    ensures forall gs :: AllFrames(header, gs) && Flatten(gs) == data ==> gs == fs
  {
    hide HeaderContract, Frame;
    assert Flatten(fs) == data;
    forall gs | AllFrames(header, gs) && Flatten(gs) == data
      ensures gs == fs
    {
      SameStreamSameFrames(header, fs, gs);
    }
  }

  lemma {:induction false} SameStreamSameFrames(header: HeaderDecoder, fs: seq<seq<byte>>, gs: seq<seq<byte>>)
    requires HeaderContract(header) && AllFrames(header, fs) && AllFrames(header, gs)
    requires Flatten(fs) == Flatten(gs)
    ensures fs == gs
  {
    hide HeaderContract, Frame;
    assert Flatten(fs) + [] == Flatten(gs) && Flatten(gs) + [] == Flatten(fs);
    var more := DecompositionIsUnique(header, fs, [], gs);
    var less := DecompositionIsUnique(header, gs, [], fs);
  }

  // ---- The seek-table frame -----------------------------------------------------------------------

  function Put32(v: nat): (b: seq<byte>)
    requires v < 0x1_0000_0000
    ensures |b| == 4 && Le32(b, 0) == v
  {
    assert v / 0x1000000 < 0x100;
    [(v % 0x100) as byte, (v / 0x100 % 0x100) as byte, (v / 0x10000 % 0x100) as byte, (v / 0x1000000) as byte]
  }

  /** The one skippable frame the writers emit: magic 0x184D2A50, length, payload. */
  function SkipFrame(payload: seq<byte>): (f: seq<byte>)
    requires |payload| <= MAX_SEEK_TABLE_BYTES
    ensures SkippableFrame(f) && f[8..] == payload
  {
    var f := Put32(SKIPPABLE_MAGIC_MIN) + Put32(|payload|) + payload;
    assert Le32(f, 0) == Le32(Put32(SKIPPABLE_MAGIC_MIN), 0) && Le32(f, 4) == Le32(Put32(|payload|), 0);
    f
  }

  /** writeSkippableFrame fills a fresh buffer with magic, length and payload. */
  method WriteSkippableFrame(payload: seq<byte>) returns (r: Option<seq<byte>>)
    ensures r == if |payload| <= MAX_SEEK_TABLE_BYTES then Some(SkipFrame(payload)) else None
  {
    if |payload| > MAX_SEEK_TABLE_BYTES {
      return None;
    }
    var out := new byte[8 + |payload|];
    var magic, length := Put32(SKIPPABLE_MAGIC_MIN), Put32(|payload|);
    forall i | 0 <= i < 4 { out[i] := magic[i]; }
    forall i | 0 <= i < 4 { out[4 + i] := length[i]; }
    forall i | 0 <= i < |payload| { out[8 + i] := payload[i]; }
    assert out[..] == SkipFrame(payload);
    return Some(out[..]);
  }

  // ---- A header decoder -----------------------------------------------------------------------------

  /** Section 3.1.1.1 of RFC 8878: the lengths announced by Frame_Header_Descriptor. */
  function RfcHeader(s: seq<byte>): Option<Header> {
    if !IsContentMagic(s) || |s| < 5 || s[4] as int / 8 % 2 == 1 then None
    else
      var d := s[4] as int;
      var singleSegment := d / 32 % 2 == 1;
      var dictionary := [0, 1, 2, 4][d % 4];
      var contentSize := if d / 64 == 0 then (if singleSegment then 1 else 0) else [0, 2, 4, 8][d / 64];
      var size := 5 + (if singleSegment then 0 else 1) + dictionary + contentSize;
      if |s| < size then None else Some(Header(size, d / 4 % 2 == 1))
  }

  /** The header grammar of the RFC is one decoder that keeps the contract assumed above. */
  lemma {:induction false} RfcHeaderKeepsContract()
    ensures HeaderContract(RfcHeader)
  {
    forall s, t | RfcHeader(s).Some? && s[..RfcHeader(s).value.size] <= t
      ensures RfcHeader(t) == RfcHeader(s)
    {
      var n := RfcHeader(s).value.size;
      assert forall i :: 0 <= i < 5 ==> s[i] == s[..n][i] == t[i];
    }
  }
}
