/** What verification and reading make of a pack file that is not the one written (internal/archive/reader.go). */
module PackTamper {
  import opened Prelude
  import opened Frames
  import opened Text
  import opened PackModel
  import opened PackReader

  /** SHA-256 taken as injective. */
  ghost predicate TellsApart(t: Tools) {
    && (forall x, y :: t.shaHex(x) == t.shaHex(y) ==> x == y)
    && (forall x, y :: t.shaSum(x) == t.shaSum(y) ==> x == y)
  }

  /** Row i of the table finds the compressed part i in d. */
  predicate Intact(p: Packed, parts: seq<Part>, d: seq<byte>, i: nat)
    requires i < |parts| == |p.table.frames|
  {
    var f := p.table.frames[i];
    f.compressedOffset + f.compressedSize <= |d| && 0 <= f.compressedOffset && 0 <= f.compressedSize
    && d[f.compressedOffset..f.compressedOffset + f.compressedSize] == parts[i].comp
  }

  /** What the writer recorded about part i. */
  lemma {:induction false} RowOfPart(t: Tools, p: Packed, parts: seq<Part>, i: nat)
    requires WellBuilt(t, p, parts) && i < |parts|
    ensures |p.table.frames| == |parts|
    ensures var f := p.table.frames[i];
            && f.compressedOffset == |Compressed(parts[..i])| && f.compressedSize == |parts[i].comp|
            && f.frameSHA == t.shaHex(parts[i].comp) && f.contentSHA == t.shaHex(parts[i].raw) && f.rawSize == |parts[i].raw|
            && t.dec(parts[i].comp) == Some(parts[i].raw)
  {
    hide ValidTable, SkipFrame, Compressed;
  }

  lemma {:induction false} CompressedStep(parts: seq<Part>, n: nat)
    requires n < |parts|
    ensures Compressed(parts[..n + 1]) == Compressed(parts[..n]) + parts[n].comp
  {
    hide Compressed;
    PartsSnoc(parts[..n], parts[n]);
    assert parts[..n + 1] == parts[..n] + [parts[n]];
  }

  /** The first n rows find their parts in d exactly when d begins with them. */
  lemma {:induction false} IntactIff(t: Tools, p: Packed, parts: seq<Part>, d: seq<byte>, n: nat)
    requires WellBuilt(t, p, parts) && n <= |parts| == |p.table.frames|
    ensures (forall i :: 0 <= i < n ==> Intact(p, parts, d, i)) <==> Compressed(parts[..n]) <= d
  {
    hide WellBuilt, Compressed;
    if n == 0 {
      NothingCompressed(parts);
    } else {
      IntactIff(t, p, parts, d, n - 1);
      CompressedStep(parts, n - 1);
      RowOfPart(t, p, parts, n - 1);
      OneMorePiece(d, Compressed(parts[..n - 1]), parts[n - 1].comp);
      assert Intact(p, parts, d, n - 1) <==>
             |Compressed(parts[..n - 1])| + |parts[n - 1].comp| <= |d|
             && d[|Compressed(parts[..n - 1])|..|Compressed(parts[..n - 1])| + |parts[n - 1].comp|] == parts[n - 1].comp;
      AllBut(p, parts, d, n);
    }
  }

  lemma {:induction false} AllBut(p: Packed, parts: seq<Part>, d: seq<byte>, n: nat)
    requires 0 < n <= |parts| == |p.table.frames|
    ensures (forall i :: 0 <= i < n ==> Intact(p, parts, d, i))
        <==> (forall i :: 0 <= i < n - 1 ==> Intact(p, parts, d, i)) && Intact(p, parts, d, n - 1)
  {
    hide Intact;
  }

  lemma {:induction false} NothingCompressed(parts: seq<Part>)
    ensures Compressed(parts[..0]) == []
  {
    assert Comps(parts[..0]) == [];
  }

  lemma {:induction false} OneMorePiece<T>(d: seq<T>, a: seq<T>, b: seq<T>)
    ensures a + b <= d <==> a <= d && |a| + |b| <= |d| && d[|a|..|a| + |b|] == b
  {
    if a + b <= d {
      assert d[..|a| + |b|] == a + b;
      assert d[|a|..|a| + |b|] == d[..|a| + |b|][|a|..];
    }
    if a <= d && |a| + |b| <= |d| && d[|a|..|a| + |b|] == b { assert d[..|a| + |b|] == d[..|a|] + d[|a|..|a| + |b|]; }
  }

  lemma {:induction false} VerifiedRowIsIntact(t: Tools, p: Packed, parts: seq<Part>, d: seq<byte>, i: nat)
    requires t.HashContract() && TellsApart(t) && WellBuilt(t, p, parts) && i < |parts| == |p.table.frames|
    ensures FrameVerifies(t, d, p.table.frames[i]) <==> Intact(p, parts, d, i)
    ensures Intact(p, parts, d, i) ==> FrameBytes(d, p.table.frames[i]) == parts[i].comp
  {
    hide WellBuilt, Compressed;
    RowOfPart(t, p, parts, i);
  }

  lemma {:induction false} CoveredIs(t: Tools, p: Packed, parts: seq<Part>, d: seq<byte>, n: nat)
    requires t.HashContract() && TellsApart(t) && WellBuilt(t, p, parts) && n <= |parts| == |p.table.frames|
    requires forall i :: 0 <= i < n ==> Intact(p, parts, d, i)
    ensures Covered(d, p.table.frames, n) == Compressed(parts[..n])
  {
    hide WellBuilt, Compressed, FrameBytes, FrameVerifies, t.HashContract;
    if n == 0 {
      NothingCompressed(parts);
    } else {
      CoveredIs(t, p, parts, d, n - 1);
      VerifiedRowIsIntact(t, p, parts, d, n - 1);
      CompressedStep(parts, n - 1);
    }
  }

  /**
   * Tamper evidence: under the table that was written, verification accepts exactly the data that begins with all the
   * compressed frames, byte for byte.
   */
  lemma {:induction false} TamperEvident(t: Tools, p: Packed, parts: seq<Part>, d: seq<byte>)
    requires t.HashContract() && TellsApart(t) && WellBuilt(t, p, parts)
    ensures Verifies(t, d, p.table) <==> Compressed(parts) <= d
  {
    assert |p.table.frames| == |parts| && p.table.packSHA == t.shaHex(t.shaSum(Compressed(parts)));
    hide WellBuilt, Compressed, FrameVerifies;
    assert parts[..|parts|] == parts;
    IntactIff(t, p, parts, d, |parts|);
    forall i | 0 <= i < |parts| ensures FrameVerifies(t, d, p.table.frames[i]) <==> Intact(p, parts, d, i) {
      VerifiedRowIsIntact(t, p, parts, d, i);
    }
    if Compressed(parts) <= d { CoveredIs(t, p, parts, d, |parts|); }
  }

  // ---- A table that was changed -----------------------------------------------------------------------------

  /** The table with another digest for frame i. */
  function WithFrameSHA(st: SeekTable, i: nat, sha: string): SeekTable
    requires i < |st.frames|
  {
    st.(frames := st.frames[i := st.frames[i].(frameSHA := sha)])
  }

  /** Two streams cut at the same lengths are equal only piece by piece. */
  lemma {:induction false} EqualPieces(d: seq<byte>, e: seq<byte>, frames: seq<SeekFrame>, n: nat, i: nat)
    requires i < n <= |frames| && Covered(d, frames, n) == Covered(e, frames, n)
    requires forall k :: 0 <= k < n ==> InBounds(d, frames[k]) && InBounds(e, frames[k])
    ensures FrameBytes(d, frames[i]) == FrameBytes(e, frames[i])
  {
    hide *;
    PieceLength(d, frames[n - 1]);
    PieceLength(e, frames[n - 1]);
    CoveredStep(d, frames, n);
    CoveredStep(e, frames, n);
    SplitEqual(Covered(d, frames, n - 1), FrameBytes(d, frames[n - 1]), Covered(e, frames, n - 1), FrameBytes(e, frames[n - 1]));
    if i < n - 1 { EqualPieces(d, e, frames, n - 1, i); }
  }

  lemma {:induction false} CoveredStep(d: seq<byte>, frames: seq<SeekFrame>, n: nat)
    requires 0 < n <= |frames|
    ensures Covered(d, frames, n) == Covered(d, frames, n - 1) + FrameBytes(d, frames[n - 1])
  {
    hide FrameBytes;
  }

  lemma {:induction false} PieceLength(d: seq<byte>, f: SeekFrame)
    requires InBounds(d, f)
    ensures |FrameBytes(d, f)| == f.compressedSize
  {}

  lemma {:induction false} SplitEqual<T>(a: seq<T>, x: seq<T>, b: seq<T>, y: seq<T>)
    requires a + x == b + y && |x| == |y|
    ensures a == b && x == y
  {
    assert |a| == |b|;
    assert a == (a + x)[..|a|] && b == (b + y)[..|b|];
    assert x == (a + x)[|a|..] && y == (b + y)[|b|..];
  }

  lemma {:induction false} SameCovered(d: seq<byte>, st: SeekTable, i: nat, sha: string, n: nat)
    requires i < |st.frames| && n <= |st.frames|
    ensures Covered(d, WithFrameSHA(st, i, sha).frames, n) == Covered(d, st.frames, n)
  {
    hide FrameBytes, Covered;
    var frames := WithFrameSHA(st, i, sha).frames;
    if n > 0 {
      SameCovered(d, st, i, sha, n - 1);
      CoveredStep(d, frames, n);
      CoveredStep(d, st.frames, n);
      SamePiece(d, st.frames[i], sha);
    } else {
      NothingCovered(d, frames);
      NothingCovered(d, st.frames);
    }
  }

  lemma {:induction false} NothingCovered(d: seq<byte>, frames: seq<SeekFrame>)
    ensures Covered(d, frames, 0) == []
  {}

  /** Whatever the data: under a table with another digest for a frame, or for the pack, verification refuses. */
  lemma {:induction false} ChangedDigestRefused(t: Tools, p: Packed, parts: seq<Part>, d: seq<byte>, i: nat, sha: string)
    requires t.HashContract() && TellsApart(t) && WellBuilt(t, p, parts) && i < |parts| == |p.table.frames|
    ensures sha != p.table.frames[i].frameSHA ==> !Verifies(t, d, WithFrameSHA(p.table, i, sha))
    ensures sha != p.table.packSHA ==> !Verifies(t, d, p.table.(packSHA := sha))
  {
    assert p.table.packSHA == t.shaHex(t.shaSum(Compressed(parts)));
    hide WellBuilt, Compressed;
    if Verifies(t, d, p.table.(packSHA := sha)) { OtherPackSHA(t, p, parts, d, sha); }
    if Verifies(t, d, WithFrameSHA(p.table, i, sha)) && sha != p.table.frames[i].frameSHA {
      OtherFrameSHA(t, p, parts, d, i, sha);
    }
  }

  lemma {:induction false} OtherPackSHA(t: Tools, p: Packed, parts: seq<Part>, d: seq<byte>, sha: string)
    requires t.HashContract() && TellsApart(t) && WellBuilt(t, p, parts) && |parts| == |p.table.frames|
    requires Verifies(t, d, p.table.(packSHA := sha))
    ensures sha == p.table.packSHA
  {
    assert p.table.packSHA == t.shaHex(t.shaSum(Compressed(parts)));
    hide WellBuilt, Compressed, FrameVerifies;
    forall k | 0 <= k < |parts| ensures Intact(p, parts, d, k) {
      assert FrameVerifies(t, d, p.table.frames[k]);
      VerifiedRowIsIntact(t, p, parts, d, k);
    }
    CoveredIs(t, p, parts, d, |parts|);
    assert parts[..|parts|] == parts;
  }

  lemma {:induction false} OtherFrameSHA(t: Tools, p: Packed, parts: seq<Part>, d: seq<byte>, i: nat, sha: string)
    requires t.HashContract() && TellsApart(t) && WellBuilt(t, p, parts) && i < |parts| == |p.table.frames|
    requires Verifies(t, d, WithFrameSHA(p.table, i, sha))
    ensures sha == p.table.frames[i].frameSHA
  {
    var changed := WithFrameSHA(p.table, i, sha);
    CoveredByHash(t, p, parts, d, i, sha);
    hide WellBuilt, Compressed, Verifies, FrameVerifies;
    EqualPieces(d, p.data, p.table.frames, |parts|, i);
    RowOfPart(t, p, parts, i);
    PartVerifies(t, p, parts, i);
    ItsDigest(t, d, changed, i);
    SamePiece(d, p.table.frames[i], sha);
  }

  lemma {:induction false} ItsDigest(t: Tools, d: seq<byte>, st: SeekTable, i: nat)
    requires Verifies(t, d, st) && i < |st.frames|
    ensures InBounds(d, st.frames[i]) && t.shaHex(FrameBytes(d, st.frames[i])) == st.frames[i].frameSHA
  {
    assert FrameVerifies(t, d, st.frames[i]);
  }

  lemma {:induction false} SamePiece(d: seq<byte>, f: SeekFrame, sha: string)
    ensures FrameBytes(d, f.(frameSHA := sha)) == FrameBytes(d, f) && InBounds(d, f.(frameSHA := sha)) == InBounds(d, f)
  {}

  /** An accepted pack digest fixes the whole compressed stream, whatever the frame digests. */
  lemma {:induction false} CoveredByHash(t: Tools, p: Packed, parts: seq<Part>, d: seq<byte>, i: nat, sha: string)
    requires t.HashContract() && TellsApart(t) && WellBuilt(t, p, parts) && i < |parts| == |p.table.frames|
    requires Verifies(t, d, WithFrameSHA(p.table, i, sha))
    ensures Covered(d, p.table.frames, |parts|) == Covered(p.data, p.table.frames, |parts|)
    ensures forall k :: 0 <= k < |parts| ==> InBounds(d, p.table.frames[k]) && InBounds(p.data, p.table.frames[k])
  {
    assert p.table.packSHA == t.shaHex(t.shaSum(Compressed(parts)));
    hide WellBuilt, Compressed, FrameVerifies, InBounds, FrameBytes;
    var changed := WithFrameSHA(p.table, i, sha);
    forall k | 0 <= k < |parts| ensures InBounds(d, p.table.frames[k]) && InBounds(p.data, p.table.frames[k]) {
      ItsDigest(t, d, changed, k);
      SamePiece(d, p.table.frames[k], sha);
      PartIsThere(t, p, parts, k);
    }
    SameCovered(d, p.table, i, sha, |parts|);
    PartsCovered(t, p, parts, |parts|);
    assert parts[..|parts|] == parts;
  }

  lemma {:induction false} PartIsThere(t: Tools, p: Packed, parts: seq<Part>, i: nat)
    requires t.HashContract() && WellBuilt(t, p, parts) && i < |parts| == |p.table.frames|
    ensures InBounds(p.data, p.table.frames[i])
  {
    hide WellBuilt;
    PartVerifies(t, p, parts, i);
  }

  // ---- Reading from data that was changed --------------------------------------------------------------------

  /** A frame decompresses exactly when its bytes are those that were written, and then to what was compressed. */
  lemma {:induction false} DecompressedIff(t: Tools, p: Packed, parts: seq<Part>, d: seq<byte>, i: nat)
    requires t.HashContract() && TellsApart(t) && WellBuilt(t, p, parts) && i < |parts| == |p.table.frames|
    ensures Decompressed(t, d, p.table.frames[i]) == if Intact(p, parts, d, i) then Some(parts[i].raw) else None
  {
    hide WellBuilt, Compressed;
    RowOfPart(t, p, parts, i);
  }

  /** Nor does it under another size or digest of the content, or another digest of the frame. */
  lemma {:induction false} ChangedRowFails(t: Tools, p: Packed, parts: seq<Part>, i: nat, row: SeekFrame)
    requires t.HashContract() && TellsApart(t) && WellBuilt(t, p, parts) && i < |parts| == |p.table.frames|
    requires var f := p.table.frames[i];
             row.compressedOffset == f.compressedOffset && row.compressedSize == f.compressedSize
    ensures var f := p.table.frames[i];
            Decompressed(t, p.data, row).Some? <==>
            row.rawSize == f.rawSize && row.contentSHA == f.contentSHA && row.frameSHA == f.frameSHA
  {
    RowOfPart(t, p, parts, i);
    WrittenBytes(t, p, parts, i, row);
    hide WellBuilt, Compressed, FrameBytes, InBounds;
  }

  lemma {:induction false} WrittenBytes(t: Tools, p: Packed, parts: seq<Part>, i: nat, row: SeekFrame)
    requires t.HashContract() && WellBuilt(t, p, parts) && i < |parts| == |p.table.frames|
    requires var f := p.table.frames[i];
             row.compressedOffset == f.compressedOffset && row.compressedSize == f.compressedSize
    ensures InBounds(p.data, row) && FrameBytes(p.data, row) == parts[i].comp
  {
    hide WellBuilt;
    PartVerifies(t, p, parts, i);
  }

  /** What is gathered from changed data is what would have been gathered, or an error. */
  lemma {:induction false} GatherAgrees(t: Tools, d: seq<byte>, e: seq<byte>, fs: seq<SeekFrame>, start: int, end: int)
    requires forall f :: f in fs ==> Decompressed(t, d, f) == None || Decompressed(t, d, f) == Decompressed(t, e, f)
    ensures Gather(t, d, fs, start, end).Ok? ==> Gather(t, d, fs, start, end) == Gather(t, e, fs, start, end)
  {
    hide Decompressed, Clip;
    if fs != [] {
      GatherAgrees(t, d, e, fs[..|fs| - 1], start, end);
      assert fs[|fs| - 1] in fs;
    }
  }

  lemma {:induction false} HitsAreRows(frames: seq<SeekFrame>, start: int, end: int, f: SeekFrame)
    requires f in Hits(frames, start, end)
    ensures f in frames
  {
    if f in Hits(frames[..|frames| - 1], start, end) { HitsAreRows(frames[..|frames| - 1], start, end, f); }
  }

  lemma {:induction false} RowsAgree(t: Tools, p: Packed, parts: seq<Part>, d: seq<byte>, f: SeekFrame)
    requires t.HashContract() && TellsApart(t) && WellBuilt(t, p, parts) && |parts| == |p.table.frames|
    requires f in p.table.frames
    ensures Decompressed(t, d, f) == None || Decompressed(t, d, f) == Decompressed(t, p.data, f)
  {
    hide WellBuilt, Decompressed, Intact;
    var i :| 0 <= i < |parts| && p.table.frames[i] == f;
    DecompressedIff(t, p, parts, d, i);
    WrittenIsIntact(t, p, parts, i);
    DecompressedIff(t, p, parts, p.data, i);
  }

  lemma {:induction false} WrittenIsIntact(t: Tools, p: Packed, parts: seq<Part>, i: nat)
    requires t.HashContract() && WellBuilt(t, p, parts) && i < |parts| == |p.table.frames|
    ensures Intact(p, parts, p.data, i)
  {
    hide WellBuilt;
    PartVerifies(t, p, parts, i);
  }

  lemma {:induction false} HitsNeverMislead(t: Tools, p: Packed, parts: seq<Part>, d: seq<byte>, start: int, end: int)
    requires t.HashContract() && TellsApart(t) && WellBuilt(t, p, parts) && |parts| == |p.table.frames|
    ensures var hits := Hits(p.table.frames, start, end);
            Gather(t, d, hits, start, end).Ok? ==> Gather(t, d, hits, start, end) == Gather(t, p.data, hits, start, end)
  {
    hide *;
    var hits := Hits(p.table.frames, start, end);
    forall f | f in hits ensures Decompressed(t, d, f) == None || Decompressed(t, d, f) == Decompressed(t, p.data, f) {
      HitsAreRows(p.table.frames, start, end, f);
      RowsAgree(t, p, parts, d, f);
    }
    GatherAgrees(t, d, p.data, hits, start, end);
  }

  lemma {:induction false} OneRowEach(t: Tools, p: Packed, parts: seq<Part>)
    requires WellBuilt(t, p, parts)
    ensures |p.table.frames| == |parts|
  {
    hide ValidTable, Compressed, SkipFrame;
  }

  /** No read ever returns wrong bytes: from any data it returns what the pack as written would, or an error. */
  lemma {:induction false} ReadsNeverMislead(t: Tools, p: Packed, parts: seq<Part>, d: seq<byte>, entryID: string, offset: int,
                                             length: int)
    requires t.HashContract() && TellsApart(t) && WellBuilt(t, p, parts)
    requires ReadOutcome(t, d, p.table, entryID, offset, length).Ok?
    ensures ReadOutcome(t, d, p.table, entryID, offset, length) == ReadOutcome(t, p.data, p.table, entryID, offset, length)
  {
    hide *;
    OneRowEach(t, p, parts);
    forall start, end ensures GathersAlike(t, d, p.data, p.table.frames, start, end) {
      HitsNeverMislead(t, p, parts, d, start, end);
      AlikeIf(t, d, p.data, p.table.frames, start, end);
    }
    ReadsAlike(t, d, p.data, p.table, entryID, offset, length);
  }

  predicate GathersAlike(t: Tools, d: seq<byte>, e: seq<byte>, frames: seq<SeekFrame>, start: int, end: int) {
    var hits := Hits(frames, start, end);
    Gather(t, d, hits, start, end).Ok? ==> Gather(t, d, hits, start, end) == Gather(t, e, hits, start, end)
  }

  lemma {:induction false} AlikeIf(t: Tools, d: seq<byte>, e: seq<byte>, frames: seq<SeekFrame>, start: int, end: int)
    requires var hits := Hits(frames, start, end);
             Gather(t, d, hits, start, end).Ok? ==> Gather(t, d, hits, start, end) == Gather(t, e, hits, start, end)
    ensures GathersAlike(t, d, e, frames, start, end)
  {}

  lemma {:induction false} ReadsAlike(t: Tools, d: seq<byte>, e: seq<byte>, st: SeekTable, entryID: string, offset: int,
                                      length: int)
    requires forall start, end :: GathersAlike(t, d, e, st.frames, start, end)
    requires ReadOutcome(t, d, st, entryID, offset, length).Ok?
    ensures ReadOutcome(t, d, st, entryID, offset, length) == ReadOutcome(t, e, st, entryID, offset, length)
  {
    hide TrimSpace, FindFrom, Gather, Hits;
    var m := st.members[FindFrom(st.members, TrimSpace(entryID), 0).value];
    var start := m.rawOffset + offset;
    assert GathersAlike(t, d, e, st.frames, start, start + Min(length, m.size - offset));
  }
}
