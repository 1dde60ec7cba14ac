/** Sidecar indexes and when they are trusted (internal/archive/index.go). */
module PackIndexes {
  import opened Prelude
  import opened Text
  import opened Frames
  import opened PackModel

  const INDEX_MAGIC := "JMCP-IDX-V1"
  const INDEX_SCHEMA_VERSION := 1

  datatype IndexMember = IndexMember(entryID: string, name: string, size: int, contentSHA: string)

  datatype PackIndex = PackIndex(magic: string, schemaVersion: int, packID: string, packFormatVersion: int,
                                 packSizeBytes: int, packSHA: string, fileSHA: string, affinity: string,
                                 memberCount: int, frameCount: int, builtAt: string, members: seq<IndexMember>)

  function LowerAscii(c: char): char {
    if 'A' <= c <= 'Z' then ((c as int) + 32) as char else c
  }

  function Fold(s: string): string {
    seq(|s|, i requires 0 <= i < |s| => LowerAscii(s[i]))
  }

  /** strings.EqualFold, on the hexadecimal digests it is used for. */
  predicate EqualFold(a: string, b: string) {
    Fold(a) == Fold(b)
  }

  /** The pack reader and the digest, as the index and the store see them. */
  datatype Library = Library(open: seq<byte> -> Option<SeekTable>, verifies: (seq<byte>, SeekTable) -> bool,
                             shaHex: seq<byte> -> string)
  {
    /** What opens is a valid multi-frame pack, what verifies names its digest, and digests tell contents apart. */
    ghost predicate Contract() {
      && (forall d :: open(d).Some? ==> d != [] && ValidTable(open(d).value) && |open(d).value.frames| >= MIN_CONTENT_FRAMES)
      && (forall d, st :: verifies(d, st) ==> st.packSHA != [])
      && (forall d :: shaHex(d) != [])
      && (forall d, e :: EqualFold(shaHex(d), shaHex(e)) ==> d == e)
    }

    predicate Healthy(d: seq<byte>) {
      open(d).Some? && verifies(d, open(d).value)
    }
  }

  function IndexRow(m: SeekMember): IndexMember {
    IndexMember(EntryKey(m), m.name, m.size, m.contentSHA)
  }

  function IndexRows(ms: seq<SeekMember>): seq<IndexMember> {
    seq(|ms|, i requires 0 <= i < |ms| => IndexRow(ms[i]))
  }

  predicate Indexable(packID: string, data: seq<byte>, st: SeekTable) {
    TrimSpace(packID) != [] && data != [] && ValidTable(st) && st.packSHA != []
  }

  function IndexOf(lib: Library, packID: string, affinity: string, data: seq<byte>, st: SeekTable, now: string): PackIndex {
    PackIndex(INDEX_MAGIC, INDEX_SCHEMA_VERSION, packID, st.formatVersion, |data|, st.packSHA, lib.shaHex(data),
              TrimSpace(affinity), |st.members|, |st.frames|, now, IndexRows(st.members))
  }

  /** BuildIndexFromPack. */
  method BuildIndexFromPack(lib: Library, packID: string, affinity: string, data: seq<byte>, st: SeekTable, now: string)
    returns (r: Option<PackIndex>)
    ensures r == if Indexable(packID, data, st) then Some(IndexOf(lib, packID, affinity, data, st, now)) else None
  {
    hide TrimSpace, ValidTable, IndexRows;
    if TrimSpace(packID) == [] { return None; }
    if |data| == 0 { return None; }
    var ok := Validate(st);
    if !ok { return None; }
    if st.packSHA == [] { return None; }
    var members := CopyRows(st.members);
    return Some(PackIndex(INDEX_MAGIC, INDEX_SCHEMA_VERSION, packID, st.formatVersion, |data|, st.packSHA,
                          lib.shaHex(data), TrimSpace(affinity), |st.members|, |st.frames|, now, members));
  }

  method CopyRows(ms: seq<SeekMember>) returns (rows: seq<IndexMember>)
    ensures rows == IndexRows(ms)
  {
    rows := [];
    for i := 0 to |ms|
      invariant rows == IndexRows(ms)[..i]
    {
      var id := ms[i].entryID;
      if id == [] { id := ms[i].name; }
      rows := rows + [IndexMember(id, ms[i].name, ms[i].size, ms[i].contentSHA)];
    }
  }

  /** PackIndex.Validate. */
  predicate WellFormed(idx: PackIndex) {
    && idx.magic == INDEX_MAGIC && idx.schemaVersion == INDEX_SCHEMA_VERSION && TrimSpace(idx.packID) != []
    && idx.packFormatVersion == FORMAT_VERSION && idx.packSizeBytes > 0
    && idx.packSHA != [] && idx.fileSHA != [] && idx.memberCount >= 0 && idx.frameCount >= MIN_CONTENT_FRAMES
  }

  /** BindMatches. */
  predicate BindMatches(idx: PackIndex, packID: string, packSize: int, packSHA: string, fileSHA: string, version: int) {
    && WellFormed(idx) && idx.packID == TrimSpace(packID) && idx.packFormatVersion == version
    && idx.packSizeBytes == packSize && EqualFold(idx.packSHA, packSHA)
    && (fileSHA != [] ==> EqualFold(idx.fileSHA, fileSHA))
  }

  /** OpenIndexForPack: is this sidecar (None when unreadable) trusted for these pack bytes? */
  predicate Trusts(lib: Library, packID: string, data: seq<byte>, sidecar: Option<PackIndex>) {
    && data != [] && lib.open(data).Some? && sidecar.Some?
    && var st := lib.open(data).value;
       && BindMatches(sidecar.value, packID, |data|, st.packSHA, lib.shaHex(data), st.formatVersion)
       && sidecar.value.memberCount == |st.members| && sidecar.value.frameCount == |st.frames|
  }

  /** idx came out of BuildIndexFromPack, for the pack bytes d under the id packID. */
  ghost predicate BuiltFor(lib: Library, idx: PackIndex, packID: string, d: seq<byte>) {
    lib.Healthy(d) && TrimSpace(packID) != [] &&
    exists affinity, now :: idx == IndexOf(lib, packID, affinity, d, lib.open(d).value, now)
  }

  lemma {:induction false} HealthyIsIndexable(lib: Library, packID: string, d: seq<byte>)
    requires lib.Contract() && lib.Healthy(d) && TrimSpace(packID) != []
    ensures Indexable(packID, d, lib.open(d).value)
  {
    hide ValidTable, TrimSpace;
  }

  lemma {:induction false} ValidTableVersion(st: SeekTable)
    requires ValidTable(st)
    ensures st.formatVersion == FORMAT_VERSION
  {}

  lemma {:induction false} BuiltIsWellFormed(lib: Library, idx: PackIndex, packID: string, d: seq<byte>)
    requires lib.Contract() && BuiltFor(lib, idx, packID, d)
    ensures WellFormed(idx) && idx.packID == packID && idx.fileSHA == lib.shaHex(d)
    ensures BindMatches(idx, packID, |d|, lib.open(d).value.packSHA, lib.shaHex(d), FORMAT_VERSION) <==> packID == TrimSpace(packID)
  {
    hide ValidTable, TrimSpace, EqualFold;
    ValidTableVersion(lib.open(d).value);
    FoldReflexive(lib.open(d).value.packSHA);
    FoldReflexive(lib.shaHex(d));
  }

  lemma {:induction false} FoldReflexive(s: string)
    ensures EqualFold(s, s)
  {}

  lemma {:induction false} DigestsTellApart(lib: Library, d: seq<byte>, e: seq<byte>)
    requires lib.Contract() && EqualFold(lib.shaHex(d), lib.shaHex(e))
    ensures d == e
  {
    hide ValidTable, EqualFold;
  }

  /**
   * A sidecar built for (id, d) is trusted for (packID, data) exactly when the bytes are the same and
   * the id it was built under is the trimmed id of the pack. A build under an untrimmed id is never
   * trusted, not even for its own pack.
   */
  lemma {:induction false} TrustedIffSamePack(lib: Library, idx: PackIndex, id: string, d: seq<byte>, packID: string,
                                              data: seq<byte>)
    requires lib.Contract() && BuiltFor(lib, idx, id, d)
    ensures Trusts(lib, packID, data, Some(idx)) <==> data == d && id == TrimSpace(packID)
  {
    hide ValidTable, TrimSpace, EqualFold;
    BuiltIsWellFormed(lib, idx, id, d);
    if Trusts(lib, packID, data, Some(idx)) {
      assert lib.shaHex(data) != [];
      DigestsTellApart(lib, d, data);
    }
    if data == d && id == TrimSpace(packID) {
      ValidTableVersion(lib.open(d).value);
      FoldReflexive(lib.open(d).value.packSHA);
      FoldReflexive(lib.shaHex(d));
    }
  }

  // ---- What a sidecar says, and what it may say otherwise ---------------------------------------------------

  predicate Upper(c: char) { 'A' <= c <= 'Z' }

  /** The same letter, one in upper and one in lower case. */
  predicate CasePair(a: char, b: char) { Upper(a) && b as int == a as int + ('a' as int - 'A' as int) }

  /** Two digests compare equal exactly when they differ in letter case only. */
  lemma {:induction false} EqualFoldIff(a: string, b: string)
    ensures EqualFold(a, b) <==>
            |a| == |b| && forall i :: 0 <= i < |a| ==> a[i] == b[i] || CasePair(a[i], b[i]) || CasePair(b[i], a[i])
  {
    if EqualFold(a, b) {
      assert |Fold(a)| == |a| && |Fold(b)| == |b|;
      forall i | 0 <= i < |a| ensures a[i] == b[i] || CasePair(a[i], b[i]) || CasePair(b[i], a[i]) {
        assert Fold(a)[i] == LowerAscii(a[i]) && Fold(b)[i] == LowerAscii(b[i]);
      }
    }
  }

  /** The index of a pack gives its size, digests and counts, and one row per member in order, under the id the member is found by. */
  lemma {:induction false} IndexDescribes(lib: Library, packID: string, affinity: string, data: seq<byte>, st: SeekTable, now: string)
    ensures var idx := IndexOf(lib, packID, affinity, data, st, now);
            && idx.magic == "JMCP-IDX-V1" && idx.schemaVersion == 1 && idx.packID == packID && idx.affinity == TrimSpace(affinity)
            && idx.builtAt == now && idx.packFormatVersion == st.formatVersion && idx.packSizeBytes == |data|
            && idx.packSHA == st.packSHA && idx.fileSHA == lib.shaHex(data) && idx.frameCount == |st.frames|
            && idx.memberCount == |idx.members| == |st.members|
            && forall i :: 0 <= i < |st.members| ==>
                 var m, row := st.members[i], idx.members[i];
                 && row.name == m.name && row.size == m.size && row.contentSHA == m.contentSHA
                 && (row.entryID == m.entryID || m.entryID == "") && (m.entryID == "" ==> row.entryID == m.name)
  {
    hide TrimSpace;
    var idx := IndexOf(lib, packID, affinity, data, st, now);
    assert idx.members == IndexRows(st.members) && |IndexRows(st.members)| == |st.members|;
    forall i | 0 <= i < |st.members|
      ensures idx.members[i].name == st.members[i].name && idx.members[i].size == st.members[i].size
      ensures idx.members[i].contentSHA == st.members[i].contentSHA
      ensures idx.members[i].entryID == if st.members[i].entryID == "" then st.members[i].name else st.members[i].entryID
    {
      assert idx.members[i] == IndexRow(st.members[i]);
    }
  }

  /** Which packs get an index: a name, some bytes, and a valid table that carries the digest of its pack. */
  lemma {:induction false} IndexableIff(packID: string, data: seq<byte>, st: SeekTable)
    ensures Indexable(packID, data, st) <==>
            (exists c :: c in TrimSpace(packID)) && |data| > 0 && ValidTable(st) && (exists c :: c in st.packSHA)
  {
    hide TrimSpace, ValidTable;
    if |TrimSpace(packID)| > 0 { assert TrimSpace(packID)[0] in TrimSpace(packID); }
    if |st.packSHA| > 0 { assert st.packSHA[0] in st.packSHA; }
  }

  /**
   * Given the index built for a pack, exactly which other sidecars would be trusted in its place: those that agree with it
   * on every field but affinity, time of building, letter case of the digests, and the member rows. The rows are
   * not compared with the pack.
   */
  lemma {:induction false} AlteredIndexTrustedIff(lib: Library, idx: PackIndex, id: string, d: seq<byte>, other: PackIndex)
    requires lib.Contract() && BuiltFor(lib, idx, id, d) && id == TrimSpace(id)
    ensures Trusts(lib, id, d, Some(other)) <==> (
      && other.magic == idx.magic && other.schemaVersion == idx.schemaVersion && other.packID == idx.packID
      && other.packFormatVersion == idx.packFormatVersion && other.packSizeBytes == idx.packSizeBytes
      && EqualFold(other.packSHA, idx.packSHA) && EqualFold(other.fileSHA, idx.fileSHA)
      && other.memberCount == idx.memberCount && other.frameCount == idx.frameCount)
    ensures !Trusts(lib, id, d, None)
  {
    hide ValidTable, TrimSpace, EqualFold;
    BuiltIsWellFormed(lib, idx, id, d);
    ValidTableVersion(lib.open(d).value);
    if EqualFold(other.packSHA, idx.packSHA) { FoldOfEmpty(other.packSHA, idx.packSHA); }
    if EqualFold(other.fileSHA, idx.fileSHA) { FoldOfEmpty(other.fileSHA, idx.fileSHA); }
  }

  lemma {:induction false} FoldOfEmpty(a: string, b: string)
    requires EqualFold(a, b) && b != []
    ensures a != []
  {
    assert |Fold(a)| == |a| && |Fold(b)| == |b|;
  }
}
