/** The frame grammar of RFC 8878 spelled out in bytes, and that the scanner's walk reads exactly that. */
module FrameBytes {
  import opened Prelude
  import opened Frames

  /** A block of section 3.1.1.2 of RFC 8878; a reserved one is no block. */
  datatype AnyBlock = RawBlock(content: seq<byte>) | RleBlock(value: byte, times: nat) | CompressedBlock(content: seq<byte>)

  /** The size field has twenty-one bits. */
  const BLOCK_SIZE_LIMIT := 0x20_0000

  type Block = b: AnyBlock | SizeOf(b) < BLOCK_SIZE_LIMIT witness RawBlock([])

  function SizeOf(b: AnyBlock): nat { if b.RleBlock? then b.times else |b.content| }

  function BodyOf(b: AnyBlock): seq<byte> { if b.RleBlock? then [b.value] else b.content }

  function KindOf(b: AnyBlock): (k: nat)
    ensures k < 3
  {
    match b case RawBlock(_) => 0 case RleBlock(_, _) => 1 case CompressedBlock(_) => 2
  }

  /** Block_Header: one bit for the last block, two for the type, twenty-one for the size, lowest first. */
  function HeaderBytes(last: bool, kind: nat, size: nat): (b: seq<byte>)
    requires kind < 4 && size < BLOCK_SIZE_LIMIT
    ensures |b| == 3
  {
    assert size / 0x20 / 0x100 < 0x100;
    [((if last then 1 else 0) + 2 * kind + 8 * (size % 0x20)) as byte, (size / 0x20 % 0x100) as byte,
     (size / 0x20 / 0x100) as byte]
  }

  /** Blocks one after the other, the last one flagged. */
  function BlockBytes(bs: seq<Block>): seq<byte>
  {
    if bs == [] then []
    else HeaderBytes(|bs| == 1, KindOf(bs[0]), SizeOf(bs[0])) + BodyOf(bs[0]) + BlockBytes(bs[1..])
  }

  lemma {:induction false} HeaderBytesRead(d: seq<byte>, pos: nat, last: bool, kind: nat, size: nat)
    requires kind < 4 && size < BLOCK_SIZE_LIMIT
    requires pos + 3 <= |d| && d[pos..pos + 3] == HeaderBytes(last, kind, size)
    ensures LastBlock(Le24(d, pos)) == last && BlockType(Le24(d, pos)) == kind
    ensures BlockBody(Le24(d, pos)) == if kind == 1 then 1 else size
  {
    var h := (if last then 1 else 0) + 2 * kind + 8 * size;
    var b := d[pos..pos + 3];
    assert d[pos] == b[0] && d[pos + 1] == b[1] && d[pos + 2] == b[2];
    assert size == size % 0x20 + 0x20 * (size / 0x20 % 0x100) + 0x2000 * (size / 0x20 / 0x100);
    assert Le24(d, pos) == h;
  }

  lemma {:induction false} HeaderDigits(x: nat, y: nat, z: nat)
    requires x < 0x100 && y < 0x100 && z < 0x100
    ensures var h := x + 0x100 * y + 0x10000 * z;
            && h / 8 < BLOCK_SIZE_LIMIT && h % 2 == x % 2 && h / 2 % 4 == x / 2 % 4
            && h / 8 % 0x20 == x / 8 && h / 8 / 0x20 == y + 0x100 * z
            && x == x % 2 + 2 * (x / 2 % 4) + 8 * (x / 8)
  {
    var h := x + 0x100 * y + 0x10000 * z;
    assert h / 8 == x / 8 + 0x20 * (y + 0x100 * z);
    assert h / 2 == x / 2 + 4 * (0x20 * (y + 0x100 * z));
  }

  /** Any three bytes are the header of some block, possibly reserved. */
  lemma {:induction false} HeaderBytesCover(d: seq<byte>, pos: nat)
    requires pos + 3 <= |d|
    ensures var h := Le24(d, pos);
            h / 8 < BLOCK_SIZE_LIMIT && d[pos..pos + 3] == HeaderBytes(LastBlock(h), BlockType(h), h / 8)
  {
    HeaderDigits(d[pos] as int, d[pos + 1] as int, d[pos + 2] as int);
  }

  /** The blocks of a list are read one after the other, whatever stands before and after them. */
  lemma {:induction false} BlocksAreRead(d: seq<byte>, pos: nat, bs: seq<Block>)
    requires bs != []
    requires pos <= |d| && BlockBytes(bs) <= d[pos..]
    ensures BlocksEnd(d, pos) == Some(pos + |BlockBytes(bs)|)
    decreases |bs|
  {
    hide *;
    var next := pos + 3 + |BodyOf(bs[0])|;
    BlockBytesFirst(d, pos, bs);
    ReadBlock(d, pos, |bs| == 1, bs[0]);
    if |bs| > 1 { BlocksAreRead(d, next, bs[1..]); } else { NoBlocks(bs[1..]); }
  }

  lemma {:induction false} ReadBlock(d: seq<byte>, pos: nat, last: bool, b: Block)
    requires pos + 3 + |BodyOf(b)| <= |d| && d[pos..pos + 3] == HeaderBytes(last, KindOf(b), SizeOf(b))
    ensures BlocksEnd(d, pos) == if last then Some(pos + 3 + |BodyOf(b)|) else BlocksEnd(d, pos + 3 + |BodyOf(b)|)
  {
    HeaderBytesRead(d, pos, last, KindOf(b), SizeOf(b));
    hide HeaderBytes, Le24, LastBlock, BlockType, BlockBody;
  }

  lemma {:induction false} NoBlocks(bs: seq<Block>)
    ensures bs == [] ==> BlockBytes(bs) == []
  {}

  lemma {:induction false} BlockBytesFirst(d: seq<byte>, pos: nat, bs: seq<Block>)
    requires bs != []
    requires pos <= |d| && BlockBytes(bs) <= d[pos..]
    ensures var next := pos + 3 + |BodyOf(bs[0])|;
            && next <= |d| && d[pos..pos + 3] == HeaderBytes(|bs| == 1, KindOf(bs[0]), SizeOf(bs[0]))
            && BlockBytes(bs[1..]) <= d[next..] && |BlockBytes(bs)| == next - pos + |BlockBytes(bs[1..])|
  {
    hide HeaderBytes, BodyOf, KindOf, SizeOf;
    var head, body, rest := HeaderBytes(|bs| == 1, KindOf(bs[0]), SizeOf(bs[0])), BodyOf(bs[0]), BlockBytes(bs[1..]);
    assert BlockBytes(bs) == head + body + rest;
    TakeOff(d, pos, head, body, rest, BlockBytes(bs));
  }

  /** The block at the front of an accepted list. */
  lemma {:induction false} FirstBlock(s: seq<byte>) returns (b: Block)
    requires Blocks(s)
    ensures var h := Le24(s, 0);
            && 3 + |BodyOf(b)| == 3 + BlockBody(h) <= |s| && KindOf(b) == BlockType(h) && SizeOf(b) == h / 8
            && s[..3] == HeaderBytes(LastBlock(h), KindOf(b), SizeOf(b)) && s[3..3 + |BodyOf(b)|] == BodyOf(b)
  {
    var h := Le24(s, 0);
    var n := 3 + BlockBody(h);
    HeaderBytesCover(s, 0);
    assert s[0..3] == s[..3];
    b := if BlockType(h) == 0 then RawBlock(s[3..n]) else if BlockType(h) == 1 then RleBlock(s[3], h / 8)
         else CompressedBlock(s[3..n]);
  }

  /** Conversely, whatever the walk accepts is such a list. */
  lemma {:induction false} BlocksAreBlockBytes(s: seq<byte>) returns (bs: seq<Block>)
    requires Blocks(s)
    ensures bs != [] && BlockBytes(bs) == s
    decreases |s|
  {
    var b := FirstBlock(s);
    var n := 3 + |BodyOf(b)|;
    var last := LastBlock(Le24(s, 0));
    hide HeaderBytes, BodyOf, KindOf, SizeOf;
    assert s == s[..3] + s[3..n] + s[n..];
    if last {
      bs := [b];
      assert bs[1..] == [] && s[n..] == [];
    } else {
      var more := BlocksAreBlockBytes(s[n..]);
      bs := [b] + more;
      assert bs[1..] == more && bs[0] == b && |bs| > 1;
    }
  }

  /** The bytes of a content frame: a header the decoder accepts, blocks, and four bytes of checksum when announced. */
  ghost predicate FrameBytesOf(header: HeaderDecoder, f: seq<byte>, head: seq<byte>, bs: seq<Block>, sum: seq<byte>) {
    && IsContentMagic(head) && header(head) == Some(Header(|head|, sum != [])) && (sum == [] || |sum| == 4)
    && bs != [] && f == head + BlockBytes(bs) + sum
  }

  /** Every content frame is built that way. */
  lemma {:induction false} FrameIsBuilt(header: HeaderDecoder, f: seq<byte>)
    returns (head: seq<byte>, bs: seq<Block>, sum: seq<byte>)
    requires HeaderContract(header) && ContentFrame(header, f)
    ensures FrameBytesOf(header, f, head, bs, sum)
  {
    hide *;
    var tail, cut := TailOf(header, f);
    var n := header(f).value.size;
    head, sum := f[..n], tail[cut..];
    bs := BlocksAreBlockBytes(tail[..cut]);
    assert f == f[..n] + tail[..cut] + tail[cut..];
    BuiltFrom(header, f, head, bs, sum);
  }

  lemma {:induction false} BuiltFrom(header: HeaderDecoder, f: seq<byte>, head: seq<byte>, bs: seq<Block>, sum: seq<byte>)
    requires IsContentMagic(head) && header(head) == Some(Header(|head|, sum != [])) && (sum == [] || |sum| == 4)
    requires bs != [] && f == head + BlockBytes(bs) + sum
    ensures FrameBytesOf(header, f, head, bs, sum)
  {}

  lemma {:induction false} TailOf(header: HeaderDecoder, f: seq<byte>) returns (tail: seq<byte>, cut: nat)
    requires HeaderContract(header) && ContentFrame(header, f)
    ensures header(f).Some? && header(f).value.size <= |f| && tail == f[header(f).value.size..]
    ensures cut <= |tail| && Blocks(tail[..cut]) && |tail| - cut == if header(f).value.hasCheckSum then 4 else 0
    ensures var head := f[..header(f).value.size];
            IsContentMagic(head) && header(head) == Some(Header(|head|, header(f).value.hasCheckSum))
  {
    HeaderFits(header, f);
    var n := header(f).value.size;
    HeaderAgrees(header, f, f[..n]);
    tail := f[n..];
    cut := if header(f).value.hasCheckSum then |tail| - 4 else |tail|;
    assert tail[..|tail|] == tail;
  }

  /** Content frames are exactly the byte strings built that way. */
  lemma {:induction false} ContentFramesAreBuilt(header: HeaderDecoder, f: seq<byte>)
    requires HeaderContract(header)
    ensures ContentFrame(header, f) <==> exists head, bs, sum :: FrameBytesOf(header, f, head, bs, sum)
  {
    hide HeaderContract, ContentFrame, FrameBytesOf;
    if ContentFrame(header, f) {
      var head, bs, sum := FrameIsBuilt(header, f);
    }
    if head, bs, sum :| FrameBytesOf(header, f, head, bs, sum) { BuiltIsContent(header, f, head, bs, sum); }
  }

  lemma {:induction false} NotBoth(s: seq<byte>)
    ensures !(IsContentMagic(s) && IsSkippableMagic(s))
    ensures IsContentMagic(s) ==> !SkippableFrame(s)
  {}

  lemma {:induction false} BuiltIsContent(header: HeaderDecoder, f: seq<byte>, head: seq<byte>, bs: seq<Block>, sum: seq<byte>)
    requires HeaderContract(header) && FrameBytesOf(header, f, head, bs, sum)
    ensures ContentFrame(header, f)
  {
    hide HeaderContract, BlockBytes, ContentFrame, FrameEnd;
    BuiltFrameEnds(header, [], head, bs, sum, []);
    assert [] + (head + BlockBytes(bs) + sum) + [] == f;
    HeaderAgrees(header, head, f);
    FrameEndMeaning(header, f, 0, |f|);
    assert f[0..|f|] == f;
    NotBoth(f);
  }

  /** A built frame ends exactly at its length, wherever it stands and whatever follows. */
  lemma {:induction false} BuiltFrameEnds(header: HeaderDecoder, before: seq<byte>, head: seq<byte>, bs: seq<Block>,
                                          sum: seq<byte>, rest: seq<byte>)
    requires HeaderContract(header) && FrameBytesOf(header, head + BlockBytes(bs) + sum, head, bs, sum)
    ensures var f := head + BlockBytes(bs) + sum;
            FrameEnd(header, before + f + rest, |before|) == Some(|before| + |f|)
  {
    hide HeaderContract;
    var blocks := BlockBytes(bs);
    var d := before + (head + blocks + sum) + rest;
    assert d[|before|..] == head + (blocks + sum + rest);
    HeaderAgrees(header, head, d[|before|..]);
    assert d[|before| + |head|..] == blocks + (sum + rest);
    BlocksAreRead(d, |before| + |head|, bs);
    assert !IsSkippableMagic(d[|before|..]);
  }

  /** A reserved block type ends every attempt: no frame, whatever follows. */
  lemma {:induction false} ReservedTypeIsNoFrame(header: HeaderDecoder, before: seq<byte>, head: seq<byte>, bs: seq<Block>,
                                                 last: bool, size: nat, rest: seq<byte>)
    requires HeaderContract(header) && IsContentMagic(head) && header(head).Some? && header(head).value.size == |head|
    requires size < BLOCK_SIZE_LIMIT
    ensures FrameEnd(header, before + head + OpenBlocks(bs) + HeaderBytes(last, 3, size) + rest, |before|) == None
  {
    hide HeaderContract;
    var d := before + head + OpenBlocks(bs) + HeaderBytes(last, 3, size) + rest;
    var from := d[|before|..];
    assert from == head + (OpenBlocks(bs) + HeaderBytes(last, 3, size) + rest);
    HeaderAgrees(header, head, from);
    assert d[|before| + |head|..] == OpenBlocks(bs) + (HeaderBytes(last, 3, size) + rest);
    StopsAtReserved(d, |before| + |head|, bs, last, size);
    assert !IsSkippableMagic(from);
  }

  /** Blocks none of which is the last. */
  function OpenBlocks(bs: seq<Block>): seq<byte>
  {
    if bs == [] then [] else HeaderBytes(false, KindOf(bs[0]), SizeOf(bs[0])) + BodyOf(bs[0]) + OpenBlocks(bs[1..])
  }

  lemma {:induction false} StopsAtReserved(d: seq<byte>, pos: nat, bs: seq<Block>, last: bool, size: nat)
    requires size < BLOCK_SIZE_LIMIT && pos <= |d|
    requires OpenBlocks(bs) + HeaderBytes(last, 3, size) <= d[pos..]
    ensures BlocksEnd(d, pos) == None
    decreases |bs|
  {
    if bs == [] {
      assert d[pos..pos + 3] == d[pos..][..3] == (OpenBlocks(bs) + HeaderBytes(last, 3, size))[..3];
      HeaderBytesRead(d, pos, last, 3, size);
    } else {
      var head, body := HeaderBytes(false, KindOf(bs[0]), SizeOf(bs[0])), BodyOf(bs[0]);
      var rest := OpenBlocks(bs[1..]) + HeaderBytes(last, 3, size);
      var next := pos + 3 + |body|;
      TakeOff(d, pos, head, body, rest, OpenBlocks(bs) + HeaderBytes(last, 3, size));
      HeaderBytesRead(d, pos, false, KindOf(bs[0]), SizeOf(bs[0]));
      StopsAtReserved(d, next, bs[1..], last, size);
    }
  }

  lemma {:induction false} TakeOff(d: seq<byte>, pos: nat, head: seq<byte>, body: seq<byte>, rest: seq<byte>, all: seq<byte>)
    requires pos <= |d| && |head| == 3 && all <= d[pos..] && all == head + body + rest
    ensures var next := pos + 3 + |body|; next <= |d| && d[pos..pos + 3] == head && rest <= d[next..]
  {
    var next := pos + 3 + |body|;
    assert d[pos..][..|all|] == all && all[..3] == head && all[3 + |body|..] == rest;
    assert d[pos..pos + 3] == d[pos..][..|all|][..3];
    assert d[next..][..|rest|] == d[pos..][..|all|][3 + |body|..];
  }

  /** Section 3.1.2: sixteen magic numbers, a length of four bytes, and so much user data, up to the limit. */
  lemma {:induction false} SkippableBytes(header: HeaderDecoder, before: seq<byte>, k: nat, a: byte, b: byte, c: byte, e: byte,
                                          payload: seq<byte>, rest: seq<byte>)
    requires k < 16 && |payload| == a as int + 0x100 * b as int + 0x10000 * c as int + 0x1000000 * e as int
    ensures var f := [(0x50 + k) as byte, 0x2A, 0x4D, 0x18, a, b, c, e] + payload;
            && FrameEnd(header, before + f + rest, |before|)
               == (if |payload| <= 16 * 1024 * 1024 then Some(|before| + 8 + |payload|) else None)
            && LocAt(|before|, f) == FrameLoc(|before|, 8 + |payload|, true, |before| + 8, |payload|)
  {
    var f := [(0x50 + k) as byte, 0x2A, 0x4D, 0x18, a, b, c, e] + payload;
    var d := before + f + rest;
    assert forall i :: 0 <= i < 8 ==> d[|before| + i] == f[i] && d[|before|..][i] == f[i];
  }

  /** The fields that the descriptor byte announces: window, dictionary id and content size. */
  function FieldsLength(dictionary: nat, singleSegment: bool, contentSize: nat): nat {
    (if singleSegment then 0 else 1)
    + (if dictionary == 0 then 0 else if dictionary == 1 then 1 else if dictionary == 2 then 2 else 4)
    + (if contentSize == 1 then 2 else if contentSize == 2 then 4 else if contentSize == 3 then 8
       else if singleSegment then 1 else 0)
  }

  lemma {:induction false} DescriptorBits(dictionary: nat, sum: nat, reserved: nat, unused: nat, single: nat, contentSize: nat)
    requires dictionary < 4 && sum < 2 && reserved < 2 && unused < 2 && single < 2 && contentSize < 4
    ensures var d := dictionary + 4 * sum + 8 * reserved + 16 * unused + 32 * single + 64 * contentSize;
            && d < 0x100 && d % 4 == dictionary && d / 4 % 2 == sum && d / 8 % 2 == reserved && d / 32 % 2 == single
            && d / 64 == contentSize
  {}

  function Bit(b: bool): nat { if b then 1 else 0 }

  /** Section 3.1.1.1 bit by bit: dictionary flag, checksum, reserved, unused, single segment, content size flag. */
  lemma {:induction false} RfcHeaderReads(dictionary: nat, checkSum: bool, reserved: bool, unused: bool, singleSegment: bool,
                                          contentSize: nat, fields: seq<byte>, rest: seq<byte>)
    requires dictionary < 4 && contentSize < 4 && |fields| == FieldsLength(dictionary, singleSegment, contentSize)
    ensures var descriptor := dictionary + 4 * Bit(checkSum) + 8 * Bit(reserved) + 16 * Bit(unused)
                              + 32 * Bit(singleSegment) + 64 * contentSize;
            && descriptor < 0x100
            && RfcHeader([0x28, 0xB5, 0x2F, 0xFD, descriptor as byte] + fields + rest)
               == if reserved then None else Some(Header(5 + |fields|, checkSum))
  {
    DescriptorBits(dictionary, Bit(checkSum), Bit(reserved), Bit(unused), Bit(singleSegment), contentSize);
    var descriptor := dictionary + 4 * Bit(checkSum) + 8 * Bit(reserved) + 16 * Bit(unused)
                      + 32 * Bit(singleSegment) + 64 * contentSize;
    var s := [0x28, 0xB5, 0x2F, 0xFD, descriptor as byte] + fields + rest;
    assert s[4] as int == descriptor && s[0] == 0x28 && s[1] == 0xB5 && s[2] == 0x2F && s[3] == 0xFD;
    assert IsContentMagic(s) && |s| >= 5 + |fields|;
    RfcFields(s, descriptor, dictionary, singleSegment, contentSize);
  }

  lemma {:induction false} RfcFields(s: seq<byte>, d: nat, dictionary: nat, singleSegment: bool, contentSize: nat)
    requires IsContentMagic(s) && |s| >= 5 && s[4] as int == d < 0x100
    requires dictionary == d % 4 && contentSize == d / 64 && (singleSegment <==> d / 32 % 2 == 1)
    requires |s| >= 5 + FieldsLength(dictionary, singleSegment, contentSize)
    ensures RfcHeader(s) == if d / 8 % 2 == 1 then None
                            else Some(Header(5 + FieldsLength(dictionary, singleSegment, contentSize), d / 4 % 2 == 1))
  {
    hide IsContentMagic;
  }
}
