/**
 The sideload file system in front of a host that serves one file.

 `ServesFile` says that every run then returns the requested slices of the zero-padded file.  It
 holds for every file whose last block is whole or starts below 4 GiB; `FetchSizeExact` says why.
 */
module SideloadHost {
  import opened Bytes
  import opened Sideload
  import FixedMath

  /** The number of bytes of the file that block `block` holds. */
  function BytesIn(s: Shape, block: nat): int {
    if (block + 1) * s.blockSize <= s.fileSize then s.blockSize else s.fileSize - block * s.blockSize
  }

  /**
   The size asked of the provider is the number of bytes the block holds, except for a partial
   block that starts at 4 GiB or later.
   */
  lemma FetchSizeExact(s: Shape, block: nat)
    requires IsShape(s) && block < s.fileBlocks
    ensures FetchSize(s, block) == BytesIn(s, block) <==>
              block * s.blockSize < TWO_32 || (block + 1) * s.blockSize <= s.fileSize
  {
    FetchSizeInRange(s, block);
    var w := block * s.blockSize;
    assert (block + 1) * s.blockSize == w + s.blockSize;
    assert w == w / TWO_32 * TWO_32 + w % TWO_32;
    if w >= TWO_32 {
      assert w / TWO_32 >= 1;
    }
  }

  /** A file of 4 GiB and one byte in blocks of 4 MiB: of its last block, one byte, a whole block is asked. */
  lemma LastByteMissed()
    ensures var s := Shape(0x1_0000_0001, 0x40_0000, 1025);
            IsShape(s) && BytesIn(s, 1024) == 1 && FetchSize(s, 1024) == 0x40_0000
  {
  }

  /** Block `block` of the zero-padded file. */
  ghost function FileBlock(s: Shape, file: seq<Byte>, block: nat): (data: seq<Byte>)
    ensures |data| == s.blockSize
  {
    seq<Byte>(s.blockSize, k requires 0 <= k < s.blockSize => FileByte(file, block * s.blockSize + k))
  }

  ghost function FileByte(file: seq<Byte>, pos: nat): Byte {
    if pos < |file| then file[pos] else 0
  }

  /** The file's sizes are ones that 32-bit arithmetic on block offsets gets right. */
  predicate Servable(s: Shape) {
    && IsShape(s) && s.fileSize <= s.fileBlocks * s.blockSize
    && (s.fileSize % s.blockSize == 0 || s.fileSize / s.blockSize * s.blockSize < TWO_32)
  }

  /** The host answers a fetch of `block` with the bytes of the file. */
  ghost predicate Serves(s: Shape, file: seq<Byte>, block: nat, reply: Reply) {
    && reply.Data? && |reply.image| == s.blockSize
    && (block < s.fileBlocks ==>
          forall k :: 0 <= k < s.blockSize && block * s.blockSize + k < |file| ==>
            reply.image[k] == file[block * s.blockSize + k])
  }

  ghost function FilePins(s: Shape, file: seq<Byte>): Pins {
    map b: nat | b < s.fileBlocks :: FileBlock(s, file, b)
  }

  /** Every hash kept is the hash of the host's block, and so is the cached block. */
  ghost predicate Faithful(sha: seq<Byte> -> Digest, c: Cache, pins: Pins) {
    && IsCache(c)
    && (forall b :: 0 <= b < c.shape.fileBlocks ==> b in pins && (c.hashes[b] == UNREAD || c.hashes[b] == sha(pins[b])))
    && Shown(c.shape, pins, c.currBlock, c.blockData)
  }

  /** A block at or past the last whole one that starts within the file is the partial one. */
  lemma PartialBlock(s: Shape, block: nat)
    requires s.blockSize > 0 && block * s.blockSize < s.fileSize
    ensures s.fileSize / s.blockSize <= block ==> block == s.fileSize / s.blockSize && s.fileSize % s.blockSize > 0
    ensures block < s.fileSize / s.blockSize ==> (block + 1) * s.blockSize <= s.fileSize
  {
    var q := s.fileSize / s.blockSize;
    assert s.fileSize == q * s.blockSize + s.fileSize % s.blockSize;
    assert (q + 1) * s.blockSize == q * s.blockSize + s.blockSize;
    FixedMath.MulMono(q + 1, block, s.blockSize);
    FixedMath.MulMono(q, block, s.blockSize);
    FixedMath.MulMono(block + 1, q, s.blockSize);
  }

  lemma ServableExact(s: Shape, block: nat)
    requires Servable(s) && block < s.fileBlocks
    ensures FetchSize(s, block) == BytesIn(s, block)
  {
    FetchSizeInRange(s, block);
    PartialBlock(s, block);
    FetchSizeExact(s, block);
  }

  lemma FormedIsFile(s: Shape, file: seq<Byte>, block: nat, reply: Reply)
    requires Servable(s) && |file| == s.fileSize && block < s.fileBlocks && Serves(s, file, block, reply)
    ensures 0 <= FetchSize(s, block) <= s.blockSize && Formed(s, block, reply.image) == FileBlock(s, file, block)
  {
    FetchSizeInRange(s, block);
    ServableExact(s, block);
    assert (block + 1) * s.blockSize == block * s.blockSize + s.blockSize;
    PaddedImage(file, block * s.blockSize, s.blockSize, reply.image, FetchSize(s, block));
    assert FileBlock(s, file, block) == Slice(file, block * s.blockSize, s.blockSize);
  }

  lemma PaddedImage(file: seq<Byte>, start: nat, size: nat, image: seq<Byte>, n: nat)
    requires |image| == size && n == (if start + size <= |file| then size else |file| - start)
    requires forall k :: 0 <= k < size && start + k < |file| ==> image[k] == file[start + k]
    ensures image[..n] + Zeros(size - n) == Slice(file, start, size)
  {
    var data := image[..n] + Zeros(size - n);
    forall k | 0 <= k < size
      ensures data[k] == FileByte(file, start + k)
    {
      assert data[k] == if k < n then image[k] else 0;
    }
  }

  /** The host's answer to a fetch of `block` is the block that `pins` names. */
  ghost predicate Sends(s: Shape, pins: Pins, block: nat, reply: Reply) {
    && reply.Data? && |reply.image| == s.blockSize
    && (block < s.fileBlocks ==>
          0 <= FetchSize(s, block) <= s.blockSize && block in pins && Formed(s, block, reply.image) == pins[block])
  }

  lemma FetchFaithful(sha: seq<Byte> -> Digest, c: Cache, pins: Pins, block: nat, reply: Reply)
    requires Faithful(sha, c, pins) && block < TWO_32 && Sends(c.shape, pins, block, reply)
    ensures var (d, code) := Fetch(sha, c, block, reply);
            code == 0 && Faithful(sha, d, pins) && Shown(d.shape, pins, block, d.blockData)
  {
  }

  /** The host answers both fetches of a request with the blocks that `pins` names. */
  ghost predicate SendsBoth(s: Shape, pins: Pins, q: Request)
    requires s.blockSize > 0
  {
    && IsRequest(s, q) && q.nodeid == PACKAGE_FILE_ID
    && Sends(s, pins, BlockOf(s, q.offset), q.first)
    && (Spans(s, q) ==> Sends(s, pins, NextBlock(s, q.offset), q.second))
  }

  ghost predicate FaithfullyTold(sha: seq<Byte> -> Digest, pins: Pins, q: Request, r: (Cache, Response)) {
    Faithful(sha, r.0, pins) && r.1.Bytes? && TellsTruth(r.0.shape, pins, q, r.1)
  }

  lemma SpillFaithful(sha: seq<Byte> -> Digest, c: Cache, pins: Pins, q: Request, head: seq<Byte>)
    requires Faithful(sha, c, pins) && SendsBoth(c.shape, pins, q) && Spans(c.shape, q)
    requires |head| == c.shape.blockSize - q.offset % c.shape.blockSize && Vouched(c.shape, pins, q.offset, head)
    ensures FaithfullyTold(sha, pins, q, Spill(sha, c, BlockOf(c.shape, q.offset), head, q))
  {
    hide Fetch, Sends, Truth, Vouched;
    var next := NextBlock(c.shape, q.offset);
    FetchFaithful(sha, c, pins, next, q.second);
    var (d, code) := Fetch(sha, c, next, q.second);
    SpillTells(c.shape, pins, pins, q, head, d.blockData);
  }

  lemma ReadFaithful(sha: seq<Byte> -> Digest, c: Cache, pins: Pins, q: Request)
    requires Faithful(sha, c, pins) && SendsBoth(c.shape, pins, q)
    ensures FaithfullyTold(sha, pins, q, Read(sha, c, q))
  {
    ReadCases(sha, c, q);
    FetchFaithful(sha, c, pins, BlockOf(c.shape, q.offset), q.first);
    var (d, code) := Fetch(sha, c, BlockOf(c.shape, q.offset), q.first);
    HeadTells(c.shape, pins, q, d.blockData);
    if Spans(c.shape, q) {
      SpillFaithful(sha, d, pins, q, d.blockData[q.offset % c.shape.blockSize..]);
    }
  }

  /** With a host that always sends the same blocks every read succeeds and returns their bytes. */
  lemma {:induction false} RunFaithful(sha: seq<Byte> -> Digest, c: Cache, pins: Pins, qs: seq<Request>)
    requires Faithful(sha, c, pins) && AllRequests(c.shape, qs)
    requires forall i :: 0 <= i < |qs| ==> SendsBoth(c.shape, pins, qs[i])
    ensures var rs := Responses(sha, c, qs);
            AllTrue(c.shape, pins, qs, rs) && forall i :: 0 <= i < |rs| ==> rs[i].Bytes?
    decreases |qs|
  {
    if qs == [] {
    } else {
      ReadFaithful(sha, c, pins, qs[0]);
      var (d, r) := Read(sha, c, qs[0]);
      RunFaithful(sha, d, pins, qs[1..]);
      AllTrueFront(c.shape, pins, qs[0], qs[1..], r, Responses(sha, d, qs[1..]));
      assert qs == [qs[0]] + qs[1..];
    }
  }

  lemma FileBlockAt(s: Shape, file: seq<Byte>, block: nat, k: nat)
    requires block < s.fileBlocks && k < s.blockSize
    ensures block in FilePins(s, file) && |FilePins(s, file)[block]| == s.blockSize
    ensures FilePins(s, file)[block][k] == FileByte(file, block * s.blockSize + k)
  {
  }

  /** What the file's blocks say about a position is the zero-padded file's byte. */
  lemma FileTruth(s: Shape, file: seq<Byte>, pos: nat)
    requires Servable(s) && |file| == s.fileSize && pos / s.blockSize < TWO_32
    ensures Truth(s, FilePins(s, file), pos) == FileByte(file, pos)
    ensures pos / s.blockSize < NO_BLOCK ==> Addressable(s, pos)
  {
    var b, k := pos / s.blockSize, pos % s.blockSize;
    assert pos == b * s.blockSize + k;
    assert BlockOf(s, pos) == b;
    if b < s.fileBlocks {
      FileBlockAt(s, file, b, k);
    } else {
      FixedMath.MulMono(s.fileBlocks, b, s.blockSize);
    }
  }

  /** The whole request lies below block 2^32 - 1. */
  predicate Below(s: Shape, q: Request)
    requires s.blockSize > 0
  {
    (q.offset + q.size) / s.blockSize < NO_BLOCK
  }

  /** The host answers both fetches of a request with the bytes of the file. */
  ghost predicate ServesBoth(s: Shape, file: seq<Byte>, q: Request)
    requires s.blockSize > 0
  {
    && IsRequest(s, q) && q.nodeid == PACKAGE_FILE_ID && Below(s, q)
    && Serves(s, file, BlockOf(s, q.offset), q.first)
    && (Spans(s, q) ==> Serves(s, file, NextBlock(s, q.offset), q.second))
  }

  lemma ServesSends(s: Shape, file: seq<Byte>, block: nat, reply: Reply)
    requires Servable(s) && |file| == s.fileSize && Serves(s, file, block, reply)
    ensures Sends(s, FilePins(s, file), block, reply)
  {
    if block < s.fileBlocks {
      FormedIsFile(s, file, block, reply);
    }
  }

  lemma ServesSendsBoth(s: Shape, file: seq<Byte>, q: Request)
    requires Servable(s) && |file| == s.fileSize && ServesBoth(s, file, q)
    ensures SendsBoth(s, FilePins(s, file), q)
  {
    ServesSends(s, file, BlockOf(s, q.offset), q.first);
    if Spans(s, q) {
      ServesSends(s, file, NextBlock(s, q.offset), q.second);
    }
  }

  /**
   With a host that serves one file, every run from the opened state returns exactly the requested
   slices of the zero-padded file.
   */
  lemma ServesFile(sha: seq<Byte> -> Digest, s: Shape, junk: seq<Byte>, file: seq<Byte>, qs: seq<Request>)
    requires Servable(s) && |junk| == s.blockSize && |file| == s.fileSize && AllRequests(s, qs)
    requires forall i :: 0 <= i < |qs| ==> ServesBoth(s, file, qs[i])
    ensures var rs := Responses(sha, Opened(s, junk), qs);
            forall i :: 0 <= i < |rs| ==> rs[i] == Bytes(Slice(file, qs[i].offset, qs[i].size))
  {
    var c, pins := Opened(s, junk), FilePins(s, file);
    forall i | 0 <= i < |qs|
      ensures SendsBoth(s, pins, qs[i])
    {
      ServesSendsBoth(s, file, qs[i]);
    }
    RunFaithful(sha, c, pins, qs);
    var rs := Responses(sha, c, qs);
    forall i | 0 <= i < |rs|
      ensures rs[i] == Bytes(Slice(file, qs[i].offset, qs[i].size))
    {
      SliceRead(s, file, qs[i], rs[i]);
    }
  }

  /** `size` bytes of the zero-padded file from `offset` on. */
  ghost function Slice(file: seq<Byte>, offset: nat, size: nat): seq<Byte> {
    seq<Byte>(size, k requires 0 <= k < size => FileByte(file, offset + k))
  }

  lemma SliceRead(s: Shape, file: seq<Byte>, q: Request, r: Response)
    requires Servable(s) && |file| == s.fileSize && Below(s, q) && r.Bytes? && TellsTruth(s, FilePins(s, file), q, r)
    ensures r == Bytes(Slice(file, q.offset, q.size))
  {
    hide Truth, FilePins, BlockOf, Addressable, FileByte;
    forall k | 0 <= k < q.size
      ensures r.data[k] == FileByte(file, q.offset + k)
    {
      BlockBelow(q.offset + k, q.offset + q.size, s.blockSize);
      FileTruth(s, file, q.offset + k);
    }
  }

  lemma BlockBelow(x: nat, y: nat, d: nat)
    requires d > 0 && x <= y
    ensures x / d <= y / d
  {
    var p, q := x / d, y / d;
    assert x == p * d + x % d && y == q * d + y % d;
    assert (q + 1) * d == q * d + d;
    FixedMath.MulMono(q + 1, p, d);
  }
}
