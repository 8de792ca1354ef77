/**
 The sideload file system of bootable/recovery/fuse_sideload.c: one cached block in front of a
 host that is not trusted, with the hash of every block pinned when it is first read.

 `Fetch` and `Read` are the two operations as functions of the cache; class `FuseData` carries
 them out in place.  The file promises that every read of a position returns what the first read
 of it returned (lines 24-33).  `ReadsAgree` proves this over every run in which provider failures
 are harmless and no two different blocks share a hash, for every position outside block 2^32 - 1.
 Module `SideloadLimits` shows that the first and the last of these conditions are exact.
 */
module Sideload {
  import opened Bytes
  import FixedMath

  const NO_BLOCK: nat := 0xffff_ffff
  const DIGEST_SIZE: nat := 32
  const PACKAGE_FILE_ID: nat := 2
  const ENOENT: int := 2
  const EIO: int := 5

  type Digest = d: seq<Byte> | |d| == DIGEST_SIZE witness seq(DIGEST_SIZE, _ => 0)

  /** The mark of a block that has not been read yet. */
  const UNREAD: Digest := seq(DIGEST_SIZE, _ => 0)

  function Zeros(n: nat): (z: seq<Byte>)
    ensures |z| == n && forall i :: 0 <= i < n ==> z[i] == 0
  {
    seq(n, _ => 0)
  }

  /** The file's fixed sizes. */
  datatype Shape = Shape(fileSize: nat, blockSize: nat, fileBlocks: nat)

  /** What run_fuse_sideload accepts; the number of blocks is kept in 32 bits. */
  predicate IsShape(s: Shape) {
    && 1024 <= s.blockSize <= 0x40_0000
    && s.fileBlocks == (if s.fileSize == 0 then 0 else (s.fileSize - 1) / s.blockSize + 1) % TWO_32
    && s.fileBlocks <= 0x4_0000
  }

  datatype Cache = Cache(shape: Shape, currBlock: nat, blockData: seq<Byte>, hashes: seq<Digest>)

  predicate IsCache(c: Cache) {
    && IsShape(c.shape) && |c.blockData| == c.shape.blockSize && |c.hashes| == c.shape.fileBlocks
    && c.currBlock < TWO_32
  }

  /** A provider call: it fills the buffer, or fails, having scribbled on the buffer all the same. */
  datatype Reply = Data(image: seq<Byte>) | Failed(code: int, image: seq<Byte>)

  predicate IsReply(s: Shape, r: Reply) {
    |r.image| == s.blockSize && (r.Failed? ==> r.code < 0)
  }

  /** The number of bytes asked of the provider, with the block's offset computed in 32 bits. */
  function FetchSize(s: Shape, block: nat): int {
    var off := block * s.blockSize % TWO_32;
    if off + s.blockSize > s.fileSize then s.fileSize - off else s.blockSize
  }

  /** The buffer after the provider has written `image` into the part it was asked for. */
  function Formed(s: Shape, block: nat, image: seq<Byte>): (data: seq<Byte>)
    requires 0 <= FetchSize(s, block) <= s.blockSize == |image|
    ensures |data| == s.blockSize
  {
    image[..FetchSize(s, block)] + Zeros(s.blockSize - FetchSize(s, block))
  }

  /** Offsets of blocks that the file has do not exceed the file. */
  lemma FetchSizeInRange(s: Shape, block: nat)
    requires IsShape(s) && block < s.fileBlocks
    ensures 0 < FetchSize(s, block) <= s.blockSize && block * s.blockSize < s.fileSize
  {
    var n := s.fileSize - 1;
    assert n == n / s.blockSize * s.blockSize + n % s.blockSize;
    assert block <= n / s.blockSize;
    FixedMath.MulMono(block, n / s.blockSize, s.blockSize);
    ModLe(block * s.blockSize);
  }

  lemma ModLe(x: nat)
    ensures 0 <= x % TWO_32 <= x
  {
  }

  /** fetch_block: the cache afterwards and the result code. */
  function Fetch(sha: seq<Byte> -> Digest, c: Cache, block: nat, reply: Reply): (r: (Cache, int))
    requires IsCache(c) && IsReply(c.shape, reply) && block < TWO_32
    ensures IsCache(r.0) && r.0.shape == c.shape
  {
    if block == c.currBlock then (c, 0)
    else if block >= c.shape.fileBlocks then (c.(currBlock := block, blockData := Zeros(c.shape.blockSize)), 0)
    else
      FetchSizeInRange(c.shape, block);
      var data := Formed(c.shape, block, reply.image);
      if reply.Failed? then (c.(blockData := data), reply.code)
      else
        var hash := sha(data);
        if hash == c.hashes[block] then (c.(currBlock := block, blockData := data), 0)
        else if c.hashes[block] != UNREAD then (c.(currBlock := NO_BLOCK, blockData := data), -EIO)
        else (c.(currBlock := block, blockData := data, hashes := c.hashes[block := hash]), 0)
  }

  datatype Request = Request(nodeid: nat, offset: nat, size: nat, first: Reply, second: Reply)

  /** Reads are no longer than a block, because the file system is mounted with max_read=block_size. */
  predicate IsRequest(s: Shape, q: Request) {
    q.size <= s.blockSize && IsReply(s, q.first) && IsReply(s, q.second)
  }

  datatype Response = Bytes(data: seq<Byte>) | Error(code: int)

  /** The block number of an offset, in 32 bits. */
  function BlockOf(s: Shape, offset: nat): nat
    requires s.blockSize > 0
  {
    offset / s.blockSize % TWO_32
  }

  /** The offset within the block, as the code computes it in 32 bits. */
  function OffsetIn(s: Shape, offset: nat): int
    requires s.blockSize > 0
  {
    (offset - BlockOf(s, offset) * s.blockSize % TWO_32) % TWO_32
  }

  /** Despite the 32-bit arithmetic the offset within the block is always right. */
  lemma OffsetInIs(s: Shape, offset: nat)
    requires 0 < s.blockSize < TWO_32
    ensures OffsetIn(s, offset) == offset % s.blockSize
  {
    var q, r, block := offset / s.blockSize, offset % s.blockSize, BlockOf(s, offset);
    var k := q / TWO_32;
    assert q == k * TWO_32 + block;
    var w := block * s.blockSize;
    var j := w / TWO_32;
    assert offset == q * s.blockSize + r;
    assert q * s.blockSize == k * s.blockSize * TWO_32 + w;
    assert offset - w % TWO_32 == (k * s.blockSize + j) * TWO_32 + r;
    FixedMath.QuotientUnique(offset - w % TWO_32, TWO_32, k * s.blockSize + j, r);
  }

  /** handle_read: the cache afterwards and the reply to the kernel. */
  function Read(sha: seq<Byte> -> Digest, c: Cache, q: Request): (r: (Cache, Response))
    requires IsCache(c) && IsRequest(c.shape, q)
    ensures IsCache(r.0) && r.0.shape == c.shape
  {
    if q.nodeid != PACKAGE_FILE_ID then (c, Error(-ENOENT))
    else
      var block := BlockOf(c.shape, q.offset);
      var (c1, code1) := Fetch(sha, c, block, q.first);
      if code1 != 0 then (c1, Error(code1))
      else
        OffsetInIs(c.shape, q.offset);
        var at := OffsetIn(c.shape, q.offset);
        if q.size + at <= c.shape.blockSize then (c1, Bytes(c1.blockData[at..at + q.size]))
        else Spill(sha, c1, block, c1.blockData[at..], q)
  }

  /** The second case of handle_read: `head` is the end of the first block, set aside. */
  function Spill(sha: seq<Byte> -> Digest, c: Cache, block: nat, head: seq<Byte>, q: Request): (r: (Cache, Response))
    requires IsCache(c) && IsRequest(c.shape, q) && |head| <= q.size
    ensures IsCache(r.0) && r.0.shape == c.shape
  {
    var (d, code) := Fetch(sha, c, (block + 1) % TWO_32, q.second);
    if code != 0 then (d, Error(code)) else (d, Bytes(head + d.blockData[..q.size - |head|]))
  }

  // ---- Every run returns the same bytes -----------------------------------------------------------

  /** The blocks accepted so far, by number. */
  type Pins = map<nat, seq<Byte>>

  /** A whole block, with zeros where the file does not reach. */
  predicate Padded(s: Shape, block: nat, data: seq<Byte>) {
    |data| == s.blockSize && forall k :: 0 <= k < |data| && FetchSize(s, block) <= k ==> data[k] == 0
  }

  /** The cache agrees with the pinned blocks. */
  ghost predicate Sound(sha: seq<Byte> -> Digest, c: Cache, pins: Pins) {
    && IsCache(c)
    && (forall b :: b in pins ==> b < c.shape.fileBlocks && Padded(c.shape, b, pins[b]) && c.hashes[b] == sha(pins[b]))
    && (forall b :: 0 <= b < c.shape.fileBlocks && b !in pins ==> c.hashes[b] == UNREAD)
    && Shown(c.shape, pins, c.currBlock, c.blockData)
  }

  /**
   `data` is what block `b` reads as: the pinned block, or zeros past the end of the file.  Nothing
   is said of the number that stands for "no block".
   */
  ghost predicate Shown(s: Shape, pins: Pins, b: nat, data: seq<Byte>) {
    b != NO_BLOCK ==> if b < s.fileBlocks then b in pins && data == pins[b] else data == Zeros(s.blockSize)
  }

  ghost predicate Extends(pins: Pins, more: Pins) {
    forall b :: b in pins ==> b in more && more[b] == pins[b]
  }

  /** No two blocks of `blocks` share a hash, and none hashes to the mark of an unread block. */
  ghost predicate CollisionFree(sha: seq<Byte> -> Digest, blocks: set<seq<Byte>>) {
    && (forall x, y :: x in blocks && y in blocks && sha(x) == sha(y) ==> x == y)
    && (forall x :: x in blocks ==> sha(x) != UNREAD)
  }

  /** The block that a provider call delivers. */
  ghost function BlockFrom(s: Shape, block: nat, reply: Reply): set<seq<Byte>>
    requires IsShape(s) && IsReply(s, reply)
  {
    if block < s.fileBlocks && reply.Data? then FetchSizeInRange(s, block); {Formed(s, block, reply.image)} else {}
  }

  /** The provider is not asked, does not fail, or fails when no block is cached or without changing the buffer. */
  predicate Harmless(c: Cache, block: nat, reply: Reply)
    requires IsCache(c) && IsReply(c.shape, reply)
  {
    reply.Data? || block == c.currBlock || block >= c.shape.fileBlocks || c.currBlock == NO_BLOCK
    || (FetchSizeInRange(c.shape, block); Formed(c.shape, block, reply.image) == c.blockData)
  }

  /** A fetch keeps the cache sound, adding at most the fetched block to the pins. */
  lemma FetchSound(sha: seq<Byte> -> Digest, c: Cache, pins: Pins, block: nat, reply: Reply, blocks: set<seq<Byte>>)
    returns (more: Pins)
    requires Sound(sha, c, pins) && IsReply(c.shape, reply) && Harmless(c, block, reply) && block < TWO_32
    requires CollisionFree(sha, blocks) && pins.Values <= blocks && BlockFrom(c.shape, block, reply) <= blocks
    ensures var (d, code) := Fetch(sha, c, block, reply);
            && Sound(sha, d, more) && Extends(pins, more) && more.Values <= blocks
            && (code == 0 ==> d.currBlock == block && Shown(d.shape, more, block, d.blockData))
  {
    more := pins;
    if block != c.currBlock && block < c.shape.fileBlocks && reply.Data? {
      FetchSizeInRange(c.shape, block);
      var data := Formed(c.shape, block, reply.image);
      assert data in blocks;
      if block !in pins {
        more := pins[block := data];
        assert more.Values <= blocks;
      } else {
        assert pins[block] in pins.Values;
      }
    }
  }

  /**
   When a fetch fails: if the provider does, with its code, or with EIO if the host delivers a block
   that differs from the pinned one.
   */
  lemma FetchFailsExactly(sha: seq<Byte> -> Digest, c: Cache, pins: Pins, block: nat, reply: Reply)
    requires Sound(sha, c, pins) && IsReply(c.shape, reply) && block < TWO_32
    requires CollisionFree(sha, pins.Values + BlockFrom(c.shape, block, reply))
    ensures var code := Fetch(sha, c, block, reply).1;
            if block == c.currBlock || block >= c.shape.fileBlocks then code == 0
            else if reply.Failed? then code == reply.code
            else code == if block in pins && {pins[block]} != BlockFrom(c.shape, block, reply) then -5 else 0
  {
    if block != c.currBlock && block < c.shape.fileBlocks && reply.Data? {
      FetchSizeInRange(c.shape, block);
      var data := Formed(c.shape, block, reply.image);
      assert data in pins.Values + BlockFrom(c.shape, block, reply);
      if block in pins {
        assert pins[block] in pins.Values;
      }
    }
  }

  /** The byte that position `pos` reads as. */
  ghost function Truth(s: Shape, pins: Pins, pos: nat): int
    requires s.blockSize > 0
  {
    var b := BlockOf(s, pos);
    if b < s.fileBlocks then
      (if b in pins && pos % s.blockSize < |pins[b]| then pins[b][pos % s.blockSize] else -1)
    else 0
  }

  /** The position is not in the block whose number stands for "no block". */
  predicate Addressable(s: Shape, pos: nat)
    requires s.blockSize > 0
  {
    BlockOf(s, pos) != NO_BLOCK
  }

  /** All of `bytes`, from position `offset` on, are what the pins say. */
  ghost predicate Vouched(s: Shape, pins: Pins, offset: nat, bytes: seq<Byte>)
    requires s.blockSize > 0
  {
    forall k {:trigger bytes[k]} :: 0 <= k < |bytes| && Addressable(s, offset + k) ==>
      bytes[k] == Truth(s, pins, offset + k)
  }

  ghost predicate TellsTruth(s: Shape, pins: Pins, q: Request, r: Response)
    requires s.blockSize > 0
  {
    r.Bytes? ==> |r.data| == q.size && Vouched(s, pins, q.offset, r.data)
  }

  predicate Spans(s: Shape, q: Request)
    requires s.blockSize > 0
  {
    q.size + q.offset % s.blockSize > s.blockSize
  }

  /** The block after that of an offset, in 32 bits. */
  function NextBlock(s: Shape, offset: nat): nat
    requires s.blockSize > 0
  {
    (BlockOf(s, offset) + 1) % TWO_32
  }

  /** A read answers with an error exactly if it is of another node or one of its fetches fails, and with that code. */
  lemma ReadFailsExactly(sha: seq<Byte> -> Digest, c: Cache, q: Request)
    requires IsCache(c) && IsRequest(c.shape, q)
    ensures var r := Read(sha, c, q).1;
            var (d, first) := Fetch(sha, c, BlockOf(c.shape, q.offset), q.first);
            if q.nodeid != 2 then r == Error(-2)
            else if first != 0 then r == Error(first)
            else if !Spans(c.shape, q) then r.Bytes?
            else
              var second := Fetch(sha, d, NextBlock(c.shape, q.offset), q.second).1;
              if second != 0 then r == Error(second) else r.Bytes?
  {
    OffsetInIs(c.shape, q.offset);
  }

  /** The blocks that the host may deliver during a read. */
  ghost function RequestBlocks(s: Shape, q: Request): set<seq<Byte>>
    requires IsShape(s) && IsRequest(s, q)
  {
    BlockFrom(s, BlockOf(s, q.offset), q.first)
    + if Spans(s, q) then BlockFrom(s, NextBlock(s, q.offset), q.second) else {}
  }

  /** Positions of one block, and of the next. */
  lemma PositionsOf(s: Shape, offset: nat, k: nat)
    requires IsShape(s)
    ensures var at := offset % s.blockSize;
            && (at + k < s.blockSize ==>
                  BlockOf(s, offset + k) == BlockOf(s, offset) && (offset + k) % s.blockSize == at + k)
            && (s.blockSize <= at + k < 2 * s.blockSize ==>
                  BlockOf(s, offset + k) == NextBlock(s, offset) && (offset + k) % s.blockSize == at + k - s.blockSize)
  {
    var q, at := offset / s.blockSize, offset % s.blockSize;
    assert offset == q * s.blockSize + at;
    if at + k < s.blockSize {
      FixedMath.QuotientUnique(offset + k, s.blockSize, q, at + k);
    } else if at + k < 2 * s.blockSize {
      assert (q + 1) * s.blockSize == q * s.blockSize + s.blockSize;
      FixedMath.QuotientUnique(offset + k, s.blockSize, q + 1, at + k - s.blockSize);
      NextResidue(q);
    }
  }

  lemma NextResidue(q: nat)
    ensures (q + 1) % TWO_32 == (q % TWO_32 + 1) % TWO_32
  {
  }

  /** The provider calls of one read are harmless. */
  predicate HarmlessRead(sha: seq<Byte> -> Digest, c: Cache, q: Request)
    requires IsCache(c) && IsRequest(c.shape, q)
  {
    q.nodeid == PACKAGE_FILE_ID ==>
      var block := BlockOf(c.shape, q.offset);
      && Harmless(c, block, q.first)
      && var (d, code) := Fetch(sha, c, block, q.first);
         (code == 0 && Spans(c.shape, q) ==> Harmless(d, NextBlock(c.shape, q.offset), q.second))
  }

  lemma HeadByte(s: Shape, pins: Pins, offset: nat, data: seq<Byte>, k: nat)
    requires IsShape(s) && |data| == s.blockSize && Shown(s, pins, BlockOf(s, offset), data)
    requires offset % s.blockSize + k < s.blockSize && Addressable(s, offset + k)
    ensures data[offset % s.blockSize + k] == Truth(s, pins, offset + k)
  {
    PositionsOf(s, offset, k);
  }

  lemma TailByte(s: Shape, pins: Pins, offset: nat, data: seq<Byte>, k: nat)
    requires IsShape(s) && |data| == s.blockSize && Shown(s, pins, NextBlock(s, offset), data)
    requires k < s.blockSize && Addressable(s, offset + (s.blockSize - offset % s.blockSize) + k)
    ensures data[k] == Truth(s, pins, offset + (s.blockSize - offset % s.blockSize) + k)
  {
    PositionsOf(s, offset, s.blockSize - offset % s.blockSize + k);
  }

  /** The part of a block from the offset on is vouched for ... */
  lemma HeadVouched(s: Shape, pins: Pins, offset: nat, data: seq<Byte>, n: nat)
    requires IsShape(s) && |data| == s.blockSize && Shown(s, pins, BlockOf(s, offset), data)
    requires offset % s.blockSize + n <= s.blockSize
    ensures var at := offset % s.blockSize;
            Vouched(s, pins, offset, data[at..at + n])
  {
    var at := offset % s.blockSize;
    var head := data[at..at + n];
    forall k | 0 <= k < n && Addressable(s, offset + k)
      ensures head[k] == Truth(s, pins, offset + k)
    {
      HeadByte(s, pins, offset, data, k);
    }
  }

  /** ... and so is it together with the start of the next block. */
  lemma SpanVouched(s: Shape, pins: Pins, offset: nat, head: seq<Byte>, data: seq<Byte>, n: nat)
    requires IsShape(s) && |data| == s.blockSize && n <= s.blockSize
    requires |head| == s.blockSize - offset % s.blockSize && Vouched(s, pins, offset, head)
    requires Shown(s, pins, NextBlock(s, offset), data)
    ensures Vouched(s, pins, offset, head + data[..n])
  {
    var all := head + data[..n];
    forall k | 0 <= k < |all| && Addressable(s, offset + k)
      ensures all[k] == Truth(s, pins, offset + k)
    {
      if k < |head| {
        assert head[k] == all[k];
      } else {
        TailByte(s, pins, offset, data, k - |head|);
      }
    }
  }

  /** Bytes vouched for once stay vouched for. */
  lemma VouchedStays(s: Shape, pins: Pins, more: Pins, offset: nat, bytes: seq<Byte>)
    requires IsShape(s) && Extends(pins, more) && Vouched(s, pins, offset, bytes)
    ensures Vouched(s, more, offset, bytes)
  {
  }

  /** What a read promises, of the cache and the response it leaves. */
  ghost predicate Told(sha: seq<Byte> -> Digest, q: Request, pins: Pins, more: Pins, blocks: set<seq<Byte>>,
                       r: (Cache, Response)) {
    && Sound(sha, r.0, more) && Extends(pins, more) && more.Values <= blocks
    && TellsTruth(r.0.shape, more, q, r.1)
  }

  lemma HeadTells(s: Shape, pins: Pins, q: Request, data: seq<Byte>)
    requires IsShape(s) && IsRequest(s, q) && |data| == s.blockSize && Shown(s, pins, BlockOf(s, q.offset), data)
    ensures var at := q.offset % s.blockSize;
            && Vouched(s, pins, q.offset, data[at..])
            && (!Spans(s, q) ==> TellsTruth(s, pins, q, Bytes(data[at..at + q.size])))
  {
    var at := q.offset % s.blockSize;
    assert data[at..] == data[at..at + (s.blockSize - at)];
    HeadVouched(s, pins, q.offset, data, s.blockSize - at);
    if !Spans(s, q) {
      HeadVouched(s, pins, q.offset, data, q.size);
    }
  }

  lemma SpillTells(s: Shape, pins: Pins, more: Pins, q: Request, head: seq<Byte>, data: seq<Byte>)
    requires IsShape(s) && IsRequest(s, q) && Spans(s, q) && |data| == s.blockSize
    requires |head| == s.blockSize - q.offset % s.blockSize && Vouched(s, pins, q.offset, head)
    requires Extends(pins, more) && Shown(s, more, NextBlock(s, q.offset), data)
    ensures TellsTruth(s, more, q, Bytes(head + data[..q.size - |head|]))
  {
    VouchedStays(s, pins, more, q.offset, head);
    SpanVouched(s, more, q.offset, head, data, q.size - |head|);
  }

  /** The second half of a read that spans two blocks. */
  lemma SpillSound(sha: seq<Byte> -> Digest, c: Cache, pins: Pins, q: Request, head: seq<Byte>, blocks: set<seq<Byte>>)
    returns (more: Pins)
    requires Sound(sha, c, pins) && IsRequest(c.shape, q) && Spans(c.shape, q)
    requires Harmless(c, NextBlock(c.shape, q.offset), q.second)
    requires CollisionFree(sha, blocks) && pins.Values <= blocks && RequestBlocks(c.shape, q) <= blocks
    requires |head| == c.shape.blockSize - q.offset % c.shape.blockSize && Vouched(c.shape, pins, q.offset, head)
    ensures Told(sha, q, pins, more, blocks, Spill(sha, c, BlockOf(c.shape, q.offset), head, q))
  {
    hide Fetch, Harmless, Truth, Vouched, CollisionFree, BlockFrom, Spill, Told, Extends, Shown, NextBlock;
    var next := NextBlock(c.shape, q.offset);
    NextInRange(c.shape, q.offset);
    more := FetchSound(sha, c, pins, next, q.second, blocks);
    var (d, code) := Fetch(sha, c, next, q.second);
    SpillCases(sha, c, head, q);
    if code == 0 {
      SpillTells(c.shape, pins, more, q, head, d.blockData);
      ToldBy(sha, d, q, pins, more, blocks, Bytes(head + d.blockData[..q.size - |head|]));
    } else {
      ToldBy(sha, d, q, pins, more, blocks, Error(code));
    }
  }

  lemma NextInRange(s: Shape, offset: nat)
    requires s.blockSize > 0
    ensures NextBlock(s, offset) < TWO_32
  {
  }

  lemma SpillCases(sha: seq<Byte> -> Digest, c: Cache, head: seq<Byte>, q: Request)
    requires IsCache(c) && IsRequest(c.shape, q) && |head| <= q.size
    ensures var (d, code) := Fetch(sha, c, NextBlock(c.shape, q.offset), q.second);
            Spill(sha, c, BlockOf(c.shape, q.offset), head, q)
            == (d, if code != 0 then Error(code) else Bytes(head + d.blockData[..q.size - |head|]))
  {
    hide Fetch;
  }

  lemma ToldBy(sha: seq<Byte> -> Digest, d: Cache, q: Request, pins: Pins, more: Pins, blocks: set<seq<Byte>>,
               r: Response)
    requires Sound(sha, d, more) && Extends(pins, more) && more.Values <= blocks && TellsTruth(d.shape, more, q, r)
    ensures Told(sha, q, pins, more, blocks, (d, r))
  {
  }

  /** The cases of a read, with the offset within the block in plain arithmetic. */
  lemma ReadCases(sha: seq<Byte> -> Digest, c: Cache, q: Request)
    requires IsCache(c) && IsRequest(c.shape, q) && q.nodeid == PACKAGE_FILE_ID
    ensures var (d, code) := Fetch(sha, c, BlockOf(c.shape, q.offset), q.first);
            var at := q.offset % c.shape.blockSize;
            Read(sha, c, q) ==
            if code != 0 then (d, Error(code))
            else if !Spans(c.shape, q) then (d, Bytes(d.blockData[at..at + q.size]))
            else Spill(sha, d, BlockOf(c.shape, q.offset), d.blockData[at..], q)
  {
    OffsetInIs(c.shape, q.offset);
  }

  /** A read that ends with its first block. */
  lemma WithinTold(sha: seq<Byte> -> Digest, d: Cache, q: Request, pins: Pins, mid: Pins, blocks: set<seq<Byte>>)
    requires && Sound(sha, d, mid) && Extends(pins, mid) && mid.Values <= blocks && IsRequest(d.shape, q)
             && !Spans(d.shape, q)
    requires Shown(d.shape, mid, BlockOf(d.shape, q.offset), d.blockData)
    ensures var at := q.offset % d.shape.blockSize;
            Told(sha, q, pins, mid, blocks, (d, Bytes(d.blockData[at..at + q.size])))
  {
    HeadTells(d.shape, mid, q, d.blockData);
  }

  /** A read that goes on to the next block. */
  lemma SpanTold(sha: seq<Byte> -> Digest, d: Cache, q: Request, pins: Pins, mid: Pins, blocks: set<seq<Byte>>)
    returns (more: Pins)
    requires && Sound(sha, d, mid) && Extends(pins, mid) && mid.Values <= blocks && IsRequest(d.shape, q)
             && Spans(d.shape, q)
    requires Shown(d.shape, mid, BlockOf(d.shape, q.offset), d.blockData)
    requires Harmless(d, NextBlock(d.shape, q.offset), q.second)
    requires CollisionFree(sha, blocks) && RequestBlocks(d.shape, q) <= blocks
    ensures Told(sha, q, pins, more, blocks,
                 Spill(sha, d, BlockOf(d.shape, q.offset), d.blockData[q.offset % d.shape.blockSize..], q))
  {
    hide Spill, Harmless, CollisionFree, BlockFrom;
    HeadTells(d.shape, mid, q, d.blockData);
    more := SpillSound(sha, d, mid, q, d.blockData[q.offset % d.shape.blockSize..], blocks);
  }

  /** One read keeps the cache sound and returns bytes that the pins vouch for. */
  lemma ReadSound(sha: seq<Byte> -> Digest, c: Cache, pins: Pins, q: Request, blocks: set<seq<Byte>>)
    returns (more: Pins)
    requires Sound(sha, c, pins) && IsRequest(c.shape, q) && HarmlessRead(sha, c, q)
    requires CollisionFree(sha, blocks) && pins.Values <= blocks && RequestBlocks(c.shape, q) <= blocks
    ensures Told(sha, q, pins, more, blocks, Read(sha, c, q))
  {
    more := pins;
    if q.nodeid == PACKAGE_FILE_ID {
      more := FoundSound(sha, c, pins, q, blocks);
    }
  }

  lemma FoundSound(sha: seq<Byte> -> Digest, c: Cache, pins: Pins, q: Request, blocks: set<seq<Byte>>)
    returns (more: Pins)
    requires Sound(sha, c, pins) && IsRequest(c.shape, q) && HarmlessRead(sha, c, q) && q.nodeid == PACKAGE_FILE_ID
    requires CollisionFree(sha, blocks) && pins.Values <= blocks && RequestBlocks(c.shape, q) <= blocks
    ensures Told(sha, q, pins, more, blocks, Read(sha, c, q))
  {
    hide Fetch, Read, Spill, Harmless, CollisionFree, BlockFrom, Extends, Shown, Told, NextBlock, Spans;
    ReadCases(sha, c, q);
    var block := BlockOf(c.shape, q.offset);
    more := FetchSound(sha, c, pins, block, q.first, blocks);
    var (d, code) := Fetch(sha, c, block, q.first);
    if code == 0 {
      if Spans(c.shape, q) {
        more := SpanTold(sha, d, q, pins, more, blocks);
      } else {
        WithinTold(sha, d, q, pins, more, blocks);
      }
    } else {
      ToldBy(sha, d, q, pins, more, blocks, Error(code));
    }
  }

  predicate AllRequests(s: Shape, qs: seq<Request>) {
    forall i :: 0 <= i < |qs| ==> IsRequest(s, qs[i])
  }

  /** The responses to a sequence of requests. */
  function Responses(sha: seq<Byte> -> Digest, c: Cache, qs: seq<Request>): (rs: seq<Response>)
    requires IsCache(c) && AllRequests(c.shape, qs)
    ensures |rs| == |qs|
    decreases |qs|
  {
    if qs == [] then []
    else
      var (d, r) := Read(sha, c, qs[0]);
      [r] + Responses(sha, d, qs[1..])
  }

  /** Every block that the host sends during a run. */
  ghost function RunBlocks(s: Shape, qs: seq<Request>): set<seq<Byte>>
    requires IsShape(s) && AllRequests(s, qs)
  {
    if qs == [] then {} else RequestBlocks(s, qs[0]) + RunBlocks(s, qs[1..])
  }

  /** The provider calls of a whole run are harmless. */
  predicate HarmlessRun(sha: seq<Byte> -> Digest, c: Cache, qs: seq<Request>)
    requires IsCache(c) && AllRequests(c.shape, qs)
    decreases |qs|
  {
    qs != [] ==> HarmlessRead(sha, c, qs[0]) && HarmlessRun(sha, Read(sha, c, qs[0]).0, qs[1..])
  }

  /** In particular they are if the provider never fails. */
  lemma {:induction false} NoFailures(sha: seq<Byte> -> Digest, c: Cache, qs: seq<Request>)
    requires IsCache(c) && AllRequests(c.shape, qs)
    requires forall i :: 0 <= i < |qs| ==> qs[i].first.Data? && qs[i].second.Data?
    ensures HarmlessRun(sha, c, qs)
    decreases |qs|
  {
    if qs == [] {
    } else {
      NoFailures(sha, Read(sha, c, qs[0]).0, qs[1..]);
    }
  }

  ghost predicate AllTrue(s: Shape, pins: Pins, qs: seq<Request>, rs: seq<Response>)
    requires s.blockSize > 0 && |rs| == |qs|
  {
    forall i {:trigger rs[i]} :: 0 <= i < |qs| ==> TellsTruth(s, pins, qs[i], rs[i])
  }

  lemma AllTrueFront(s: Shape, pins: Pins, q: Request, qs: seq<Request>, r: Response, rs: seq<Response>)
    requires s.blockSize > 0 && |rs| == |qs|
    requires TellsTruth(s, pins, q, r) && AllTrue(s, pins, qs, rs)
    ensures AllTrue(s, pins, [q] + qs, [r] + rs)
  {
    forall i | 0 <= i <= |qs|
      ensures TellsTruth(s, pins, ([q] + qs)[i], ([r] + rs)[i])
    {
      if i > 0 {
        assert ([r] + rs)[i] == rs[i - 1] && ([q] + qs)[i] == qs[i - 1];
      }
    }
  }

  lemma RunParts(s: Shape, qs: seq<Request>)
    requires IsShape(s) && AllRequests(s, qs) && qs != []
    ensures IsRequest(s, qs[0]) && AllRequests(s, qs[1..])
    ensures RunBlocks(s, qs) == RequestBlocks(s, qs[0]) + RunBlocks(s, qs[1..])
  {
  }

  /** Over a whole run there is one set of pinned blocks that vouches for every byte returned. */
  lemma {:induction false} RunSound(sha: seq<Byte> -> Digest, c: Cache, pins: Pins, qs: seq<Request>,
                                    blocks: set<seq<Byte>>)
    returns (final: Pins)
    requires Sound(sha, c, pins) && AllRequests(c.shape, qs) && HarmlessRun(sha, c, qs)
    requires CollisionFree(sha, blocks) && pins.Values <= blocks && RunBlocks(c.shape, qs) <= blocks
    ensures Extends(pins, final) && AllTrue(c.shape, final, qs, Responses(sha, c, qs))
    decreases |qs|
  {
    final := pins;
    if qs == [] {
    } else {
      RunParts(c.shape, qs);
      var more := ReadSound(sha, c, pins, qs[0], blocks);
      var (d, r) := Read(sha, c, qs[0]);
      final := RunSound(sha, d, more, qs[1..], blocks);
      TruthStays(c.shape, more, final, qs[0], r);
      AllTrueFront(c.shape, final, qs[0], qs[1..], r, Responses(sha, d, qs[1..]));
      assert qs == [qs[0]] + qs[1..];
    }
  }

  lemma TruthStays(s: Shape, pins: Pins, more: Pins, q: Request, r: Response)
    requires IsShape(s) && Extends(pins, more) && TellsTruth(s, pins, q, r)
    ensures TellsTruth(s, more, q, r)
  {
    if r.Bytes? {
      VouchedStays(s, pins, more, q.offset, r.data);
    }
  }

  /** The cache as run_fuse_sideload sets it up; the buffer's first content is whatever was there. */
  function Opened(s: Shape, junk: seq<Byte>): (c: Cache)
    requires IsShape(s) && |junk| == s.blockSize
    ensures IsCache(c) && c.shape == s
  {
    Cache(s, NO_BLOCK, junk, seq(s.fileBlocks, _ => UNREAD))
  }

  /** `r` answers `q` with the byte `v` at position `pos`. */
  ghost predicate Answers(q: Request, r: Response, pos: nat, v: int) {
    r.Bytes? && q.offset <= pos < q.offset + |r.data| && r.data[pos - q.offset] == v
  }

  /** Every request that is answered is answered in full. */
  predicate InFull(qs: seq<Request>, rs: seq<Response>)
    requires |rs| == |qs|
  {
    forall i :: 0 <= i < |rs| && rs[i].Bytes? ==> |rs[i].data| == qs[i].size
  }

  /** No two reads answer position `pos` with different bytes. */
  ghost predicate AgreeAt(qs: seq<Request>, rs: seq<Response>, pos: nat)
    requires |rs| == |qs|
  {
    forall i, j, v, w ::
      0 <= i < |rs| && 0 <= j < |rs| && Answers(qs[i], rs[i], pos, v) && Answers(qs[j], rs[j], pos, w) ==> v == w
  }

  lemma AnswerTrue(s: Shape, pins: Pins, q: Request, r: Response, pos: nat, v: int)
    requires s.blockSize > 0 && TellsTruth(s, pins, q, r) && Answers(q, r, pos, v) && Addressable(s, pos)
    ensures v == Truth(s, pins, pos)
  {
    var k := pos - q.offset;
    assert q.offset + k == pos && r.data[k] == v;
  }

  lemma TrueAgree(s: Shape, pins: Pins, qs: seq<Request>, rs: seq<Response>, pos: nat)
    requires s.blockSize > 0 && |rs| == |qs| && AllTrue(s, pins, qs, rs) && Addressable(s, pos)
    ensures AgreeAt(qs, rs, pos)
  {
    forall i, v | 0 <= i < |rs| && Answers(qs[i], rs[i], pos, v)
      ensures v == Truth(s, pins, pos)
    {
      AnswerTrue(s, pins, qs[i], rs[i], pos, v);
    }
  }

  /**
   Over every run whose provider failures are harmless, however the host answers, all reads of a
   position outside block 2^32 - 1 return the same byte.
   */
  lemma ReadsAgree(sha: seq<Byte> -> Digest, s: Shape, junk: seq<Byte>, qs: seq<Request>)
    requires IsShape(s) && |junk| == s.blockSize && AllRequests(s, qs) && HarmlessRun(sha, Opened(s, junk), qs)
    requires CollisionFree(sha, RunBlocks(s, qs))
    ensures var rs := Responses(sha, Opened(s, junk), qs);
            InFull(qs, rs) && forall pos :: 0 <= pos && Addressable(s, pos) ==> AgreeAt(qs, rs, pos)
  {
    var c := Opened(s, junk);
    var final := RunSound(sha, c, map[], qs, RunBlocks(s, qs));
    var rs := Responses(sha, c, qs);
    forall pos | 0 <= pos && Addressable(s, pos)
      ensures AgreeAt(qs, rs, pos)
    {
      TrueAgree(s, final, qs, rs, pos);
    }
  }
}
