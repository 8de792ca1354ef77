/**
 struct fuse_data of bootable/recovery/fuse_sideload.c and the operations that overwrite it:
 `FetchBlock` and `HandleRead` work in place on the buffers and are proved to carry out
 `Sideload.Fetch` and `Sideload.Read`.
 */
module FuseData {
  import opened Bytes
  import opened Sideload

  /** The digest kept for each block, cut out of the flat array that holds them. */
  function Digests(bytes: seq<Byte>, n: nat): (ds: seq<Digest>)
    requires |bytes| == n * DIGEST_SIZE
    ensures |ds| == n && forall b :: 0 <= b < n ==> ds[b] == bytes[b * DIGEST_SIZE..(b + 1) * DIGEST_SIZE]
  {
    seq(n, b requires 0 <= b < n => bytes[b * DIGEST_SIZE..(b + 1) * DIGEST_SIZE])
  }

  /** Overwriting one digest's bytes changes that digest and no other. */
  lemma DigestStored(before: seq<Byte>, after: seq<Byte>, n: nat, block: nat, hash: Digest)
    requires |before| == |after| == n * DIGEST_SIZE && block < n
    requires forall i :: 0 <= i < |after| ==>
               after[i] == if block * DIGEST_SIZE <= i < (block + 1) * DIGEST_SIZE
                           then hash[i - block * DIGEST_SIZE] else before[i]
    ensures Digests(after, n) == Digests(before, n)[block := hash]
  {
    forall b | 0 <= b < n
      ensures Digests(after, n)[b] == Digests(before, n)[block := hash][b]
    {
      var lo := b * DIGEST_SIZE;
      assert after[lo..lo + DIGEST_SIZE] == if b == block then hash else before[lo..lo + DIGEST_SIZE];
    }
  }

  /** A slice of zeros is the mark of an unread block; any other slice is not. */
  lemma UnreadIff(bytes: seq<Byte>, n: nat, block: nat)
    requires |bytes| == n * DIGEST_SIZE && block < n
    ensures Digests(bytes, n)[block] == UNREAD <==>
            forall i :: block * DIGEST_SIZE <= i < (block + 1) * DIGEST_SIZE ==> bytes[i] == 0
  {
    var lo := block * DIGEST_SIZE;
    var d := Digests(bytes, n)[block];
    assert forall i :: lo <= i < lo + DIGEST_SIZE ==> bytes[i] == d[i - lo];
    assert forall i :: 0 <= i < DIGEST_SIZE ==> d[i] == bytes[lo + i] && UNREAD[i] == 0;
  }

  lemma NoDigests(bytes: seq<Byte>, n: nat)
    requires |bytes| == n * DIGEST_SIZE && forall i :: 0 <= i < |bytes| ==> bytes[i] == 0
    ensures Digests(bytes, n) == seq(n, _ => UNREAD)
  {
    forall b | 0 <= b < n
      ensures Digests(bytes, n)[b] == UNREAD
    {
      UnreadIff(bytes, n, b);
    }
  }

  class FuseData {
    const fileSize: nat
    const blockSize: nat
    const fileBlocks: nat
    const sha: seq<Byte> -> Digest
    var currBlock: nat
    const blockData: array<Byte>
    const extraBlock: array<Byte>
    const hashes: array<Byte>

    ghost predicate Valid()
      reads this, blockData, extraBlock, hashes
    {
      && IsShape(Shape(fileSize, blockSize, fileBlocks)) && currBlock < TWO_32
      && blockData.Length == blockSize && extraBlock.Length == blockSize && hashes.Length == fileBlocks * DIGEST_SIZE
      && blockData != extraBlock && blockData != hashes && extraBlock != hashes
    }

    ghost function Value(): (c: Cache)
      requires Valid()
      reads this, blockData, extraBlock, hashes
      ensures IsCache(c) && c.shape == Shape(fileSize, blockSize, fileBlocks)
    {
      Cache(Shape(fileSize, blockSize, fileBlocks), currBlock, blockData[..], Digests(hashes[..], fileBlocks))
    }

    /** The state that run_fuse_sideload starts from. */
    constructor (sha: seq<Byte> -> Digest, fileSize: nat, blockSize: nat, fileBlocks: nat)
      requires IsShape(Shape(fileSize, blockSize, fileBlocks))
      ensures Valid() && fresh(blockData) && fresh(extraBlock) && fresh(hashes)
      ensures && this.sha == sha && this.fileSize == fileSize && this.blockSize == blockSize
              && this.fileBlocks == fileBlocks
      ensures Value() == Opened(Shape(fileSize, blockSize, fileBlocks), blockData[..])
    {
      this.sha, this.fileSize, this.blockSize, this.fileBlocks := sha, fileSize, blockSize, fileBlocks;
      currBlock := NO_BLOCK;
      blockData := new Byte[blockSize];
      extraBlock := new Byte[blockSize];
      hashes := new Byte[fileBlocks * DIGEST_SIZE](_ => 0);
      new;
      NoDigests(hashes[..], fileBlocks);
    }

    /** memset of the buffer from `from` on. */
    method Clear(from: nat)
      requires Valid() && from <= blockSize
      modifies blockData
      ensures Valid() && blockData[..] == old(blockData[..from]) + Zeros(blockSize - from)
    {
      for i := from to blockSize
        invariant blockData[..i] == old(blockData[..from]) + Zeros(i - from)
      {
        blockData[i] := 0;
        assert Zeros(i + 1 - from) == Zeros(i - from) + [0];
      }
      assert blockData[..] == blockData[..blockSize];
    }

    /** The provider's write into the buffer. */
    method Receive(size: nat, image: seq<Byte>)
      requires Valid() && size <= blockSize == |image|
      modifies blockData
      ensures Valid() && blockData[..] == image[..size] + old(blockData[size..])
    {
      for i := 0 to size
        invariant blockData[..i] == image[..i] && blockData[i..] == old(blockData[i..])
      {
        blockData[i] := image[i];
      }
      assert blockData[..] == blockData[..size] + blockData[size..];
    }

    /** Compares the digest of `block` with the mark of an unread block, byte by byte. */
    method IsUnread(block: nat) returns (unread: bool)
      requires Valid() && block < fileBlocks
      ensures unread <==> Value().hashes[block] == UNREAD
    {
      UnreadIff(hashes[..], fileBlocks, block);
      for i := block * DIGEST_SIZE to (block + 1) * DIGEST_SIZE
        invariant forall k :: block * DIGEST_SIZE <= k < i ==> hashes[k] == 0
      {
        if hashes[i] != 0 {
          return false;
        }
      }
      return true;
    }

    method StoreDigest(block: nat, hash: Digest)
      requires Valid() && block < fileBlocks
      modifies hashes
      ensures Valid() && Value() == old(Value()).(hashes := old(Value()).hashes[block := hash])
    {
      var base := block * DIGEST_SIZE;
      for i := 0 to DIGEST_SIZE
        invariant forall k :: 0 <= k < hashes.Length ==>
                    hashes[k] == if base <= k < base + i then hash[k - base] else old(hashes[k])
      {
        hashes[base + i] := hash[i];
      }
      DigestStored(old(hashes[..]), hashes[..], fileBlocks, block, hash);
    }

    /** fetch_block; `reply` is what the provider does if it is called. */
    method FetchBlock(block: nat, reply: Reply) returns (code: int)
      requires Valid() && IsReply(Shape(fileSize, blockSize, fileBlocks), reply) && block < TWO_32
      modifies `currBlock, blockData, hashes
      ensures Valid() && (Value(), code) == Fetch(sha, old(Value()), block, reply)
    {
      if block == currBlock {
        return 0;
      }
      if block >= fileBlocks {
        Clear(0);
        currBlock := block;
        return 0;
      }
      ghost var s := Shape(fileSize, blockSize, fileBlocks);
      FetchSizeInRange(s, block);
      var fetchSize := blockSize;
      if block * blockSize % TWO_32 + fetchSize > fileSize {
        fetchSize := fileSize - block * blockSize % TWO_32;
        Clear(fetchSize);
      }
      Receive(fetchSize, reply.image);
      assert blockData[..] == Formed(s, block, reply.image);
      if reply.Failed? {
        return reply.code;
      }
      currBlock := block;
      code := CheckDigest(block);
    }

    /** The second half of fetch_block: accept, pin or refuse the block in the buffer. */
    method CheckDigest(block: nat) returns (code: int)
      requires Valid() && block < fileBlocks && currBlock == block
      modifies `currBlock, hashes
      ensures Valid()
      ensures var c := old(Value());
              var hash := sha(c.blockData);
              (Value(), code) ==
              if hash == c.hashes[block] then (c, 0)
              else if c.hashes[block] != UNREAD then (c.(currBlock := NO_BLOCK), -EIO)
              else (c.(hashes := c.hashes[block := hash]), 0)
    {
      var hash := sha(blockData[..]);
      if hash == hashes[block * DIGEST_SIZE..(block + 1) * DIGEST_SIZE] {
        return 0;
      }
      var unread := IsUnread(block);
      if !unread {
        currBlock := NO_BLOCK;
        return -EIO;
      }
      StoreDigest(block, hash);
      return 0;
    }

    /** memcpy of the end of the buffer into extra_block. */
    method SetAside(at: nat)
      requires Valid() && at <= blockSize
      modifies extraBlock
      ensures Valid() && extraBlock[..blockSize - at] == blockData[at..]
    {
      for i := 0 to blockSize - at
        invariant extraBlock[..i] == blockData[at..at + i]
      {
        extraBlock[i] := blockData[at + i];
      }
    }

    /** handle_read: the status or the bytes written back. */
    method HandleRead(q: Request) returns (r: Response)
      requires Valid() && IsRequest(Shape(fileSize, blockSize, fileBlocks), q)
      modifies `currBlock, blockData, extraBlock, hashes
      ensures Valid() && (Value(), r) == Read(sha, old(Value()), q)
    {
      if q.nodeid != PACKAGE_FILE_ID {
        return Error(-ENOENT);
      }
      var block := q.offset / blockSize % TWO_32;
      var code := FetchBlock(block, q.first);
      if code != 0 {
        return Error(code);
      }
      OffsetInIs(Shape(fileSize, blockSize, fileBlocks), q.offset);
      var at := (q.offset - block * blockSize % TWO_32) % TWO_32;
      if q.size + at <= blockSize {
        return Bytes(blockData[at..at + q.size]);
      }
      SetAside(at);
      ghost var mid := Value();
      r := ReadNext(block, blockSize - at, q);
      assert extraBlock[..blockSize - at] == mid.blockData[at..];
    }

    /** The second case of handle_read, with the end of the first block in extra_block. */
    method ReadNext(block: nat, kept: nat, q: Request) returns (r: Response)
      requires Valid() && IsRequest(Shape(fileSize, blockSize, fileBlocks), q) && kept <= q.size && kept <= blockSize
      modifies `currBlock, blockData, hashes
      ensures Valid() && (Value(), r) == Spill(sha, old(Value()), block, old(extraBlock[..kept]), q)
    {
      var code := FetchBlock((block + 1) % TWO_32, q.second);
      if code != 0 {
        return Error(code);
      }
      return Bytes(extraBlock[..kept] + blockData[..q.size - kept]);
    }
  }

  /** The size checks of run_fuse_sideload: `fd` is null exactly if the sizes are refused. */
  method SetUp(sha: seq<Byte> -> Digest, fileSize: nat, blockSize: nat) returns (fd: FuseData?)
    requires fileSize < TWO_32 * TWO_32 && blockSize < TWO_32
    ensures fd != null <==>
              && 1024 <= blockSize <= 4194304
              && (if fileSize == 0 then 0 else (fileSize - 1) / blockSize + 1) % 4294967296 <= 262144
    ensures fd == null <==> !(exists n :: IsShape(Shape(fileSize, blockSize, n)))
    ensures fd != null ==>
              fresh(fd) && fd.Valid() && fd.sha == sha && fd.fileSize == fileSize && fd.blockSize == blockSize
                           && fd.Value() == Opened(Shape(fileSize, blockSize, fd.fileBlocks), fd.blockData[..])
  {
    fd := null;
    if 1024 <= blockSize <= 0x40_0000 {
      var fileBlocks := (if fileSize == 0 then 0 else (fileSize - 1) / blockSize + 1) % TWO_32;
      if fileBlocks <= 0x4_0000 {
        assert IsShape(Shape(fileSize, blockSize, fileBlocks));
        fd := new FuseData(sha, fileSize, blockSize, fileBlocks);
      }
    }
  }
}
