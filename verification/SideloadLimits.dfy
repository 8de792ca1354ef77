/**
 Where the promise of the sideload file system ends, and that it ends nowhere else.

 `Sideload.ReadsAgree` has two conditions that a caller could meet or not: provider failures are
 harmless, and the position is not in block 2^32 - 1, the number that stands for "no block".  Both
 are exact.  `HarmlessExactly` says that after any other failure some later run disagrees, and
 `AddressableExactly` that no position of that block is safe.
 */
module SideloadLimits {
  import opened Bytes
  import opened Sideload
  import FixedMath

  /** A read of one byte, answered with `image` if the host is asked. */
  function ByteRequest(pos: nat, image: seq<Byte>): Request {
    Request(PACKAGE_FILE_ID, pos, 1, Data(image), Data(image))
  }

  lemma ByteRead(sha: seq<Byte> -> Digest, c: Cache, pos: nat, image: seq<Byte>, d: Cache)
    requires IsCache(c) && c.shape.blockSize == |image| && Fetch(sha, c, BlockOf(c.shape, pos), Data(image)) == (d, 0)
    ensures Read(sha, c, ByteRequest(pos, image)) == (d, Bytes([d.blockData[pos % c.shape.blockSize]]))
  {
    hide Fetch, Read;
    var k := pos % c.shape.blockSize;
    ReadCases(sha, c, ByteRequest(pos, image));
    assert d.blockData[k..k + 1] == [d.blockData[k]];
  }

  lemma ThreeResponses(sha: seq<Byte> -> Digest, c: Cache, x: Request, y: Request, z: Request)
    requires IsCache(c) && IsRequest(c.shape, x) && IsRequest(c.shape, y) && IsRequest(c.shape, z)
    ensures var (d, r) := Read(sha, c, x);
            var (e, t) := Read(sha, d, y);
            Responses(sha, c, [x, y, z]) == [r, t, Read(sha, e, z).1]
  {
    hide Read;
    var (d, r) := Read(sha, c, x);
    var (e, t) := Read(sha, d, y);
    assert [x, y, z][1..] == [y, z] && [y, z][1..] == [z];
    assert Responses(sha, e, [z]) == [Read(sha, e, z).1];
    assert Responses(sha, d, [y, z]) == [t] + Responses(sha, e, [z]);
  }

  /** The answers to the same byte request, before and after another request, differ. */
  lemma AnswersDiffer(qs: seq<Request>, rs: seq<Response>, pos: nat, v: Byte, w: Byte)
    requires |qs| == |rs| == 3 && qs[0].offset == qs[2].offset == pos && v != w
    requires rs[0] == Bytes([v]) && rs[2] == Bytes([w])
    ensures !AgreeAt(qs, rs, pos)
  {
    assert Answers(qs[0], rs[0], pos, v) && Answers(qs[2], rs[2], pos, w);
  }

  /** A block past the end of the file, other than that of `pos`. */
  function Elsewhere(s: Shape, pos: nat): (other: nat)
    requires IsShape(s)
    ensures s.fileBlocks <= other < NO_BLOCK && other != BlockOf(s, pos)
  {
    if BlockOf(s, pos) != s.fileBlocks then s.fileBlocks else s.fileBlocks + 1
  }

  lemma BlockStart(s: Shape, block: nat)
    requires s.blockSize > 0 && block < TWO_32
    ensures BlockOf(s, block * s.blockSize) == block && block * s.blockSize % s.blockSize == 0
  {
    FixedMath.QuotientUnique(block * s.blockSize, s.blockSize, block, 0);
  }

  /** A read of a byte, of a block past the end, and of the byte again. */
  function ThereAndBack(s: Shape, pos: nat, image: seq<Byte>): (qs: seq<Request>)
    requires IsShape(s) && |image| == s.blockSize
    ensures AllRequests(s, qs)
  {
    [ByteRequest(pos, image), ByteRequest(Elsewhere(s, pos) * s.blockSize, image), ByteRequest(pos, image)]
  }

  /** If the byte has changed when it is read again, the two reads disagree. */
  lemma ChangedDisagrees(sha: seq<Byte> -> Digest, c: Cache, pos: nat, image: seq<Byte>, d: Cache, e: Cache, f: Cache)
    requires IsCache(c) && c.shape.blockSize == |image|
    requires Fetch(sha, c, BlockOf(c.shape, pos), Data(image)) == (d, 0)
    requires Fetch(sha, d, Elsewhere(c.shape, pos), Data(image)) == (e, 0)
    requires Fetch(sha, e, BlockOf(c.shape, pos), Data(image)) == (f, 0)
    requires d.blockData[pos % c.shape.blockSize] != f.blockData[pos % c.shape.blockSize]
    ensures var qs := ThereAndBack(c.shape, pos, image);
            !AgreeAt(qs, Responses(sha, c, qs), pos)
  {
    hide Fetch, Read, AgreeAt, Responses;
    var s, k := c.shape, pos % c.shape.blockSize;
    var qs := ThereAndBack(s, pos, image);
    BlockStart(s, Elsewhere(s, pos));
    ByteRead(sha, c, pos, image, d);
    ByteRead(sha, d, Elsewhere(s, pos) * s.blockSize, image, e);
    ByteRead(sha, e, pos, image, f);
    ThreeResponses(sha, c, qs[0], qs[1], qs[2]);
    AnswersDiffer(qs, Responses(sha, c, qs), pos, d.blockData[k], f.blockData[k]);
  }

  lemma ThreeBlocks(s: Shape, x: Request, y: Request, z: Request)
    requires IsShape(s) && IsRequest(s, x) && IsRequest(s, y) && IsRequest(s, z)
    ensures RunBlocks(s, [x, y, z]) == RequestBlocks(s, x) + RequestBlocks(s, y) + RequestBlocks(s, z)
  {
    hide RequestBlocks;
    assert [x, y, z][1..] == [y, z] && [y, z][1..] == [z] && [z][1..] == [];
    assert RunBlocks(s, [z]) == RequestBlocks(s, z);
    assert RunBlocks(s, [y, z]) == RequestBlocks(s, y) + RunBlocks(s, [z]);
  }

  /** Such a run does no harm, and the host delivers at most `image`, for the block of `pos`. */
  lemma ThereAndBackPlain(sha: seq<Byte> -> Digest, c: Cache, pos: nat, image: seq<Byte>)
    requires IsCache(c) && c.shape.blockSize == |image|
    ensures var qs := ThereAndBack(c.shape, pos, image);
            HarmlessRun(sha, c, qs) && RunBlocks(c.shape, qs) <= BlockFrom(c.shape, BlockOf(c.shape, pos), Data(image))
  {
    hide Read, HarmlessRun, Formed, RunBlocks;
    var s := c.shape;
    var qs := ThereAndBack(s, pos, image);
    NoFailures(sha, c, qs);
    BlockStart(s, Elsewhere(s, pos));
    ThreeBlocks(s, qs[0], qs[1], qs[2]);
  }

  // ---- Provider failures ----------------------------------------------------------------------------

  /** A failing provider call leaves the cache sound exactly if it is harmless. */
  lemma FailureKeepsSound(sha: seq<Byte> -> Digest, c: Cache, pins: Pins, block: nat, reply: Reply)
    requires Sound(sha, c, pins) && IsReply(c.shape, reply) && reply.Failed? && block < TWO_32
    ensures Sound(sha, Fetch(sha, c, block, reply).0, pins) <==> Harmless(c, block, reply)
  {
    var (d, code) := Fetch(sha, c, block, reply);
    if Sound(sha, d, pins) && d.currBlock == c.currBlock != NO_BLOCK {
      assert Shown(d.shape, pins, d.currBlock, d.blockData) && Shown(c.shape, pins, c.currBlock, c.blockData);
    }
  }

  /** A run from `d` without further harm and without collisions agrees on position `pos`. */
  ghost predicate RunAgrees(sha: seq<Byte> -> Digest, d: Cache, pins: Pins, qs: seq<Request>, pos: nat)
    requires IsCache(d)
  {
    AllRequests(d.shape, qs) && HarmlessRun(sha, d, qs) && CollisionFree(sha, pins.Values + RunBlocks(d.shape, qs)) ==>
      AgreeAt(qs, Responses(sha, d, qs), pos)
  }

  /** Every later run agrees on every position outside block 2^32 - 1. */
  ghost predicate LaterRunsAgree(sha: seq<Byte> -> Digest, d: Cache, pins: Pins)
    requires IsCache(d)
  {
    forall qs, pos :: 0 <= pos && Addressable(d.shape, pos) ==> RunAgrees(sha, d, pins, qs, pos)
  }

  lemma SoundRunsAgree(sha: seq<Byte> -> Digest, d: Cache, pins: Pins)
    requires Sound(sha, d, pins)
    ensures LaterRunsAgree(sha, d, pins)
  {
    forall qs: seq<Request>, pos | 0 <= pos && Addressable(d.shape, pos)
      ensures RunAgrees(sha, d, pins, qs, pos)
    {
      if AllRequests(d.shape, qs) && HarmlessRun(sha, d, qs) &&
         CollisionFree(sha, pins.Values + RunBlocks(d.shape, qs)) {
        var final := RunSound(sha, d, pins, qs, pins.Values + RunBlocks(d.shape, qs));
        TrueAgree(d.shape, final, qs, Responses(sha, d, qs), pos);
      }
    }
  }

  /** Reading a cached block again after another one, from a host that sends it as it was pinned. */
  lemma RestoredFetch(sha: seq<Byte> -> Digest, c: Cache, pins: Pins, e: Cache)
    requires Sound(sha, c, pins) && c.currBlock != NO_BLOCK
    requires IsCache(e) && e.shape == c.shape && e.hashes == c.hashes && e.currBlock != c.currBlock
    ensures Fetch(sha, e, c.currBlock, Data(c.blockData)) == (e.(currBlock := c.currBlock, blockData := c.blockData), 0)
    ensures BlockFrom(c.shape, c.currBlock, Data(c.blockData)) <= pins.Values
  {
    if c.currBlock < c.shape.fileBlocks {
      FetchSizeInRange(c.shape, c.currBlock);
      assert Formed(c.shape, c.currBlock, c.blockData) == c.blockData;
      assert pins[c.currBlock] in pins.Values;
    }
  }

  lemma ScribbledFetch(sha: seq<Byte> -> Digest, c: Cache, block: nat, reply: Reply)
    requires IsCache(c) && IsReply(c.shape, reply) && reply.Failed? && block < TWO_32 && !Harmless(c, block, reply)
    ensures var d := Fetch(sha, c, block, reply).0;
            d == c.(blockData := d.blockData) && d.blockData != c.blockData && c.currBlock != NO_BLOCK
  {
  }

  lemma DifferAt(a: seq<Byte>, b: seq<Byte>) returns (k: nat)
    requires |a| == |b| && a != b
    ensures k < |a| && a[k] != b[k]
  {
    k :| 0 <= k < |a| && a[k] != b[k];
  }

  /** After a failing provider call that is not harmless, three reads find a position they disagree on. */
  lemma FailureBreaksAgreement(sha: seq<Byte> -> Digest, c: Cache, pins: Pins, block: nat, reply: Reply)
    returns (pos: nat)
    requires Sound(sha, c, pins) && CollisionFree(sha, pins.Values)
    requires IsReply(c.shape, reply) && reply.Failed? && block < TWO_32 && !Harmless(c, block, reply)
    ensures BlockOf(c.shape, pos) == c.currBlock != NO_BLOCK
    ensures !RunAgrees(sha, Fetch(sha, c, block, reply).0, pins, ThereAndBack(c.shape, pos, c.blockData), pos)
  {
    hide Fetch, Harmless, HarmlessRun, Read, BlockFrom, AgreeAt, BlockOf, CollisionFree, RunBlocks, Responses;
    var s, d := c.shape, Fetch(sha, c, block, reply).0;
    ScribbledFetch(sha, c, block, reply);
    var k := DifferAt(d.blockData, c.blockData);
    pos := c.currBlock * s.blockSize + k;
    BytePosition(s, c.currBlock, k);
    var other := Elsewhere(s, pos);
    var e := d.(currBlock := other, blockData := Zeros(s.blockSize));
    CachedFetch(sha, d, c.blockData);
    PastTheEnd(sha, d, other, c.blockData);
    RestoredFetch(sha, c, pins, e);
    ThereAndBackPlain(sha, d, pos, c.blockData);
    ChangedDisagrees(sha, d, pos, c.blockData, d, e, e.(currBlock := c.currBlock, blockData := c.blockData));
    assert pins.Values + RunBlocks(s, ThereAndBack(s, pos, c.blockData)) == pins.Values;
  }

  lemma BytePosition(s: Shape, block: nat, k: nat)
    requires s.blockSize > k && block < TWO_32
    ensures BlockOf(s, block * s.blockSize + k) == block && (block * s.blockSize + k) % s.blockSize == k
  {
    FixedMath.QuotientUnique(block * s.blockSize + k, s.blockSize, block, k);
  }

  lemma CachedFetch(sha: seq<Byte> -> Digest, c: Cache, image: seq<Byte>)
    requires IsCache(c) && |image| == c.shape.blockSize
    ensures Fetch(sha, c, c.currBlock, Data(image)) == (c, 0)
  {
  }

  lemma PastTheEnd(sha: seq<Byte> -> Digest, c: Cache, block: nat, image: seq<Byte>)
    requires IsCache(c) && |image| == c.shape.blockSize && c.shape.fileBlocks <= block < TWO_32 && block != c.currBlock
    ensures Fetch(sha, c, block, Data(image)) == (c.(currBlock := block, blockData := Zeros(c.shape.blockSize)), 0)
  {
  }

  /**
   From every state that a harmless run can reach: all later reads agree exactly if a failing
   provider call is harmless.
   */
  lemma HarmlessExactly(sha: seq<Byte> -> Digest, c: Cache, pins: Pins, block: nat, reply: Reply)
    requires Sound(sha, c, pins) && CollisionFree(sha, pins.Values)
    requires IsReply(c.shape, reply) && reply.Failed? && block < TWO_32
    ensures LaterRunsAgree(sha, Fetch(sha, c, block, reply).0, pins) <==> Harmless(c, block, reply)
  {
    hide Fetch, Harmless, RunAgrees;
    if Harmless(c, block, reply) {
      FailureKeepsSound(sha, c, pins, block, reply);
      SoundRunsAgree(sha, Fetch(sha, c, block, reply).0, pins);
    } else {
      var pos := FailureBreaksAgreement(sha, c, pins, block, reply);
    }
  }

  // ---- A whole run with a failure ---------------------------------------------------------------------

  /** A read of the second block during which the provider fails, having written `image`. */
  function FailingRead(s: Shape, image: seq<Byte>): Request {
    Request(PACKAGE_FILE_ID, s.blockSize, 1, Failed(-EIO, image), Data(image))
  }

  /** The first block of a file with more than one is whole. */
  lemma FirstWhole(s: Shape, image: seq<Byte>)
    requires IsShape(s) && s.fileBlocks >= 2 && |image| == s.blockSize
    ensures FetchSize(s, 0) == s.blockSize && Formed(s, 0, image) == image
  {
    FetchSizeInRange(s, 1);
  }

  lemma FirstFetch(sha: seq<Byte> -> Digest, s: Shape, junk: seq<Byte>, a: seq<Byte>)
    requires IsShape(s) && s.fileBlocks >= 2 && |junk| == |a| == s.blockSize
    ensures var (d, code) := Fetch(sha, Opened(s, junk), 0, Data(a));
            code == 0 && d.currBlock == 0 && d.blockData == a
  {
    FirstWhole(s, a);
  }

  lemma FailingReadScribbles(sha: seq<Byte> -> Digest, c: Cache, b: seq<Byte>)
    requires IsCache(c) && |b| == c.shape.blockSize && c.shape.fileBlocks >= 2 && c.currBlock == 0
    ensures var (d, r) := Read(sha, c, FailingRead(c.shape, b));
            d.currBlock == 0 && d.blockData[0] == b[0]
  {
    FetchSizeInRange(c.shape, 1);
    BytePosition(c.shape, 1, 0);
    ReadCases(sha, c, FailingRead(c.shape, b));
  }

  /**
   For every file of two blocks or more: the first byte is read, a read of the second block fails
   after the provider has written into the buffer, and the first byte reads differently.
   */
  lemma FailingRunDisagrees(sha: seq<Byte> -> Digest, s: Shape, junk: seq<Byte>, a: seq<Byte>, b: seq<Byte>)
    requires IsShape(s) && s.fileBlocks >= 2 && |junk| == |a| == |b| == s.blockSize && a[0] != b[0]
    ensures var qs := [ByteRequest(0, a), FailingRead(s, b), ByteRequest(0, a)];
            AllRequests(s, qs) && !AgreeAt(qs, Responses(sha, Opened(s, junk), qs), 0)
  {
    hide Fetch, Read, AgreeAt, Responses;
    var qs := [ByteRequest(0, a), FailingRead(s, b), ByteRequest(0, a)];
    var c := Opened(s, junk);
    FirstFetch(sha, s, junk, a);
    var d := Fetch(sha, c, 0, Data(a)).0;
    BytePosition(s, 0, 0);
    ByteRead(sha, c, 0, a, d);
    FailingReadScribbles(sha, d, b);
    var e := Read(sha, d, FailingRead(s, b)).0;
    CachedFetch(sha, e, a);
    ByteRead(sha, e, 0, a, e);
    ThreeResponses(sha, c, qs[0], qs[1], qs[2]);
    AnswersDiffer(qs, Responses(sha, c, qs), 0, a[0], b[0]);
  }

  /** There are such files: one of two blocks, for example. */
  lemma TwoBlocks()
    ensures IsShape(Shape(2048, 1024, 2))
  {
  }

  // ---- Block 2^32 - 1 ----------------------------------------------------------------------------------

  /**
   The first read of block 2^32 - 1 returns what the buffer held before anything was read; after a
   read of another block it returns zeros.
   */
  lemma NoBlockDisagrees(sha: seq<Byte> -> Digest, s: Shape, junk: seq<Byte>, pos: nat)
    requires IsShape(s) && |junk| == s.blockSize && !Addressable(s, pos) && junk[pos % s.blockSize] != 0
    ensures !OpenedRunAgrees(sha, s, junk, ThereAndBack(s, pos, junk), pos)
  {
    hide Fetch, HarmlessRun, Read, AgreeAt, RunBlocks, Responses;
    var c, other := Opened(s, junk), Elsewhere(s, pos);
    var e := c.(currBlock := other, blockData := Zeros(s.blockSize));
    CachedFetch(sha, c, junk);
    PastTheEnd(sha, c, other, junk);
    PastTheEnd(sha, e, NO_BLOCK, junk);
    ThereAndBackPlain(sha, c, pos, junk);
    ChangedDisagrees(sha, c, pos, junk, c, e, e.(currBlock := NO_BLOCK));
  }

  /** A run from the opened state without harm and without collisions agrees on position `pos`. */
  ghost predicate OpenedRunAgrees(sha: seq<Byte> -> Digest, s: Shape, junk: seq<Byte>, qs: seq<Request>, pos: nat)
    requires IsShape(s)
  {
    && |junk| == s.blockSize && AllRequests(s, qs) && HarmlessRun(sha, Opened(s, junk), qs)
    && CollisionFree(sha, RunBlocks(s, qs)) ==>
      AgreeAt(qs, Responses(sha, Opened(s, junk), qs), pos)
  }

  /** Every such run agrees on a position exactly if the position is not in block 2^32 - 1. */
  lemma AddressableExactly(sha: seq<Byte> -> Digest, s: Shape, pos: nat)
    requires IsShape(s)
    ensures Addressable(s, pos) <==> forall junk, qs :: OpenedRunAgrees(sha, s, junk, qs, pos)
  {
    hide Addressable, AgreeAt, OpenedRunAgrees;
    if Addressable(s, pos) {
      forall junk: seq<Byte>, qs: seq<Request>
        ensures OpenedRunAgrees(sha, s, junk, qs, pos)
      {
        OpenedRunSafe(sha, s, junk, qs, pos);
      }
    } else {
      var junk := seq<Byte>(s.blockSize, _ => 1);
      NoBlockDisagrees(sha, s, junk, pos);
    }
  }

  lemma OpenedRunSafe(sha: seq<Byte> -> Digest, s: Shape, junk: seq<Byte>, qs: seq<Request>, pos: nat)
    requires IsShape(s) && Addressable(s, pos)
    ensures OpenedRunAgrees(sha, s, junk, qs, pos)
  {
    if |junk| == s.blockSize && AllRequests(s, qs) && HarmlessRun(sha, Opened(s, junk), qs) &&
       CollisionFree(sha, RunBlocks(s, qs)) {
      ReadsAgree(sha, s, junk, qs);
    }
  }
}
