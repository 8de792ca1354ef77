/**
 verify_file of bootable/recovery/verifier.cpp: the whole-file signature of an update package.

 The package ends in a six-byte footer (signature start, 0xffff, comment size) that is part of the
 ZIP comment of its end-of-central-directory record (section 4.3.16 of the PKWARE APPNOTE).
 `VerifyFile` follows the code.  It is proved to accept exactly the files that can be taken apart as
 a `Package` whose record is the last one and whose signature some key accepts for everything in
 front of the comment's length field.  Hash functions and signature checks are parameters.

 The code never compares the signature start with the length of the file, so it may be sent to
 look for the signature in front of the file.  The model gives that its own outcome.
 */
module PackageVerifier {
  import opened Bytes
  import Pkcs7

  const FOOTER_SIZE: nat := 6
  const EOCD_HEADER_SIZE: nat := 22
  const BUFFER_SIZE: nat := 4096
  const SHA1_SIZE: nat := 20
  const SHA256_SIZE: nat := 32
  const RSA_BYTES: nat := 256

  datatype KeyType = Rsa | Ec | Unknown

  datatype Key = Key(keyType: KeyType, hashLen: nat, material: nat)

  /** Hash functions of a whole message, and signature checks of a digest under a key. */
  datatype Crypto = Crypto(
    sha1: seq<Byte> -> seq<Byte>, sha256: seq<Byte> -> seq<Byte>,
    rsa: (Key, seq<Byte>, seq<Byte>) -> bool, ec: (Key, seq<Byte>, seq<Byte>) -> bool)

  datatype Outcome = Success | Failure | OutOfBounds

  // ---- What an acceptable package is ----------------------------------------------------------------

  /** The marker of an end-of-central-directory record at position `i`. */
  predicate MarkerAt(file: seq<Byte>, i: nat) {
    i + 4 <= |file| && file[i] == 0x50 && file[i + 1] == 0x4b && file[i + 2] == 0x05 && file[i + 3] == 0x06
  }

  predicate LastMarker(file: seq<Byte>, i: nat) {
    MarkerAt(file, i) && forall j :: i < j < |file| ==> !MarkerAt(file, j)
  }

  function Word(low: Byte, high: Byte): nat {
    low as int + 256 * (high as int)
  }

  function CommentSize(file: seq<Byte>): nat
    requires |file| >= FOOTER_SIZE
  {
    Word(file[|file| - 2], file[|file| - 1])
  }

  function SignatureStart(file: seq<Byte>): nat
    requires |file| >= FOOTER_SIZE
  {
    Word(file[|file| - 6], file[|file| - 5])
  }

  /** The footer is one, and the comment it announces is that of the last record in the file. */
  predicate Framed(file: seq<Byte>) {
    && |file| >= FOOTER_SIZE && file[|file| - 4] == 0xff && file[|file| - 3] == 0xff
    && SignatureStart(file) > FOOTER_SIZE
    && CommentSize(file) + EOCD_HEADER_SIZE <= |file|
    && LastMarker(file, |file| - CommentSize(file) - EOCD_HEADER_SIZE)
  }

  /** Everything before the comment and its length field. */
  function Signed(file: seq<Byte>): seq<Byte>
    requires |file| >= FOOTER_SIZE && CommentSize(file) + EOCD_HEADER_SIZE <= |file|
  {
    file[..|file| - CommentSize(file) - 2]
  }

  /** `key` accepts `signature` for `message`. */
  predicate Verifies(crypto: Crypto, key: Key, signature: seq<Byte>, message: seq<Byte>) {
    VerifiesDigests(crypto, key, signature, crypto.sha1(message), crypto.sha256(message))
  }

  predicate VerifiesDigests(crypto: Crypto, key: Key, signature: seq<Byte>, sha1: seq<Byte>, sha256: seq<Byte>) {
    && (key.hashLen == SHA1_SIZE || key.hashLen == SHA256_SIZE)
    && var digest := if key.hashLen == SHA1_SIZE then sha1 else sha256;
       match key.keyType
       case Rsa => |signature| >= RSA_BYTES && crypto.rsa(key, signature[..RSA_BYTES], digest)
       case Ec => key.hashLen == SHA256_SIZE && crypto.ec(key, signature, digest)
       case Unknown => false
  }

  /** The signature the footer points at, which must not start before the file. */
  function EmbeddedSignature(file: seq<Byte>): Option<seq<Byte>>
    requires Framed(file) && SignatureStart(file) <= |file|
  {
    Pkcs7.Signature(file[|file| - SignatureStart(file)..|file| - FOOTER_SIZE])
  }

  /** Some key accepts `signature`, if there is one, for `message`. */
  predicate SomeKey(crypto: Crypto, keys: seq<Key>, signature: Option<seq<Byte>>, message: seq<Byte>) {
    signature.Some? && exists i :: 0 <= i < |keys| && Verifies(crypto, keys[i], signature.value, message)
  }

  predicate Accepted(crypto: Crypto, keys: seq<Key>, file: seq<Byte>) {
    && Framed(file) && SignatureStart(file) <= |file|
    && SomeKey(crypto, keys, EmbeddedSignature(file), Signed(file))
  }

  // ---- The parts of a package -----------------------------------------------------------------------

  /**
   A file taken apart in two ways: the archive with its last record, the length field and the comment;
   and what comes before the signature block, the block and the footer.
   */
  datatype Package = Package(zip: seq<Byte>, record: seq<Byte>, length: seq<Byte>, comment: seq<Byte>,
                             before: seq<Byte>, block: seq<Byte>, footer: seq<Byte>)

  /** The code does not look at the length field, only at the comment size in the footer. */
  predicate Splits(file: seq<Byte>, p: Package) {
    && file == p.zip + p.record + p.length + p.comment && file == p.before + p.block + p.footer
    && |p.record| == 20 && p.record[..4] == [0x50, 0x4b, 0x05, 0x06] && |p.length| == 2
    && |p.footer| == 6 && p.footer[2] == 0xff && p.footer[3] == 0xff
    && |p.block| > 0 && |p.block| + 6 == p.footer[0] as int + 256 * (p.footer[1] as int)
    && |p.comment| == p.footer[4] as int + 256 * (p.footer[5] as int)
  }

  predicate NoneAfter(file: seq<Byte>, at: nat) {
    forall j :: at < j < |file| - 3 ==>
      !(file[j] == 0x50 && file[j + 1] == 0x4b && file[j + 2] == 0x05 && file[j + 3] == 0x06)
  }

  /** `key` accepts the signature for the message, hashed as the key asks for. */
  predicate Endorses(crypto: Crypto, key: Key, signature: seq<Byte>, message: seq<Byte>) {
    || (key.keyType == Rsa && key.hashLen == 20 && |signature| >= 256
        && crypto.rsa(key, signature[..256], crypto.sha1(message)))
    || (key.keyType == Rsa && key.hashLen == 32 && |signature| >= 256
        && crypto.rsa(key, signature[..256], crypto.sha256(message)))
    || (key.keyType == Ec && key.hashLen == 32 && crypto.ec(key, signature, crypto.sha256(message)))
  }

  /** The signature in the block is one that some key accepts for the archive with its record. */
  predicate Genuine(crypto: Crypto, keys: seq<Key>, p: Package) {
    var signature := Pkcs7.Signature(p.block);
    signature.Some? && exists key :: key in keys && Endorses(crypto, key, signature.value, p.zip + p.record)
  }

  lemma PartsFooter(file: seq<Byte>, p: Package)
    requires Splits(file, p)
    ensures |file| >= FOOTER_SIZE && CommentSize(file) == |p.comment| && SignatureStart(file) == |p.block| + 6 <= |file|
    ensures file[|file| - 4] == 0xff && file[|file| - 3] == 0xff && |p.block| > 0
  {
    assert file[|file| - 6..] == p.footer;
  }

  lemma PartsRecord(file: seq<Byte>, p: Package)
    requires Splits(file, p)
    ensures |p.comment| + EOCD_HEADER_SIZE == |file| - |p.zip| && MarkerAt(file, |p.zip|)
  {
    assert file[|p.zip|..][..20] == p.record;
    assert file[|p.zip|..][..4] == p.record[..4];
  }

  lemma PartsBlock(file: seq<Byte>, p: Package)
    requires Splits(file, p)
    ensures |file| - |p.block| - 6 == |p.before| && file[|p.before|..|file| - 6] == p.block
  {
  }

  lemma PartsSigned(file: seq<Byte>, p: Package)
    requires Splits(file, p)
    ensures |p.comment| + 2 <= |file| && file[..|file| - |p.comment| - 2] == p.zip + p.record
  {
  }

  lemma NoSignature(crypto: Crypto, keys: seq<Key>, message: seq<Byte>)
    ensures !SomeKey(crypto, keys, None, message)
  {
  }

  lemma LastMarkerIs(file: seq<Byte>, at: nat)
    requires MarkerAt(file, at)
    ensures LastMarker(file, at) <==> NoneAfter(file, at)
  {
    if LastMarker(file, at) {
      forall j | at < j < |file| - 3
        ensures !(file[j] == 0x50 && file[j + 1] == 0x4b && file[j + 2] == 0x05 && file[j + 3] == 0x06)
      {
        assert !MarkerAt(file, j);
      }
    }
  }

  lemma SomeKeyIs(crypto: Crypto, keys: seq<Key>, signature: seq<Byte>, message: seq<Byte>)
    ensures SomeKey(crypto, keys, Some(signature), message) <==>
              exists key :: key in keys && Endorses(crypto, key, signature, message)
  {
    forall i | 0 <= i < |keys|
      ensures Verifies(crypto, keys[i], signature, message) <==> Endorses(crypto, keys[i], signature, message)
    {
    }
  }

  /** What the parts of a file say about its acceptance. */
  lemma PartsDecide(crypto: Crypto, keys: seq<Key>, file: seq<Byte>, p: Package)
    requires Splits(file, p)
    ensures Accepted(crypto, keys, file) <==> NoneAfter(file, |p.zip|) && Genuine(crypto, keys, p)
  {
    hide Splits, Pkcs7.Signature, MarkerAt, LastMarker, NoneAfter, SomeKey, Endorses;
    PartsFooter(file, p);
    PartsRecord(file, p);
    PartsBlock(file, p);
    PartsSigned(file, p);
    LastMarkerIs(file, |p.zip|);
    var signature := Pkcs7.Signature(p.block);
    NoSignature(crypto, keys, p.zip + p.record);
    if signature.Some? {
      SomeKeyIs(crypto, keys, signature.value, p.zip + p.record);
    }
  }

  /** A file that is in order and whose signature does not start before it has parts. */
  lemma PartsOf(file: seq<Byte>) returns (p: Package)
    requires Framed(file) && SignatureStart(file) <= |file|
    ensures Splits(file, p)
  {
    var n := |file|;
    var at, start := n - CommentSize(file) - EOCD_HEADER_SIZE, n - SignatureStart(file);
    p := Package(file[..at], file[at..at + 20], file[at + 20..at + 22], file[at + 22..],
                 file[..start], file[start..n - 6], file[n - 6..]);
    assert p.record[..4] == [file[at], file[at + 1], file[at + 2], file[at + 3]];
  }

  /** Markers cannot overlap, so looking from four bytes after one on is enough. */
  lemma MarkersApart(file: seq<Byte>, i: nat, j: nat)
    requires MarkerAt(file, i) && i < j < i + 4
    ensures !MarkerAt(file, j)
  {
  }

  /** A file of 28 bytes that is in order and sends the code to look one byte before it. */
  const BEFORE_START: seq<Byte> :=
    [0x50, 0x4b, 0x05, 0x06, 0, 0, 0, 0, 0, 0, 0, 0, 0, 0, 0, 0, 0, 0, 0, 0, 0, 0, 29, 0, 0xff, 0xff, 6, 0]

  lemma BeforeStart()
    ensures Framed(BEFORE_START) && SignatureStart(BEFORE_START) > |BEFORE_START|
  {
    assert MarkerAt(BEFORE_START, 0);
  }

  // ---- The verification -----------------------------------------------------------------------------

  /** A running hash: what it has been fed so far. */
  class DigestContext {
    var fed: seq<Byte>

    constructor ()
      ensures fed == []
    {
      fed := [];
    }

    method Update(data: array<Byte>, start: nat, size: nat)
      requires start + size <= data.Length
      modifies this
      ensures fed == old(fed) + data[start..start + size]
    {
      fed := fed + data[start..start + size];
    }
  }

  /** Whether no marker starts four or more bytes after `eocd`. */
  method NoLaterMarker(addr: array<Byte>, eocd: nat) returns (none: bool)
    requires MarkerAt(addr[..], eocd)
    ensures none <==> LastMarker(addr[..], eocd)
  {
    var i := eocd + 4;
    ghost var file := addr[..];
    while i < addr.Length - 3
      invariant eocd + 4 <= i && (i <= addr.Length - 3 || i == eocd + 4)
      invariant forall j :: eocd + 4 <= j < i ==> !MarkerAt(file, j)
    {
      if addr[i] == 0x50 && addr[i + 1] == 0x4b && addr[i + 2] == 0x05 && addr[i + 3] == 0x06 {
        assert MarkerAt(file, i);
        return false;
      }
      assert !MarkerAt(file, i);
      i := i + 1;
    }
    forall j | eocd < j < |file|
      ensures !MarkerAt(file, j)
    {
      if j < eocd + 4 {
        MarkersApart(file, eocd, j);
      }
    }
    return true;
  }

  /** Which of the two hashes some key needs. */
  method NeededDigests(keys: seq<Key>) returns (sha1: bool, sha256: bool)
    ensures sha1 <==> exists i :: 0 <= i < |keys| && keys[i].hashLen == SHA1_SIZE
    ensures sha256 <==> exists i :: 0 <= i < |keys| && keys[i].hashLen == SHA256_SIZE
  {
    sha1, sha256 := false, false;
    for i := 0 to |keys|
      invariant sha1 <==> exists j :: 0 <= j < i && keys[j].hashLen == SHA1_SIZE
      invariant sha256 <==> exists j :: 0 <= j < i && keys[j].hashLen == SHA256_SIZE
    {
      if keys[i].hashLen == SHA1_SIZE {
        sha1 := true;
      } else if keys[i].hashLen == SHA256_SIZE {
        sha256 := true;
      }
    }
  }

  /** Feeds the first `size` bytes, chunk by chunk, to the hashes that are needed. */
  method HashPrefix(addr: array<Byte>, size: nat, needSha1: bool, needSha256: bool)
    returns (sha1: seq<Byte>, sha256: seq<Byte>)
    requires size <= addr.Length
    ensures sha1 == (if needSha1 then addr[..size] else [])
    ensures sha256 == (if needSha256 then addr[..size] else [])
  {
    var ctx1 := new DigestContext();
    var ctx256 := new DigestContext();
    var soFar := 0;
    while soFar < size
      invariant soFar <= size
      invariant ctx1.fed == (if needSha1 then addr[..soFar] else [])
      invariant ctx256.fed == (if needSha256 then addr[..soFar] else [])
    {
      var chunk := size - soFar;
      if chunk > BUFFER_SIZE {
        chunk := BUFFER_SIZE;
      }
      assert addr[..soFar] + addr[soFar..soFar + chunk] == addr[..soFar + chunk];
      if needSha1 {
        ctx1.Update(addr, soFar, chunk);
      }
      if needSha256 {
        ctx256.Update(addr, soFar, chunk);
      }
      soFar := soFar + chunk;
    }
    return ctx1.fed, ctx256.fed;
  }

  /** Tries each key in turn. */
  method SomeKeyVerifies(crypto: Crypto, keys: seq<Key>, signature: seq<Byte>, sha1: seq<Byte>, sha256: seq<Byte>)
    returns (ok: bool)
    ensures ok <==> exists i :: 0 <= i < |keys| && VerifiesDigests(crypto, keys[i], signature, sha1, sha256)
  {
    for i := 0 to |keys|
      invariant forall j :: 0 <= j < i ==> !VerifiesDigests(crypto, keys[j], signature, sha1, sha256)
    {
      var key := keys[i];
      if key.hashLen == SHA1_SIZE || key.hashLen == SHA256_SIZE {
        var digest := if key.hashLen == SHA1_SIZE then sha1 else sha256;
        if key.keyType == Rsa {
          if |signature| >= RSA_BYTES && crypto.rsa(key, signature[..RSA_BYTES], digest) {
            return true;
          }
        } else if key.keyType == Ec && key.hashLen == SHA256_SIZE {
          if crypto.ec(key, signature, digest) {
            return true;
          }
        }
      }
    }
    return false;
  }

  /** Every digest that some key needs is that of `message`. */
  predicate DigestsOf(crypto: Crypto, keys: seq<Key>, message: seq<Byte>, sha1: seq<Byte>, sha256: seq<Byte>) {
    forall i :: 0 <= i < |keys| ==>
      && (keys[i].hashLen == SHA1_SIZE ==> sha1 == crypto.sha1(message))
      && (keys[i].hashLen == SHA256_SIZE ==> sha256 == crypto.sha256(message))
  }

  /** Digests that no key needs do not matter. */
  lemma UnneededDigests(crypto: Crypto, keys: seq<Key>, message: seq<Byte>, signature: seq<Byte>, sha1: seq<Byte>,
                        sha256: seq<Byte>)
    requires DigestsOf(crypto, keys, message, sha1, sha256)
    ensures (exists i :: 0 <= i < |keys| && VerifiesDigests(crypto, keys[i], signature, sha1, sha256)) <==>
            exists i :: 0 <= i < |keys| && Verifies(crypto, keys[i], signature, message)
  {
    forall i | 0 <= i < |keys|
      ensures VerifiesDigests(crypto, keys[i], signature, sha1, sha256) <==>
                Verifies(crypto, keys[i], signature, message)
    {
    }
  }

  method Hash(addr: array<Byte>, size: nat, keys: seq<Key>, crypto: Crypto) returns (sha1: seq<Byte>, sha256: seq<Byte>)
    requires size <= addr.Length
    ensures DigestsOf(crypto, keys, addr[..size], sha1, sha256)
  {
    var need1, need256 := NeededDigests(keys);
    var fed1, fed256 := HashPrefix(addr, size, need1, need256);
    return crypto.sha1(fed1), crypto.sha256(fed256);
  }

  method CheckFrame(addr: array<Byte>) returns (ok: bool)
    ensures ok <==> Framed(addr[..])
  {
    var n := addr.Length;
    if n < FOOTER_SIZE {
      return false;
    }
    ghost var file := addr[..];
    if addr[n - 4] != 0xff || addr[n - 3] != 0xff {
      return false;
    }
    if Word(addr[n - 6], addr[n - 5]) <= FOOTER_SIZE {
      return false;
    }
    var eocdSize := Word(addr[n - 2], addr[n - 1]) + EOCD_HEADER_SIZE;
    if n < eocdSize {
      return false;
    }
    var eocd := n - eocdSize;
    if addr[eocd] != 0x50 || addr[eocd + 1] != 0x4b || addr[eocd + 2] != 0x05 || addr[eocd + 3] != 0x06 {
      return false;
    }
    ok := NoLaterMarker(addr, eocd);
  }

  method ReadEmbedded(addr: array<Byte>) returns (signature: Option<seq<Byte>>)
    requires Framed(addr[..]) && SignatureStart(addr[..]) <= addr.Length
    ensures signature == EmbeddedSignature(addr[..])
  {
    hide Pkcs7.Signature;
    var n := addr.Length;
    ghost var file := addr[..];
    var start := Word(addr[n - 6], addr[n - 5]);
    assert addr[n - start..n - FOOTER_SIZE] == file[n - start..n - FOOTER_SIZE];
    ghost var from;
    signature, from := Pkcs7.ReadPkcs7(addr, n - start, start - FOOTER_SIZE);
    assert addr[..] == file;
  }

  /** The key loop, for a signature that may not have been found. */
  method CheckSignature(crypto: Crypto, keys: seq<Key>, signature: Option<seq<Byte>>, ghost message: seq<Byte>,
                        sha1: seq<Byte>, sha256: seq<Byte>)
    returns (ok: bool)
    requires DigestsOf(crypto, keys, message, sha1, sha256)
    ensures ok <==> SomeKey(crypto, keys, signature, message)
  {
    if signature == None {
      return false;
    }
    ok := SomeKeyVerifies(crypto, keys, signature.value, sha1, sha256);
    UnneededDigests(crypto, keys, message, signature.value, sha1, sha256);
  }

  /** verify_file, once the footer and the record have been found in order. */
  method VerifyFramed(addr: array<Byte>, keys: seq<Key>, crypto: Crypto) returns (r: Outcome)
    requires Framed(addr[..])
    ensures r == Success <==> Accepted(crypto, keys, addr[..])
    ensures r == OutOfBounds <==> SignatureStart(addr[..]) > addr.Length
  {
    hide Pkcs7.Signature;
    var n := addr.Length;
    ghost var file := addr[..];
    var signedLen := n - Word(addr[n - 2], addr[n - 1]) - 2;
    assert addr[..signedLen] == Signed(file);
    var sha1, sha256 := Hash(addr, signedLen, keys, crypto);
    if Word(addr[n - 6], addr[n - 5]) > n {
      return OutOfBounds;
    }
    var signature := ReadEmbedded(addr);
    assert addr[..] == file;
    var ok := CheckSignature(crypto, keys, signature, Signed(file), sha1, sha256);
    return if ok then Success else Failure;
  }

  /** verify_file */
  method VerifyFile(addr: array<Byte>, keys: seq<Key>, crypto: Crypto) returns (r: Outcome)
    ensures r == Success ==> exists p :: Splits(addr[..], p)
    ensures forall p :: Splits(addr[..], p) ==>
              (r == Success <==> NoneAfter(addr[..], |p.zip|) && Genuine(crypto, keys, p))
    ensures r == OutOfBounds <==> Framed(addr[..]) && SignatureStart(addr[..]) > addr.Length
  {
    hide Framed, Splits, NoneAfter, Genuine, SomeKey, EmbeddedSignature, Signed;
    var framed := CheckFrame(addr);
    if framed {
      r := VerifyFramed(addr, keys, crypto);
    } else {
      r := Failure;
    }
    Decided(crypto, keys, addr[..], r == Success);
  }

  lemma Decided(crypto: Crypto, keys: seq<Key>, file: seq<Byte>, success: bool)
    requires success <==> Accepted(crypto, keys, file)
    ensures success ==> exists p :: Splits(file, p)
    ensures forall p :: Splits(file, p) ==> (success <==> NoneAfter(file, |p.zip|) && Genuine(crypto, keys, p))
  {
    hide Splits, NoneAfter, Genuine, SomeKey, EmbeddedSignature, Signed;
    if success {
      var p := PartsOf(file);
    }
    forall p | Splits(file, p)
      ensures success <==> NoneAfter(file, |p.zip|) && Genuine(crypto, keys, p)
    {
      PartsDecide(crypto, keys, file, p);
    }
  }
}
