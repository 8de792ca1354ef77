/**
 read_pkcs7 of bootable/recovery/verifier.cpp: walks a CMS SignedData structure (sections 3, 5.1
 and 5.3 of RFC 3852) to the signature of its first signer.

 `SignedData` spells out the elements of such a structure, whatever definite length forms and
 trailing bytes it uses; `ReadsExactly` says that the walk finds a signature precisely in the
 inputs that have this structure, and which one.
 */
module Pkcs7 {
  import opened Bytes
  import opened Asn1

  /** The walk of read_pkcs7 as a function of the bytes. */
  function Signature(s: seq<Byte>): Option<seq<Byte>> {
    var signedData :- SignedContent(s);
    var signers :- Signers(signedData);
    SignatureOf(signers)
  }

  /** The content of SignedData within ContentInfo. */
  function SignedContent(s: seq<Byte>): Option<seq<Byte>> {
    var contentInfo :- Inside(s, Sequence);
    var content :- After(contentInfo);
    var wrapped :- Inside(content, Constructed);
    Inside(wrapped, Sequence)
  }

  /** The content of the SignerInfos set within SignedData. */
  function Signers(s: seq<Byte>): Option<seq<Byte>> {
    var digestAlgorithms :- After(s);
    var encapsulated :- After(digestAlgorithms);
    var optionals :- After(encapsulated);
    var signerInfos :- SkipConstructed(optionals);
    Inside(signerInfos, SetOf)
  }

  /** The signature value of the first SignerInfo in a set of them. */
  function SignatureOf(s: seq<Byte>): Option<seq<Byte>> {
    var signature :- FromSignature(s);
    Inside(signature, OctetString)
  }

  function FromSignature(s: seq<Byte>): Option<seq<Byte>> {
    var signerInfo :- Inside(s, Sequence);
    AfterFour(signerInfo)
  }

  function AfterFour(s: seq<Byte>): Option<seq<Byte>> {
    var a :- After(s);
    var b :- After(a);
    var c :- After(b);
    After(c)
  }

  /** An element that the cursor will open as the given kind. */
  predicate Opens(kind: Kind, e: Element) {
    IsElement(e) && Tagged(kind, e.tag) && (kind == Oid || kind == OctetString ==> e.content != [])
  }

  /** The elements of a SignedData structure, and the bytes that follow at each of its levels. */
  datatype SignedData = SignedData(
    contentInfo: Element, contentType: Element, content: Element, signedData: Element, signers: SignerSet,
    signerInfo: Element, signer: Signer, tails: seq<seq<Byte>>)

  datatype SignerSet = SignerSet(version: Element, digestAlgorithms: Element, encapsulated: Element,
                                 optionals: seq<Element>, signerInfos: Element, tail: seq<Byte>)

  datatype Signer = Signer(version: Element, identifier: Element, digestAlgorithm: Element, signatureAlgorithm: Element,
                           signature: Element, tail: seq<Byte>)

  /**
   `s` is the content of SignedData.  The tag of SignerInfos is 0x31: the other tag that the cursor
   takes for a set, 0xB1, would be skipped with the optional elements.
   */
  predicate DescribesSigners(d: SignerSet, s: seq<Byte>) {
    && IsElement(d.version) && IsElement(d.digestAlgorithms) && IsElement(d.encapsulated) && AllConstructed(d.optionals)
    && Opens(SetOf, d.signerInfos) && d.signerInfos.tag == 0x31
    && s == Encoding(d.version) + (Encoding(d.digestAlgorithms) + (Encoding(d.encapsulated) +
            (Encodings(d.optionals) + (Encoding(d.signerInfos) + d.tail))))
  }

  /** `s` is the content of SignerInfo. */
  predicate DescribesSigner(d: Signer, s: seq<Byte>) {
    && IsElement(d.version) && IsElement(d.identifier) && IsElement(d.digestAlgorithm)
    && IsElement(d.signatureAlgorithm)
    && Opens(OctetString, d.signature)
    && s == Encoding(d.version) + (Encoding(d.identifier) + (Encoding(d.digestAlgorithm) +
            (Encoding(d.signatureAlgorithm) + (Encoding(d.signature) + d.tail))))
  }

  /** `s` is an encoding of the structure `d`. */
  predicate Describes(d: SignedData, s: seq<Byte>) {
    && Opens(Sequence, d.contentInfo) && IsElement(d.contentType) && Opens(Constructed, d.content)
    && Opens(Sequence, d.signedData) && Opens(Sequence, d.signerInfo) && |d.tails| == 4
    && s == Encoding(d.contentInfo) + d.tails[0]
    && d.contentInfo.content == Encoding(d.contentType) + (Encoding(d.content) + d.tails[1])
    && d.content.content == Encoding(d.signedData) + d.tails[2]
    && DescribesSigners(d.signers, d.signedData.content)
    && d.signers.signerInfos.content == Encoding(d.signerInfo) + d.tails[3]
    && DescribesSigner(d.signer, d.signerInfo.content)
  }

  lemma InsideEncoding(kind: Kind, e: Element, rest: seq<Byte>)
    requires Opens(kind, e)
    ensures Inside(Encoding(e) + rest, kind) == Some(e.content)
  {
    TakesEncoding(e, rest);
  }

  lemma AfterEncoding(e: Element, rest: seq<Byte>)
    requires IsElement(e)
    ensures After(Encoding(e) + rest) == Some(rest)
  {
    TakesEncoding(e, rest);
  }

  lemma SignersFound(d: SignerSet, s: seq<Byte>)
    requires DescribesSigners(d, s)
    ensures Signers(s) == Some(d.signerInfos.content)
  {
    var e := Encoding(d.signerInfos) + d.tail;
    var c := Encodings(d.optionals) + e;
    var b := Encoding(d.encapsulated) + c;
    var a := Encoding(d.digestAlgorithms) + b;
    AfterEncoding(d.version, a);
    AfterEncoding(d.digestAlgorithms, b);
    AfterEncoding(d.encapsulated, c);
    SkipsAll(d.optionals, e);
    InsideEncoding(SetOf, d.signerInfos, d.tail);
  }

  lemma SignerFound(d: Signer, s: seq<Byte>)
    requires DescribesSigner(d, s)
    ensures AfterFour(s) == Some(Encoding(d.signature) + d.tail)
  {
    var e := Encoding(d.signature) + d.tail;
    var c := Encoding(d.signatureAlgorithm) + e;
    var b := Encoding(d.digestAlgorithm) + c;
    var a := Encoding(d.identifier) + b;
    AfterEncoding(d.version, a);
    AfterEncoding(d.identifier, b);
    AfterEncoding(d.digestAlgorithm, c);
    AfterEncoding(d.signatureAlgorithm, e);
  }

  /** From every SignedData structure exactly its signature value is read. */
  lemma SignatureFound(d: SignedData, s: seq<Byte>)
    requires Describes(d, s)
    ensures Signature(s) == Some(d.signer.signature.content)
  {
    InsideEncoding(Sequence, d.contentInfo, d.tails[0]);
    AfterEncoding(d.contentType, Encoding(d.content) + d.tails[1]);
    InsideEncoding(Constructed, d.content, d.tails[1]);
    InsideEncoding(Sequence, d.signedData, d.tails[2]);
    SignersFound(d.signers, d.signedData.content);
    InsideEncoding(Sequence, d.signerInfo, d.tails[3]);
    SignerFound(d.signer, d.signerInfo.content);
    InsideEncoding(OctetString, d.signer.signature, d.signer.tail);
  }

  lemma InsideDescribed(s: seq<Byte>, kind: Kind) returns (e: Element, rest: seq<Byte>)
    requires Inside(s, kind).Some?
    ensures Opens(kind, e) && s == Encoding(e) + rest && Inside(s, kind) == Some(e.content)
  {
    e, rest := Take(s).value.0, Take(s).value.1;
    TakenIsEncoding(s);
  }

  lemma AfterDescribed(s: seq<Byte>) returns (e: Element, rest: seq<Byte>)
    requires After(s).Some?
    ensures IsElement(e) && s == Encoding(e) + rest && After(s) == Some(rest)
  {
    e, rest := Take(s).value.0, Take(s).value.1;
    TakenIsEncoding(s);
  }

  lemma SignersDescribed(s: seq<Byte>) returns (d: SignerSet)
    requires Signers(s).Some?
    ensures DescribesSigners(d, s) && Signers(s) == Some(d.signerInfos.content)
  {
    var version, a := AfterDescribed(s);
    var digests, b := AfterDescribed(a);
    var encapsulated, c := AfterDescribed(b);
    var optionals, signerInfos, tail := SetDescribed(c);
    d := SignerSet(version, digests, encapsulated, optionals, signerInfos, tail);
  }

  lemma SetDescribed(s: seq<Byte>) returns (optionals: seq<Element>, signerInfos: Element, tail: seq<Byte>)
    requires SkipConstructed(s).Some? && Inside(SkipConstructed(s).value, SetOf).Some?
    ensures AllConstructed(optionals) && Opens(SetOf, signerInfos) && signerInfos.tag == 0x31
    ensures s == Encodings(optionals) + (Encoding(signerInfos) + tail)
    ensures Inside(SkipConstructed(s).value, SetOf) == Some(signerInfos.content)
  {
    optionals := SkipsOnly(s);
    var e := SkipConstructed(s).value;
    signerInfos, tail := InsideDescribed(e, SetOf);
    assert e[0] == signerInfos.tag;
  }

  lemma SignerDescribed(s: seq<Byte>) returns (d: Signer)
    requires AfterFour(s).Some? && Inside(AfterFour(s).value, OctetString).Some?
    ensures DescribesSigner(d, s) && Inside(AfterFour(s).value, OctetString) == Some(d.signature.content)
  {
    var version, a := AfterDescribed(s);
    var identifier, b := AfterDescribed(a);
    var digest, c := AfterDescribed(b);
    var algorithm, e := AfterDescribed(c);
    var signature, tail := InsideDescribed(e, OctetString);
    d := Signer(version, identifier, digest, algorithm, signature, tail);
  }

  /** A signature is read only from a SignedData structure. */
  lemma SignatureDescribed(s: seq<Byte>) returns (d: SignedData)
    requires Signature(s).Some?
    ensures Describes(d, s)
  {
    var contentInfo, contentType, content, signedData, tails := ContentDescribed(s);
    var signers := SignersDescribed(signedData.content);
    var signerInfo, tail := InsideDescribed(signers.signerInfos.content, Sequence);
    var signer := SignerDescribed(signerInfo.content);
    d := SignedData(contentInfo, contentType, content, signedData, signers, signerInfo, signer, tails + [tail]);
  }

  lemma ContentDescribed(s: seq<Byte>)
    returns (contentInfo: Element, contentType: Element, content: Element, signedData: Element, tails: seq<seq<Byte>>)
    requires SignedContent(s).Some?
    ensures && Opens(Sequence, contentInfo) && IsElement(contentType) && Opens(Constructed, content)
            && Opens(Sequence, signedData) && |tails| == 3
    ensures s == Encoding(contentInfo) + tails[0]
    ensures contentInfo.content == Encoding(contentType) + (Encoding(content) + tails[1])
    ensures content.content == Encoding(signedData) + tails[2] && SignedContent(s) == Some(signedData.content)
  {
    var t0, t, t1, t2;
    contentInfo, t0 := InsideDescribed(s, Sequence);
    contentType, t := AfterDescribed(contentInfo.content);
    content, t1 := InsideDescribed(t, Constructed);
    signedData, t2 := InsideDescribed(content.content, Sequence);
    tails := [t0, t1, t2];
  }

  /** The walk succeeds on exactly the SignedData structures, with their signature value. */
  lemma ReadsExactly(s: seq<Byte>, signature: seq<Byte>)
    ensures Signature(s) == Some(signature) <==> exists d :: Describes(d, s) && d.signer.signature.content == signature
  {
    if Signature(s).Some? {
      var d := SignatureDescribed(s);
      SignatureFound(d, s);
    }
    forall d | Describes(d, s)
      ensures Signature(s) == Some(d.signer.signature.content)
    {
      SignatureFound(d, s);
    }
  }

  // ---- The walk itself -----------------------------------------------------------------------------

  method NextFour(c: Context) returns (ok: bool)
    requires c.Valid()
    modifies c`p, c`length
    ensures c.Valid() && old(c.p) <= c.p && c.p + c.length == old(c.p + c.length)
    ensures match AfterFour(old(c.Rest()))
            case None => !ok
            case Some(rest) => ok && c.Rest() == rest
  {
    ok := c.Next();
    if ok {
      ok := c.Next();
    }
    if ok {
      ok := c.Next();
    }
    if ok {
      ok := c.Next();
    }
  }

  /** From ContentInfo to a cursor over SignedData. */
  method OpenSignedData(c: Context) returns (data: Context?)
    requires c.Valid()
    modifies c`p, c`length
    ensures match SignedContent(old(c.Rest()))
            case None => data == null
            case Some(content) =>
              data != null && fresh(data) && data.Valid() && data.buffer == c.buffer && data.Rest() == content
    ensures data != null ==> old(c.p) <= data.p && data.p + data.length <= old(c.p + c.length)
  {
    hide Inside, After;
    data := null;
    var contentInfo := c.Get(Sequence);
    if contentInfo != null {
      var ok := contentInfo.Next();
      if ok {
        var wrapped := contentInfo.Get(Constructed);
        if wrapped != null {
          data := wrapped.Get(Sequence);
        }
      }
    }
  }

  /** From SignedData to a cursor over SignerInfos. */
  method OpenSigners(c: Context) returns (signers: Context?)
    requires c.Valid()
    modifies c`p, c`length
    ensures match Signers(old(c.Rest()))
            case None => signers == null
            case Some(content) =>
              && signers != null && fresh(signers) && signers.Valid() && signers.buffer == c.buffer
              && signers.Rest() == content
    ensures signers != null ==> old(c.p) <= signers.p && signers.p + signers.length <= old(c.p + c.length)
  {
    hide Inside, After, SkipConstructed;
    signers := null;
    var ok := c.Next();
    if ok {
      ok := c.Next();
    }
    if ok {
      ok := c.Next();
    }
    if ok {
      ok := c.SkipAllConstructed();
    }
    if ok {
      signers := c.Get(SetOf);
    }
  }

  /** `value` stands at `from` in the part [start, end) of the buffer. */
  ghost predicate Copied(buffer: array<Byte>, start: nat, end: nat, value: seq<Byte>, from: nat)
    reads buffer
  {
    start <= from && from + |value| <= end <= buffer.Length && buffer[from..from + |value|] == value
  }

  lemma CopiedAt(buffer: array<Byte>, start: nat, end: nat, from: nat, n: nat)
    requires start <= from && from + n <= end <= buffer.Length
    ensures Copied(buffer, start, end, buffer[from..from + n], from)
  {
  }

  /** From SignerInfos to a cursor in front of the signature value. */
  method OpenSigner(c: Context) returns (signer: Context?)
    requires c.Valid()
    modifies c`p, c`length
    ensures match FromSignature(old(c.Rest()))
            case None => signer == null
            case Some(rest) =>
              signer != null && fresh(signer) && signer.Valid() && signer.buffer == c.buffer && signer.Rest() == rest
    ensures signer != null ==> old(c.p) <= signer.p && signer.p + signer.length <= old(c.p + c.length)
  {
    hide Inside, AfterFour;
    signer := c.Get(Sequence);
    if signer != null {
      var ok := NextFour(signer);
      if !ok {
        signer := null;
      }
    }
  }

  /** From SignerInfos to a copy of the signature value, which is at `from`. */
  method CopySignature(c: Context) returns (signature: Option<seq<Byte>>, ghost from: nat)
    requires c.Valid()
    modifies c`p, c`length
    ensures signature == SignatureOf(old(c.Rest()))
    ensures signature.Some? ==> Copied(c.buffer, old(c.p), old(c.p + c.length), signature.value, from)
  {
    hide Inside, FromSignature, Copied;
    signature, from := None, 0;
    var signer := OpenSigner(c);
    if signer != null {
      var found := signer.GetString(OctetString);
      if found.Some? {
        var (at, n) := found.value;
        signature, from := Some(signer.buffer[at..at + n]), at;
        CopiedAt(c.buffer, old(c.p), old(c.p + c.length), at, n);
      }
    }
  }

  /** read_pkcs7 on `length` bytes of the buffer, none of the bytes around them being looked at. */
  method ReadPkcs7(buffer: array<Byte>, start: nat, length: nat) returns (signature: Option<seq<Byte>>, ghost from: nat)
    requires start + length <= buffer.Length
    ensures signature == Signature(buffer[start..start + length])
    ensures signature.Some? ==> Copied(buffer, start, start + length, signature.value, from)
  {
    signature, from := None, 0;
    ghost var s := buffer[start..start + length];
    var c := new Context(buffer, start, length, 0);
    assert c.Rest() == s;
    var data := OpenSignedData(c);
    assert data != null ==> data.Rest() == SignedContent(s).value;
    if data != null {
      var signers := OpenSigners(data);
      if signers != null {
        signature, from := CopySignature(signers);
      }
    }
  }
}
