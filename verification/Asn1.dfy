/**
 The cursor of bootable/recovery/asn1_decoder.cpp, which reads tag-length-content elements with
 definite lengths (section 8.1.3 of ITU-T X.690).

 The functions describe an element independently of any cursor, and `TakeExactly` says that
 parsing is the inverse of that description.  Class `Context` is the cursor; each of its operations
 is proved against them.  Quirks of the code that the functions keep: a length octet 0x80 reads as
 length 0, at most seven length octets are taken, and the sequence and set tags are compared
 without their top bit.
 */
module Asn1 {
  import opened Bytes

  /** The value of octets with the most significant first. */
  function BigEndian(s: seq<Byte>): nat {
    if s == [] then 0 else BigEndian(s[..|s| - 1]) * 256 + s[|s| - 1]
  }

  lemma BigEndianNext(s: seq<Byte>, i: nat)
    requires i + 1 < |s|
    ensures BigEndian(s[1..2 + i]) == BigEndian(s[1..1 + i]) * 256 + s[1 + i]
  {
    assert s[1..2 + i][..i] == s[1..1 + i];
  }

  /** 256 to the power `k`. */
  function Weight(k: nat): nat {
    if k == 0 then 1 else 256 * Weight(k - 1)
  }

  lemma {:induction false} BigEndianBound(s: seq<Byte>)
    ensures BigEndian(s) < Weight(|s|)
  {
    if s == [] {
    } else {
      BigEndianBound(s[..|s| - 1]);
    }
  }

  lemma {:induction false} WeightGrows(j: nat, k: nat)
    requires j <= k
    ensures 0 < Weight(j) <= Weight(k)
    decreases k
  {
    if j < k {
      WeightGrows(j, k - 1);
    } else if j > 0 {
      WeightGrows(j - 1, k - 1);
    }
  }

  /** `octets` is a length field that says `n`. */
  predicate EncodesLength(octets: seq<Byte>, n: nat) {
    && octets != []
    && if octets[0] < 128 then |octets| == 1 && n == octets[0]
       else octets[0] % 128 == |octets| - 1 < 8 && n == BigEndian(octets[1..])
  }

  /** The length at the front of `s` and the bytes after it. */
  function DecodeLength(s: seq<Byte>): (r: Option<(nat, seq<Byte>)>)
    ensures r.Some? ==> |r.value.1| < |s|
  {
    if s == [] then None
    else if s[0] < 128 then Some((s[0], s[1..]))
    else
      var k := s[0] % 128;
      if k >= 8 || |s| - 1 < k then None else Some((BigEndian(s[1..1 + k]), s[1 + k..]))
  }

  lemma DecodeLengthExactly(s: seq<Byte>, octets: seq<Byte>, n: nat, rest: seq<Byte>)
    requires s == octets + rest
    ensures DecodeLength(s) == Some((n, rest)) <==> EncodesLength(octets, n)
  {
    if octets != [] {
      assert s[0] == octets[0];
      var k := s[0] % 128;
      if k == |octets| - 1 {
        assert s[1..1 + k] == octets[1..] && s[1 + k..] == rest;
      }
      if |octets| == 1 {
        assert s[1..] == rest;
      }
    }
  }

  datatype Element = Element(tag: Byte, octets: seq<Byte>, content: seq<Byte>)

  predicate IsElement(e: Element) {
    EncodesLength(e.octets, |e.content|)
  }

  function Encoding(e: Element): seq<Byte> {
    [e.tag] + e.octets + e.content
  }

  /** The element at the front of `s` and the bytes after it. */
  function Take(s: seq<Byte>): Option<(Element, seq<Byte>)> {
    if s == [] then None
    else
      var (n, rest) :- DecodeLength(s[1..]);
      if n > |rest| then None
      else Some((Element(s[0], s[1..|s| - |rest|], rest[..n]), rest[n..]))
  }

  lemma TakesEncoding(e: Element, rest: seq<Byte>)
    requires IsElement(e)
    ensures Take(Encoding(e) + rest) == Some((e, rest))
  {
    var s, after := Encoding(e) + rest, e.content + rest;
    assert s[1..] == e.octets + after;
    DecodeLengthExactly(s[1..], e.octets, |e.content|, after);
    assert s[1..|s| - |after|] == e.octets;
  }

  lemma TakenIsEncoding(s: seq<Byte>)
    requires Take(s).Some?
    ensures var (e, rest) := Take(s).value;
            IsElement(e) && s == Encoding(e) + rest && |rest| < |s|
  {
    var (e, rest) := Take(s).value;
    var (n, after) := DecodeLength(s[1..]).value;
    assert after == e.content + rest;
    var t := s[1..];
    DecodeLengthSuffix(t);
    assert e.octets == t[..|t| - |after|];
    DecodeLengthExactly(t, e.octets, n, after);
    Rejoin(s, e, rest);
  }

  lemma Rejoin(s: seq<Byte>, e: Element, rest: seq<Byte>)
    requires s != [] && s[0] == e.tag && s[1..] == e.octets + (e.content + rest)
    ensures s == Encoding(e) + rest
  {
    assert s == [s[0]] + s[1..];
  }

  lemma DecodeLengthSuffix(s: seq<Byte>)
    requires DecodeLength(s).Some?
    ensures var rest := DecodeLength(s).value.1;
            s == s[..|s| - |rest|] + rest
  {
  }

  /** An element is parsed off the front exactly if the bytes are its encoding and what is left. */
  lemma TakeExactly(s: seq<Byte>, e: Element, rest: seq<Byte>)
    ensures Take(s) == Some((e, rest)) <==> IsElement(e) && s == Encoding(e) + rest
  {
    if IsElement(e) && s == Encoding(e) + rest {
      TakesEncoding(e, rest);
    }
    if Take(s) == Some((e, rest)) {
      TakenIsEncoding(s);
    }
  }

  /** Decoded lengths stay below 2^56, so the 64-bit accumulator never overflows. */
  lemma DecodedBelow(s: seq<Byte>)
    ensures DecodeLength(s).Some? ==> DecodeLength(s).value.0 < Weight(7)
  {
    WeightGrows(1, 7);
    if s != [] && s[0] >= 128 && s[0] % 128 < 8 && s[0] % 128 < |s| {
      var k := s[0] % 128;
      BigEndianBound(s[1..1 + k]);
      WeightGrows(k, 7);
    }
  }

  /** The last `k` octets of `n`, most significant first. */
  function Octets(n: nat, k: nat): (s: seq<Byte>)
    ensures |s| == k
  {
    if k == 0 then [] else Octets(n / 256, k - 1) + [n % 256]
  }

  lemma {:induction false} OctetsValue(n: nat, k: nat)
    requires n < Weight(k)
    ensures BigEndian(Octets(n, k)) == n
  {
    if k == 0 {
    } else {
      OctetsValue(n / 256, k - 1);
      assert Octets(n, k)[..k - 1] == Octets(n / 256, k - 1);
    }
  }

  /** Every length below 2^56 has a length field, so every content of that size has an element. */
  lemma EveryLength(n: nat, k: nat)
    requires n < Weight(k) && k <= 7
    ensures EncodesLength([128 + k] + Octets(n, k), n)
  {
    OctetsValue(n, k);
    assert ([128 + k] + Octets(n, k))[1..] == Octets(n, k);
  }

  lemma TakenTag(s: seq<Byte>)
    ensures s == [] ==> Take(s) == None
    ensures Take(s).Some? ==> Take(s).value.0.tag == s[0]
  {
  }

  /** The kinds of element that the cursor tells apart by their tag. */
  datatype Kind = Sequence | SetOf | Constructed | Oid | OctetString

  /** The tag tests; `tag % 128` is the tag under mask 0x7F and `tag / 32` its top three bits. */
  predicate Matches(kind: Kind, tag: Byte) {
    match kind
    case Sequence => tag % 128 == 0x30
    case SetOf => tag % 128 == 0x31
    case Constructed => tag / 32 == 0xA0 / 32
    case Oid => tag == 0x06
    case OctetString => tag == 0x04
  }

  /** The tags of a kind, one by one. */
  predicate Tagged(kind: Kind, tag: Byte) {
    match kind
    case Sequence => tag == 0x30 || tag == 0xB0
    case SetOf => tag == 0x31 || tag == 0xB1
    case Constructed => 0xA0 <= tag < 0xC0
    case Oid => tag == 0x06
    case OctetString => tag == 0x04
  }

  lemma MatchesExactly(kind: Kind, tag: Byte)
    ensures Matches(kind, tag) <==> Tagged(kind, tag)
  {
  }

  /** Object identifiers and octet strings must not be empty. */
  predicate MayBeEmpty(kind: Kind) {
    kind != Oid && kind != OctetString
  }

  /** The content of the element at the front of `s`, if it is of the given kind. */
  function Inside(s: seq<Byte>, kind: Kind): Option<seq<Byte>> {
    var (e, rest) :- Take(s);
    if Matches(kind, e.tag) && (e.content != [] || MayBeEmpty(kind)) then Some(e.content) else None
  }

  /** The bytes after the element at the front of `s`. */
  function After(s: seq<Byte>): (r: Option<seq<Byte>>)
    ensures r.Some? ==> |r.value| < |s|
  {
    var (e, rest) :- Take(s);
    Some(rest)
  }

  /** The bytes from the first element on that is not of the constructed kind; there must be one. */
  function SkipConstructed(s: seq<Byte>): Option<seq<Byte>>
    decreases |s|
  {
    if s == [] then None
    else if Matches(Constructed, s[0]) then
      var rest :- After(s);
      SkipConstructed(rest)
    else Some(s)
  }

  function Encodings(es: seq<Element>): seq<Byte> {
    if es == [] then [] else Encoding(es[0]) + Encodings(es[1..])
  }

  predicate AllConstructed(es: seq<Element>) {
    forall i :: 0 <= i < |es| ==> IsElement(es[i]) && Tagged(Constructed, es[i].tag)
  }

  lemma SkipsOne(e: Element, tail: seq<Byte>)
    requires IsElement(e) && Tagged(Constructed, e.tag)
    ensures SkipConstructed(Encoding(e) + tail) == SkipConstructed(tail)
  {
    MatchesExactly(Constructed, e.tag);
    TakesEncoding(e, tail);
  }

  /** Any number of constructed elements are skipped ... */
  lemma {:induction false} SkipsAll(es: seq<Element>, rest: seq<Byte>)
    requires AllConstructed(es) && rest != [] && !Tagged(Constructed, rest[0])
    ensures SkipConstructed(Encodings(es) + rest) == Some(rest)
    decreases |es|
  {
    if es == [] {
      MatchesExactly(Constructed, rest[0]);
      assert Encodings(es) + rest == rest;
    } else {
      assert Encodings(es) + rest == Encoding(es[0]) + (Encodings(es[1..]) + rest);
      SkipsOne(es[0], Encodings(es[1..]) + rest);
      SkipsAll(es[1..], rest);
    }
  }

  /** ... and nothing else is. */
  lemma {:induction false} SkipsOnly(s: seq<Byte>) returns (es: seq<Element>)
    requires SkipConstructed(s).Some?
    ensures var rest := SkipConstructed(s).value;
            AllConstructed(es) && s == Encodings(es) + rest && rest != [] && !Tagged(Constructed, rest[0])
    decreases |s|
  {
    es := [];
    MatchesExactly(Constructed, s[0]);
    if !Matches(Constructed, s[0]) {
    } else {
      var (e, tail) := Take(s).value;
      TakenIsEncoding(s);
      var more := SkipsOnly(tail);
      es := [e] + more;
      assert es[1..] == more;
      assert s == Encodings(es) + SkipConstructed(s).value;
    }
  }

  // ---- The cursor ----------------------------------------------------------------------------------

  class Context {
    const buffer: array<Byte>
    var p: nat
    var length: nat
    const appType: int

    /** The cursor is inside its buffer. */
    predicate Valid()
      reads this
    {
      p + length <= buffer.Length
    }

    /** The bytes the cursor may still read. */
    function Rest(): seq<Byte>
      requires Valid()
      reads this, buffer
    {
      buffer[p..p + length]
    }

    /** The cursor moved forward and still ends where it ended. */
    twostate predicate Moved()
      reads this
    {
      old(p) <= p && p + length == old(p + length)
    }

    /** `this` covers a part of what `parent` covers. */
    predicate InsideOf(parent: Context)
      reads this, parent
    {
      buffer == parent.buffer && parent.p <= p && p + length <= parent.p + parent.length
    }

    constructor (buffer: array<Byte>, p: nat, length: nat, appType: int)
      requires p + length <= buffer.Length
      ensures Valid() && this.buffer == buffer && this.p == p && this.length == length && this.appType == appType
    {
      this.buffer, this.p, this.length, this.appType := buffer, p, length, appType;
    }

    method PeekByte() returns (b: int)
      requires Valid()
      ensures b == if Rest() == [] then -1 else Rest()[0]
    {
      if length <= 0 {
        return -1;
      }
      return buffer[p];
    }

    method GetByte() returns (b: int)
      requires Valid()
      modifies `p, `length
      ensures Valid() && Moved()
      ensures b == if old(Rest()) == [] then -1 else old(Rest())[0]
      ensures Rest() == if old(Rest()) == [] then [] else old(Rest())[1..]
    {
      if length <= 0 {
        return -1;
      }
      b := buffer[p];
      p, length := p + 1, length - 1;
    }

    method SkipBytes(n: nat) returns (ok: bool)
      requires Valid()
      modifies `p, `length
      ensures Valid() && Moved() && (ok <==> n <= |old(Rest())|)
      ensures Rest() == if ok then old(Rest())[n..] else old(Rest())
    {
      if length < n {
        return false;
      }
      p, length := p + n, length - n;
      return true;
    }

    method ReadLength() returns (n: Option<nat>)
      requires Valid()
      modifies `p, `length
      ensures Valid() && Moved()
      ensures match DecodeLength(old(Rest()))
              case None => n == None
              case Some((value, rest)) => n == Some(value) && Rest() == rest
    {
      ghost var s := Rest();
      var octets := GetByte();
      if octets == -1 {
        return None;
      }
      if octets < 128 {
        return Some(octets);
      }
      octets := octets % 128;
      if octets >= 8 {
        return None;
      }
      var value := 0;
      for i := 0 to octets
        invariant Valid() && Moved() && 1 + i <= |s| && Rest() == s[1 + i..] && value == BigEndian(s[1..1 + i])
      {
        var b := GetByte();
        if b == -1 {
          return None;
        }
        value := value * 256 + b;
        BigEndianNext(s, i);
      }
      return Some(value);
    }

    /** The tag has been read: reads the length of the content, which must not run past the end. */
    method ReadExtent(ghost s: seq<Byte>) returns (n: Option<nat>)
      requires Valid() && s != [] && Rest() == s[1..]
      modifies `p, `length
      ensures Valid() && Moved()
      ensures match Take(s)
              case None => n == None
              case Some((e, rest)) =>
                n == Some(|e.content|) && |e.content| <= length && buffer[p..p + |e.content|] == e.content
    {
      n := ReadLength();
      if n.Some? && n.value > length {
        return None;
      }
      assert n.Some? ==> buffer[p..p + n.value] == Rest()[..n.value];
    }

    /** asn1_constructed_get, asn1_sequence_get and asn1_set_get: a cursor over the content. */
    method Get(kind: Kind) returns (child: Context?)
      requires Valid() && MayBeEmpty(kind)
      modifies `p, `length
      ensures Valid() && Moved()
      ensures match Inside(old(Rest()), kind)
              case None => child == null
              case Some(content) =>
                child != null && fresh(child) && child.Valid() && child.InsideOf(this) && child.Rest() == content
      ensures child != null && kind == Constructed ==> child.appType == old(Rest())[0] % 32
    {
      hide Matches, Take;
      ghost var s := Rest();
      TakenTag(s);
      var tag := GetByte();
      if tag == -1 || !Matches(kind, tag) {
        return null;
      }
      assert tag == s[0];
      var n := ReadExtent(s);
      if n == None {
        return null;
      }
      child := new Context(buffer, p, n.value, if kind == Constructed then tag % 32 else 0);
    }

    /** asn1_sequence_next */
    method Next() returns (ok: bool)
      requires Valid()
      modifies `p, `length
      ensures Valid() && Moved()
      ensures match After(old(Rest()))
              case None => !ok
              case Some(rest) => ok && Rest() == rest
    {
      ghost var s := Rest();
      var tag := GetByte();
      if tag == -1 {
        return false;
      }
      ok := SkipContent(s);
    }

    /** The tag has been read: skips the length and the content. */
    method SkipContent(ghost s: seq<Byte>) returns (ok: bool)
      requires Valid() && s != [] && Rest() == s[1..]
      modifies `p, `length
      ensures Valid() && Moved()
      ensures match After(s)
              case None => !ok
              case Some(rest) => ok && Rest() == rest
    {
      var n := ReadLength();
      if n == None {
        return false;
      }
      ok := SkipBytes(n.value);
    }

    /** asn1_constructed_skip_all */
    method SkipAllConstructed() returns (ok: bool)
      requires Valid()
      modifies `p, `length
      ensures Valid() && Moved()
      ensures match SkipConstructed(old(Rest()))
              case None => !ok
              case Some(rest) => ok && Rest() == rest
    {
      var b := PeekByte();
      while b != -1 && Matches(Constructed, b)
        invariant Valid() && Moved() && b == (if Rest() == [] then -1 else Rest()[0])
        invariant SkipConstructed(Rest()) == SkipConstructed(old(Rest()))
        decreases length
      {
        ghost var s := Rest();
        var skipped := SkipBytes(1);
        skipped := SkipContent(s);
        if !skipped {
          return false;
        }
        b := PeekByte();
      }
      return b != -1;
    }

    /** asn1_oid_get and asn1_octet_string_get: where the content starts and how long it is. */
    method GetString(kind: Kind) returns (r: Option<(nat, nat)>)
      requires Valid() && !MayBeEmpty(kind)
      modifies `p, `length
      ensures Valid() && Moved()
      ensures match Inside(old(Rest()), kind)
              case None => r == None
              case Some(content) =>
                && r.Some? && r.value.0 == p && r.value.0 + r.value.1 <= p + length
                && buffer[r.value.0..r.value.0 + r.value.1] == content
    {
      hide Matches, Take;
      ghost var s := Rest();
      TakenTag(s);
      var tag := GetByte();
      if tag == -1 || !Matches(kind, tag) {
        return None;
      }
      var n := ReadExtent(s);
      if n == None || n.value == 0 {
        return None;
      }
      return Some((p, n.value));
    }
  }
}
