/**
  DER encoding of an ASN.1 OBJECT IDENTIFIER (ITU-T X.690): the content
  octets of section 8.19, the definite-form length octets of section 8.1.3,
  and the tag-length-value frame around them. `Marshal` stands in for Go's
  `asn1.Marshal` applied to an object identifier. `DecodeOid` reads content
  octets back into arcs and is the partner that shows the content octets
  identify the object identifier.
 */
module Asn1 {
  import opened Wrappers
  import opened Bytes

  /** An object identifier: its arcs, in order. */
  type Oid = seq<nat>

  /** Universal tag number 6, primitive. */
  const ObjectIdentifierTag: Byte := 0x06

  /** The long-form initial octet 0xFF is reserved (X.690 8.1.3.5 c), so at
      most 126 subsequent length octets can be announced. */
  const MaxLengthOctets: nat := 126

  /** X.690 8.19.4: the first two arcs X.Y are packed as 40 * X + Y, which
      only identifies them when X is 0, 1 or 2 and Y < 40 for X < 2. */
  predicate IsEncodable(oid: Oid) {
    |oid| >= 2 && oid[0] <= 2 && (oid[0] < 2 ==> oid[1] < 40)
  }

  /** The subidentifiers of X.690 8.19.4: the first two arcs packed into one. */
  function Subidentifiers(oid: Oid): (subids: seq<nat>)
    requires IsEncodable(oid)
    ensures |subids| == |oid| - 1
    ensures subids[1..] == oid[2..]
  {
    [oid[0] * 40 + oid[1]] + oid[2..]
  }

  /** The base-128 digits of m, most significant first, each with bit 8 set;
      empty for 0. */
  function ContinuationOctets(m: nat): (r: seq<Byte>)
    ensures forall i :: 0 <= i < |r| ==> r[i] >= 128
    ensures r == [] <==> m == 0
    ensures r != [] ==> r[0] > 128
    decreases m
  {
    if m == 0 then [] else ContinuationOctets(m / 128) + [128 + m % 128]
  }

  /** X.690 8.19.2: one subidentifier as base-128 digits, bit 8 set on every
      octet but the last, with no leading 0x80 octet. */
  function Base128(n: nat): (r: seq<Byte>)
    ensures |r| >= 1 && r[|r| - 1] < 128
    ensures forall i :: 0 <= i < |r| - 1 ==> r[i] >= 128
    ensures |r| > 1 ==> r[0] != 0x80
  {
    ContinuationOctets(n / 128) + [n % 128]
  }

  /** The number that a run of base-128 octets denotes (bit 8 ignored). */
  function Base128Value(chunk: seq<Byte>): nat {
    if chunk == [] then 0
    else Base128Value(chunk[..|chunk| - 1]) * 128 + chunk[|chunk| - 1] % 128
  }

  lemma {:induction false} ContinuationValue(m: nat)
    ensures Base128Value(ContinuationOctets(m)) == m
    decreases m
  {
    if m != 0 {
      var r := ContinuationOctets(m);
      assert r[..|r| - 1] == ContinuationOctets(m / 128);
      ContinuationValue(m / 128);
    }
  }

  /** Base-128 octets denote the number they encode. */
  lemma Base128RoundTrip(n: nat)
    ensures Base128Value(Base128(n)) == n
  {
    var r := Base128(n);
    assert r[..|r| - 1] == ContinuationOctets(n / 128);
    ContinuationValue(n / 128);
  }

  function EncodeSubidentifiers(subids: seq<nat>): (r: seq<Byte>)
    ensures subids != [] ==> |r| >= 1
  {
    if subids == [] then [] else Base128(subids[0]) + EncodeSubidentifiers(subids[1..])
  }

  /** The content octets of X.690 8.19: every subidentifier in order. */
  function ContentOctets(oid: Oid): (r: seq<Byte>)
    requires IsEncodable(oid)
    ensures |r| >= 1
  {
    EncodeSubidentifiers(Subidentifiers(oid))
  }

  /** The minimal big-endian base-256 digits of n. */
  function BigEndian(n: nat): (r: seq<Byte>)
    ensures |r| >= 1
    decreases n
  {
    if n < 256 then [n] else BigEndian(n / 256) + [n % 256]
  }

  function BigEndianValue(digits: seq<Byte>): nat {
    if digits == [] then 0
    else BigEndianValue(digits[..|digits| - 1]) * 256 + digits[|digits| - 1]
  }

  lemma {:induction false} BigEndianRoundTrip(n: nat)
    ensures BigEndianValue(BigEndian(n)) == n
    decreases n
  {
    if n >= 256 {
      var r := BigEndian(n);
      assert r[..|r| - 1] == BigEndian(n / 256);
      BigEndianRoundTrip(n / 256);
    }
  }

  /** Whether a content length can be written in DER's definite form. */
  predicate HasDefiniteLength(n: nat) {
    n < 128 || |BigEndian(n)| <= MaxLengthOctets
  }

  /** X.690 8.1.3: short form (one octet) below 128, otherwise long form:
      0x80 plus the number of subsequent octets, then the length in base 256. */
  function LengthOctets(n: nat): (r: seq<Byte>)
    requires HasDefiniteLength(n)
  {
    if n < 128 then [n]
    else
      var digits := BigEndian(n);
      [128 + |digits|] + digits
  }

  /** The length octets denote the length: directly in short form, and as
      the announced number of base-256 digits in long form. */
  lemma LengthOctetsDenote(n: nat)
    requires HasDefiniteLength(n)
    ensures n < 128 ==> LengthOctets(n) == [n]
    ensures n >= 128 ==>
      var r := LengthOctets(n);
      128 < r[0] < 0xFF && |r| == 1 + (r[0] - 128) && BigEndianValue(r[1..]) == n
  {
    if n >= 128 {
      var r := LengthOctets(n);
      assert r[1..] == BigEndian(n);
      BigEndianRoundTrip(n);
    }
  }

  /** A DER tag-length-value frame, when the length has a definite form. */
  function EncodeTlv(tag: Byte, content: seq<Byte>): (r: Option<seq<Byte>>)
    ensures r.Some? <==> HasDefiniteLength(|content|)
  {
    if HasDefiniteLength(|content|) then Some([tag] + LengthOctets(|content|) + content) else None
  }

  /** The DER encoding of an object identifier, or None when it has none. */
  function Marshal(oid: Oid): (r: Option<seq<Byte>>)
    ensures r.Some? <==> IsEncodable(oid) && HasDefiniteLength(|ContentOctets(oid)|)
    ensures r.Some? ==> |r.value| >= 2 && r.value[0] == ObjectIdentifierTag
  {
    if IsEncodable(oid) then EncodeTlv(ObjectIdentifierTag, ContentOctets(oid)) else None
  }

  /** Splits off the octets of the first subidentifier: up to and including
      the first octet with bit 8 clear. */
  function SplitSubidentifier(bs: seq<Byte>): (r: Option<(seq<Byte>, seq<Byte>)>)
    ensures r.Some? ==> r.value.0 != [] && r.value.0 + r.value.1 == bs
    decreases |bs|
  {
    if bs == [] then None
    else if bs[0] < 128 then Some(([bs[0]], bs[1..]))
    else
      match SplitSubidentifier(bs[1..])
      case None => None
      case Some((chunk, rest)) => Some(([bs[0]] + chunk, rest))
  }

  function DecodeSubidentifiers(bs: seq<Byte>): Option<seq<nat>>
    decreases |bs|
  {
    if bs == [] then Some([])
    else
      match SplitSubidentifier(bs)
      case None => None
      case Some((chunk, rest)) =>
        match DecodeSubidentifiers(rest)
        case None => None
        case Some(subids) => Some([Base128Value(chunk)] + subids)
  }

  /** X.690 8.19.4 read backwards: the first two arcs from the first
      subidentifier. */
  function FirstArcs(v: nat): Oid {
    if v < 40 then [0, v] else if v < 80 then [1, v - 40] else [2, v - 80]
  }

  /** The object identifier that content octets denote. */
  function DecodeOid(content: seq<Byte>): Option<Oid> {
    match DecodeSubidentifiers(content)
    case None => None
    case Some(subids) => if subids == [] then None else Some(FirstArcs(subids[0]) + subids[1..])
  }

  lemma {:induction false} SplitAfterContinuation(p: seq<Byte>, d: Byte, rest: seq<Byte>)
    requires forall i :: 0 <= i < |p| ==> p[i] >= 128
    requires d < 128
    ensures SplitSubidentifier(p + [d] + rest) == Some((p + [d], rest))
  {
    var bs := p + [d] + rest;
    if p == [] {
      assert bs[1..] == rest;
    } else {
      assert bs[1..] == p[1..] + [d] + rest;
      SplitAfterContinuation(p[1..], d, rest);
      assert [p[0]] + (p[1..] + [d]) == p + [d];
    }
  }

  lemma {:induction false} DecodeEncodeSubidentifiers(subids: seq<nat>)
    ensures DecodeSubidentifiers(EncodeSubidentifiers(subids)) == Some(subids)
  {
    if subids != [] {
      var n := subids[0];
      var tail := EncodeSubidentifiers(subids[1..]);
      assert Base128(n) + tail == ContinuationOctets(n / 128) + [n % 128] + tail;
      SplitAfterContinuation(ContinuationOctets(n / 128), n % 128, tail);
      DecodeEncodeSubidentifiers(subids[1..]);
      Base128RoundTrip(n);
      assert [n] + subids[1..] == subids;
    }
  }

  /** The content octets decode to the object identifier they encode, so
      distinct object identifiers have distinct content octets. */
  lemma DecodeContentOctets(oid: Oid)
    requires IsEncodable(oid)
    ensures DecodeOid(ContentOctets(oid)) == Some(oid)
  {
    var subids := Subidentifiers(oid);
    DecodeEncodeSubidentifiers(subids);
    FirstArcsOfPacked(oid[0], oid[1]);
    assert oid[..2] == [oid[0], oid[1]];
    assert oid[..2] + oid[2..] == oid;
  }

  /** Unpacking the first subidentifier recovers the first two arcs. */
  lemma FirstArcsOfPacked(x: nat, y: nat)
    requires x <= 2 && (x < 2 ==> y < 40)
    ensures FirstArcs(x * 40 + y) == [x, y]
  {
    if x == 0 {
      assert x * 40 + y == y;
    } else if x == 1 {
      assert x * 40 + y == 40 + y;
    } else {
      assert x * 40 + y == 80 + y;
    }
  }
}
