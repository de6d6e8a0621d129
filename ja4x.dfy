/**
  The JA4X certificate fingerprint: three ordered components (issuer
  attribute types, subject attribute types, extension identifiers), each a
  comma-joined list of hexadecimal object-identifier bodies, hashed to 12
  hexadecimal characters apiece and joined with underscores.
 */
module Ja4x {
  import opened Wrappers
  import opened Bytes
  import opened Hex
  import opened Strings
  import opened Asn1

  /** The attribute types of one relative distinguished name, in encoded
      order (the attribute values play no part in the fingerprint). */
  type RdnSet = seq<Oid>

  type RdnSequence = seq<RdnSet>

  /** What the fingerprint reads of a parsed certificate. `issuer` and
      `subject` are the outcome of parsing the raw name bytes as an RDN
      sequence; None stands for bytes that do not parse. */
  datatype Certificate = Certificate(
    issuer: Option<RdnSequence>,
    subject: Option<RdnSequence>,
    extensions: seq<Oid>)

  /** A SHA-256 digest. */
  type Digest = d: seq<Byte> | |d| == 32 witness seq(32, _ => 0)

  /** The digest of the empty component is replaced by twelve zeros. */
  const EmptyHash: string := "000000000000"

  // ---------------------------------------------------------------------
  // Object-identifier bodies (getASN1Body)

  /** The tag octet and the length octets: one length octet, plus
      `raw[1] - 128` more when `raw[1]` announces the long form. */
  function HeaderLength(raw: seq<Byte>): (n: nat)
    requires |raw| >= 2
    ensures 2 <= n <= 129
  {
    if raw[1] > 128 then 2 + (raw[1] - 128) else 2
  }

  /** On any DER frame, the header rule skips exactly the tag and length
      octets; the short-form test `raw[1] <= 128` holds exactly for contents
      shorter than 128 octets, whose length is then `raw[1]` itself. */
  lemma HeaderOfTlv(tag: Byte, content: seq<Byte>, raw: seq<Byte>)
    requires EncodeTlv(tag, content) == Some(raw)
    ensures |raw| >= 2 && HeaderLength(raw) == |raw| - |content|
    ensures raw[HeaderLength(raw)..] == content
    ensures raw[1] <= 128 <==> |content| < 128
    ensures |content| < 128 ==> raw[1] == |content|
  {
    var len := LengthOctets(|content|);
    assert raw == [tag] + len + content;
    LengthOctetsDenote(|content|);
  }

  /** The content octets of the DER encoding of `oid`, or None when it has
      no encoding. */
  function GetAsn1Body(oid: Oid): (r: Option<seq<Byte>>)
    ensures r.Some? <==> Marshal(oid).Some?
    ensures r.Some? ==> r.value == ContentOctets(oid)
  {
    match Marshal(oid)
    case None => None
    case Some(raw) =>
      HeaderOfTlv(ObjectIdentifierTag, ContentOctets(oid), raw);
      Some(raw[HeaderLength(raw)..])
  }

  /** In short form the body is everything after two header octets and its
      length is the length octet. */
  lemma ShortFormBody(oid: Oid, raw: seq<Byte>)
    requires Marshal(oid) == Some(raw)
    requires raw[1] <= 128
    ensures GetAsn1Body(oid) == Some(raw[2..])
    ensures |raw[2..]| == raw[1]
  {
    HeaderOfTlv(ObjectIdentifierTag, ContentOctets(oid), raw);
  }

  /** A body determines the object identifier it was extracted from. */
  lemma BodyDeterminesOid(oid: Oid)
    requires GetAsn1Body(oid).Some?
    ensures DecodeOid(GetAsn1Body(oid).value) == Some(oid)
  {
    DecodeContentOctets(oid);
  }

  lemma BodyInjective(a: Oid, b: Oid)
    requires GetAsn1Body(a).Some? && GetAsn1Body(a) == GetAsn1Body(b)
    ensures a == b
  {
    BodyDeterminesOid(a);
    BodyDeterminesOid(b);
  }

  // ---------------------------------------------------------------------
  // Components

  /** What one object identifier contributes: its hex body, or nothing. */
  function HexEntry(oid: Oid): seq<string> {
    match GetAsn1Body(oid)
    case Some(b) => [Encode(b)]
    case None => []
  }

  /** The hex bodies of the identifiers whose body extraction succeeds, in
      order, duplicates included. */
  function HexEntries(oids: seq<Oid>): seq<string>
    decreases |oids|
  {
    if oids == [] then []
    else HexEntries(oids[..|oids| - 1]) + HexEntry(oids[|oids| - 1])
  }

  /** The attribute types of an RDN sequence: outer sets in order, then the
      attributes within each set in order. */
  function AttributeTypes(rdnSeq: RdnSequence): seq<Oid>
    decreases |rdnSeq|
  {
    if rdnSeq == [] then []
    else AttributeTypes(rdnSeq[..|rdnSeq| - 1]) + rdnSeq[|rdnSeq| - 1]
  }

  function NameEntries(name: Option<RdnSequence>): seq<string> {
    match name
    case None => []
    case Some(rdnSeq) => HexEntries(AttributeTypes(rdnSeq))
  }

  function NameComponent(name: Option<RdnSequence>): string {
    Join(NameEntries(name), ',')
  }

  function ExtensionComponent(extensions: seq<Oid>): string {
    Join(HexEntries(extensions), ',')
  }

  /** The raw components, in the order issuer, subject, extensions. */
  function Components(cert: Certificate): seq<string> {
    [NameComponent(cert.issuer), NameComponent(cert.subject), ExtensionComponent(cert.extensions)]
  }

  /** The positions of the identifiers whose body extraction succeeds. */
  function ExtractedIndices(oids: seq<Oid>): (idx: seq<nat>)
    ensures forall k :: 0 <= k < |idx| ==> idx[k] < |oids|
    ensures forall k, l :: 0 <= k < l < |idx| ==> idx[k] < idx[l]
    ensures forall i :: 0 <= i < |oids| ==> (i in idx <==> GetAsn1Body(oids[i]).Some?)
    decreases |oids|
  {
    if oids == [] then []
    else
      var n := |oids| - 1;
      var prefix := ExtractedIndices(oids[..n]);
      assert forall i :: 0 <= i < n ==> oids[..n][i] == oids[i];
      prefix + (if GetAsn1Body(oids[n]).Some? then [n] else [])
  }

  lemma {:induction false} HexEntriesAppend(a: seq<Oid>, b: seq<Oid>)
    ensures HexEntries(a + b) == HexEntries(a) + HexEntries(b)
    decreases |b|
  {
    if b == [] {
      assert a + b == a;
    } else {
      var n := |b| - 1;
      assert (a + b)[..|a + b| - 1] == a + b[..n];
      HexEntriesAppend(a, b[..n]);
    }
  }

  lemma HexEntriesPush(oids: seq<Oid>, oid: Oid)
    ensures HexEntries(oids + [oid]) ==
      HexEntries(oids) + if GetAsn1Body(oid).Some? then [Encode(GetAsn1Body(oid).value)] else []
  {
    assert (oids + [oid])[..|oids|] == oids;
  }

  /** One step of the inner loop: the entries of the attribute types seen so
      far, after attribute j of the current set. */
  lemma AttributeStep(before: seq<Oid>, rdnSet: RdnSet, j: nat)
    requires j < |rdnSet|
    ensures HexEntries(before + rdnSet[..j + 1]) ==
      HexEntries(before + rdnSet[..j]) +
      if GetAsn1Body(rdnSet[j]).Some? then [Encode(GetAsn1Body(rdnSet[j]).value)] else []
  {
    assert rdnSet[..j + 1] == rdnSet[..j] + [rdnSet[j]];
    assert before + rdnSet[..j + 1] == (before + rdnSet[..j]) + [rdnSet[j]];
    HexEntriesPush(before + rdnSet[..j], rdnSet[j]);
  }

  /** Entry k of a component is the hex body of the k-th identifier whose
      extraction succeeds: one entry per success, in encounter order, and no
      entry for a failure. */
  lemma {:induction false} HexEntriesAtExtracted(oids: seq<Oid>)
    ensures |HexEntries(oids)| == |ExtractedIndices(oids)|
    ensures forall k :: 0 <= k < |HexEntries(oids)| ==>
      GetAsn1Body(oids[ExtractedIndices(oids)[k]]).Some? &&
      HexEntries(oids)[k] == Encode(GetAsn1Body(oids[ExtractedIndices(oids)[k]]).value)
    decreases |oids|
  {
    if oids != [] {
      var n := |oids| - 1;
      HexEntriesAtExtracted(oids[..n]);
      assert forall i :: 0 <= i < n ==> oids[..n][i] == oids[i];
    }
  }

  /** When every extraction succeeds, entry i is the content octets of
      identifier i in hex; in particular a repeated identifier is listed
      once per occurrence. */
  lemma {:induction false} HexEntriesAllExtracted(oids: seq<Oid>)
    requires forall i :: 0 <= i < |oids| ==> GetAsn1Body(oids[i]).Some?
    ensures |HexEntries(oids)| == |oids|
    ensures forall i :: 0 <= i < |oids| ==> HexEntries(oids)[i] == Encode(GetAsn1Body(oids[i]).value)
    decreases |oids|
  {
    if oids != [] {
      var n := |oids| - 1;
      var prefix := oids[..n];
      assert forall i :: 0 <= i < n ==> prefix[i] == oids[i];
      HexEntriesAllExtracted(prefix);
      var entry := Encode(GetAsn1Body(oids[n]).value);
      assert HexEntry(oids[n]) == [entry];
      var entries := HexEntries(oids);
      assert entries == HexEntries(prefix) + [entry];
      forall i | 0 <= i < |oids|
        ensures entries[i] == Encode(GetAsn1Body(oids[i]).value)
      {
        if i < n {
          assert entries[i] == HexEntries(prefix)[i];
        }
      }
    }
  }

  /** An identifier without a body leaves no trace, not even a separator. */
  lemma HexEntriesSkip(before: seq<Oid>, oid: Oid, after: seq<Oid>)
    requires GetAsn1Body(oid).None?
    ensures HexEntries(before + [oid] + after) == HexEntries(before) + HexEntries(after)
  {
    HexEntriesAppend(before + [oid], after);
    HexEntriesPush(before, oid);
  }

  /** Attribute j of set i sits right after the attributes of the sets
      before it. */
  lemma {:induction false} AttributeTypesAppend(a: RdnSequence, b: RdnSequence)
    ensures AttributeTypes(a + b) == AttributeTypes(a) + AttributeTypes(b)
    decreases |b|
  {
    if b == [] {
      assert a + b == a;
    } else {
      var n := |b| - 1;
      assert (a + b)[..|a + b| - 1] == a + b[..n];
      AttributeTypesAppend(a, b[..n]);
    }
  }

  /** The attribute types of a non-empty sequence start with those of its
      first set. */
  lemma AttributeTypesCons(rdnSeq: RdnSequence)
    requires rdnSeq != []
    ensures AttributeTypes(rdnSeq) == rdnSeq[0] + AttributeTypes(rdnSeq[1..])
  {
    var single: RdnSequence := [rdnSeq[0]];
    assert single[..0] == [];
    assert AttributeTypes(single) == rdnSeq[0];
    assert single + rdnSeq[1..] == rdnSeq;
    AttributeTypesAppend(single, rdnSeq[1..]);
  }

  /** The attribute types are those of the sets before set i, then those of
      set i, then those of the sets after it, and nothing else. */
  lemma AttributeTypesAround(rdnSeq: RdnSequence, i: nat)
    requires i < |rdnSeq|
    ensures AttributeTypes(rdnSeq) ==
      AttributeTypes(rdnSeq[..i]) + rdnSeq[i] + AttributeTypes(rdnSeq[i + 1..])
  {
    var rest := rdnSeq[i..];
    assert rdnSeq[..i] + rest == rdnSeq;
    AttributeTypesAppend(rdnSeq[..i], rest);
    AttributeTypesCons(rest);
    assert rest[0] == rdnSeq[i] && rest[1..] == rdnSeq[i + 1..];
  }

  lemma {:induction false} AttributeTypesAt(rdnSeq: RdnSequence, i: nat, j: nat)
    requires i < |rdnSeq| && j < |rdnSeq[i]|
    ensures |AttributeTypes(rdnSeq)| ==
      |AttributeTypes(rdnSeq[..i])| + |rdnSeq[i]| + |AttributeTypes(rdnSeq[i + 1..])|
    ensures |AttributeTypes(rdnSeq[..i])| + j < |AttributeTypes(rdnSeq)|
    ensures AttributeTypes(rdnSeq)[|AttributeTypes(rdnSeq[..i])| + j] == rdnSeq[i][j]
    decreases |rdnSeq|
  {
    AttributeTypesAround(rdnSeq, i);
    var n := |rdnSeq| - 1;
    if i < n {
      assert rdnSeq[..n][..i] == rdnSeq[..i];
      AttributeTypesAt(rdnSeq[..n], i, j);
    } else {
      assert rdnSeq[..i] == rdnSeq[..n];
    }
  }

  /** Every entry is a non-empty run of lowercase hex digits. */
  lemma HexEntriesAreHex(oids: seq<Oid>)
    ensures forall k :: 0 <= k < |HexEntries(oids)| ==>
      HexEntries(oids)[k] != "" &&
      forall c :: c in HexEntries(oids)[k] ==> IsLowerHexDigit(c)
  {
    HexEntriesAtExtracted(oids);
  }

  /** A component lists its entries without loss: it is empty exactly when
      there are no entries, and otherwise splitting it at the commas gives
      the entries back. */
  lemma ComponentEntries(entries: seq<string>)
    requires forall k :: 0 <= k < |entries| ==>
      entries[k] != "" && forall c :: c in entries[k] ==> IsLowerHexDigit(c)
    ensures Join(entries, ',') == "" <==> entries == []
    ensures entries != [] ==> Split(Join(entries, ','), ',') == entries
    ensures '_' !in Join(entries, ',')
  {
    JoinEmpty(entries, ',');
    if entries != [] {
      SplitJoin(entries, ',');
    }
    JoinAvoids(entries, ',', '_');
  }

  lemma NameComponentEntries(name: Option<RdnSequence>)
    ensures NameComponent(name) == "" <==> NameEntries(name) == []
    ensures NameEntries(name) != [] ==> Split(NameComponent(name), ',') == NameEntries(name)
    ensures '_' !in NameComponent(name)
  {
    if name.Some? {
      HexEntriesAreHex(AttributeTypes(name.value));
    }
    ComponentEntries(NameEntries(name));
  }

  lemma ExtensionComponentEntries(extensions: seq<Oid>)
    ensures ExtensionComponent(extensions) == "" <==> HexEntries(extensions) == []
    ensures HexEntries(extensions) != [] ==>
      Split(ExtensionComponent(extensions), ',') == HexEntries(extensions)
    ensures '_' !in ExtensionComponent(extensions)
  {
    HexEntriesAreHex(extensions);
    ComponentEntries(HexEntries(extensions));
  }

  /** The extractor never sorts: swapping two distinct attribute types that
      both have bodies changes the component. */
  lemma OrderMatters(a: Oid, b: Oid)
    requires GetAsn1Body(a).Some? && GetAsn1Body(b).Some? && a != b
    ensures NameComponent(Some([[a, b]])) != NameComponent(Some([[b, a]]))
  {
    var ab, ba := [[a, b]], [[b, a]];
    assert ab[..0] == [] && ba[..0] == [];
    assert AttributeTypes(ab) == [a, b];
    assert AttributeTypes(ba) == [b, a];
    HexEntriesAllExtracted([a, b]);
    HexEntriesAllExtracted([b, a]);
    var ea, eb := Encode(GetAsn1Body(a).value), Encode(GetAsn1Body(b).value);
    assert NameEntries(Some(ab)) == [ea, eb];
    assert NameEntries(Some(ba)) == [eb, ea];
    if ea == eb {
      EncodeInjective(GetAsn1Body(a).value, GetAsn1Body(b).value);
      BodyInjective(a, b);
    }
    NameComponentEntries(Some(ab));
    NameComponentEntries(Some(ba));
  }

  // ---------------------------------------------------------------------
  // Hashing (hash12)

  /** Twelve lowercase hex characters: the sentinel for the empty string,
      otherwise the first 6 digest bytes in hex. */
  function Hash12(s: string, sum256: string -> Digest): (r: string)
    ensures |r| == 12
    ensures forall i :: 0 <= i < |r| ==> IsLowerHexDigit(r[i])
    ensures s == "" ==> r == EmptyHash
    ensures s != "" ==> r == Encode(sum256(s)[..6])
  {
    if s == "" then EmptyHash
    else
      var d := sum256(s);
      assert d == d[..6] + d[6..];
      EncodeAppend(d[..6], d[6..]);
      Encode(d)[..12]
  }

  /** For a non-empty string, Hash12 is a prefix of the 64-digit hex digest. */
  lemma Hash12IsDigestPrefix(s: string, sum256: string -> Digest)
    requires s != ""
    ensures Hash12(s, sum256) <= Encode(sum256(s))
  {
    var d := sum256(s);
    assert d == d[..6] + d[6..];
    EncodeAppend(d[..6], d[6..]);
  }

  /** For a non-empty string, Hash12 reads back as the first 48 bits of the
      digest. */
  lemma Hash12Decodes(s: string, sum256: string -> Digest)
    requires s != ""
    ensures Decode(Hash12(s, sum256)) == Some(sum256(s)[..6])
  {
    DecodeEncode(sum256(s)[..6]);
  }

  function HashAll(comps: seq<string>, sum256: string -> Digest): seq<string> {
    seq(|comps|, i requires 0 <= i < |comps| => Hash12(comps[i], sum256))
  }

  function Fingerprint(cert: Certificate, sum256: string -> Digest): string {
    Join(HashAll(Components(cert), sum256), '_')
  }

  function RawFingerprint(cert: Certificate): string {
    Join(Components(cert), '_')
  }

  /** The three hashes joined with underscores. */
  lemma FingerprintSegments(cert: Certificate, sum256: string -> Digest)
    ensures Fingerprint(cert, sum256) ==
      Hash12(NameComponent(cert.issuer), sum256) + "_" +
      Hash12(NameComponent(cert.subject), sum256) + "_" +
      Hash12(ExtensionComponent(cert.extensions), sum256)
  {
    var comps := Components(cert);
    var h0, h1, h2 := Hash12(comps[0], sum256), Hash12(comps[1], sum256), Hash12(comps[2], sum256);
    assert HashAll(comps, sum256) == [h0, h1, h2];
    JoinThree(h0, h1, h2, '_');
  }

  /** Where the segments of three 12-character hashes joined by
      underscores sit. */
  lemma SegmentPositions(h0: string, h1: string, h2: string)
    requires |h0| == 12 && |h1| == 12 && |h2| == 12
    ensures |h0 + "_" + h1 + "_" + h2| == 38
    ensures (h0 + "_" + h1 + "_" + h2)[..12] == h0
    ensures (h0 + "_" + h1 + "_" + h2)[..13] == h0 + "_"
    ensures (h0 + "_" + h1 + "_" + h2)[12..] == "_" + h1 + "_" + h2
    ensures (h0 + "_" + h1 + "_" + h2)[13..25] == h1
    ensures (h0 + "_" + h1 + "_" + h2)[25..] == "_" + h2
    ensures (h0 + "_" + h1 + "_" + h2)[26..] == h2
    ensures (h0 + "_" + h1 + "_" + h2)[12] == '_' && (h0 + "_" + h1 + "_" + h2)[25] == '_'
  {
    var fp := h0 + "_" + h1 + "_" + h2;
    assert fp == h0 + ("_" + h1 + "_" + h2);
    assert fp == (h0 + "_") + (h1 + "_" + h2);
    assert fp == (h0 + "_" + h1) + ("_" + h2);
    assert (h0 + "_" + h1)[13..] == h1;
  }

  /** The fingerprint is 38 characters: three 12-digit hashes of the issuer,
      subject and extension components, separated by underscores. */
  lemma FingerprintShape(cert: Certificate, sum256: string -> Digest)
    ensures |Fingerprint(cert, sum256)| == 38
    ensures Fingerprint(cert, sum256)[12] == '_' && Fingerprint(cert, sum256)[25] == '_'
    ensures Fingerprint(cert, sum256)[..12] == Hash12(NameComponent(cert.issuer), sum256)
    ensures Fingerprint(cert, sum256)[13..25] == Hash12(NameComponent(cert.subject), sum256)
    ensures Fingerprint(cert, sum256)[26..] == Hash12(ExtensionComponent(cert.extensions), sum256)
    ensures forall i :: 0 <= i < 38 && i != 12 && i != 25 ==> IsLowerHexDigit(Fingerprint(cert, sum256)[i])
  {
    var h0 := Hash12(NameComponent(cert.issuer), sum256);
    var h1 := Hash12(NameComponent(cert.subject), sum256);
    var h2 := Hash12(ExtensionComponent(cert.extensions), sum256);
    FingerprintSegments(cert, sum256);
    SegmentPositions(h0, h1, h2);
    var fp := Fingerprint(cert, sum256);
    forall i | 0 <= i < 38 && i != 12 && i != 25
      ensures IsLowerHexDigit(fp[i])
    {
      if i < 12 {
        assert fp[i] == fp[..12][i];
      } else if i < 25 {
        assert fp[i] == fp[13..25][i - 13];
      } else {
        assert fp[i] == fp[26..][i - 26];
      }
    }
  }

  /** Splitting the raw form and the hashed form at the underscores gives
      the three components and their hashes, segment by segment. */
  lemma RawAndHashedAgree(cert: Certificate, sum256: string -> Digest)
    ensures Split(RawFingerprint(cert), '_') == Components(cert)
    ensures Split(Fingerprint(cert, sum256), '_') == HashAll(Components(cert), sum256)
    ensures forall i :: 0 <= i < 3 ==>
      Split(Fingerprint(cert, sum256), '_')[i] == Hash12(Split(RawFingerprint(cert), '_')[i], sum256)
  {
    var comps := Components(cert);
    NameComponentEntries(cert.issuer);
    NameComponentEntries(cert.subject);
    ExtensionComponentEntries(cert.extensions);
    SplitJoin(comps, '_');
    var hashes := HashAll(comps, sum256);
    forall i | 0 <= i < |hashes| ensures '_' !in hashes[i] {
      assert forall c :: c in hashes[i] ==> IsLowerHexDigit(c);
    }
    SplitJoin(hashes, '_');
  }

  /** Issuer bytes that do not parse give the empty issuer component and the
      sentinel as first segment; whatever the issuer, the rest of the
      fingerprint depends only on subject and extensions. */
  lemma UnparsedIssuer(cert: Certificate, other: Option<RdnSequence>, sum256: string -> Digest)
    ensures |Fingerprint(cert, sum256)| == |Fingerprint(cert.(issuer := other), sum256)| == 38
    ensures cert.issuer.None? ==> NameComponent(cert.issuer) == ""
    ensures cert.issuer.None? ==> Fingerprint(cert, sum256)[..12] == EmptyHash
    ensures Fingerprint(cert.(issuer := other), sum256)[12..] == Fingerprint(cert, sum256)[12..]
  {
    var h1 := Hash12(NameComponent(cert.subject), sum256);
    var h2 := Hash12(ExtensionComponent(cert.extensions), sum256);
    FingerprintSegments(cert, sum256);
    FingerprintSegments(cert.(issuer := other), sum256);
    SegmentPositions(Hash12(NameComponent(cert.issuer), sum256), h1, h2);
    SegmentPositions(Hash12(NameComponent(other), sum256), h1, h2);
  }

  /** The same for subject bytes that do not parse: the middle segment is the
      sentinel and the outer segments depend only on issuer and extensions. */
  lemma UnparsedSubject(cert: Certificate, other: Option<RdnSequence>, sum256: string -> Digest)
    ensures |Fingerprint(cert, sum256)| == |Fingerprint(cert.(subject := other), sum256)| == 38
    ensures cert.subject.None? ==> NameComponent(cert.subject) == ""
    ensures cert.subject.None? ==> Fingerprint(cert, sum256)[13..25] == EmptyHash
    ensures Fingerprint(cert.(subject := other), sum256)[..13] == Fingerprint(cert, sum256)[..13]
    ensures Fingerprint(cert.(subject := other), sum256)[25..] == Fingerprint(cert, sum256)[25..]
  {
    var h0 := Hash12(NameComponent(cert.issuer), sum256);
    var h2 := Hash12(ExtensionComponent(cert.extensions), sum256);
    FingerprintSegments(cert, sum256);
    FingerprintSegments(cert.(subject := other), sum256);
    SegmentPositions(h0, Hash12(NameComponent(cert.subject), sum256), h2);
    SegmentPositions(h0, Hash12(NameComponent(other), sum256), h2);
  }

  // ---------------------------------------------------------------------
  // Two certificates worked through

  /** id-at-commonName, 2.5.4.3. */
  const CommonName: Oid := [2, 5, 4, 3]

  /** id-ce-basicConstraints, 2.5.29.19. */
  const BasicConstraints: Oid := [2, 5, 29, 19]

  /** 2.5.4.3 is framed as 06 03 55 04 03. */
  lemma CommonNameBody()
    ensures Marshal(CommonName) == Some([0x06, 0x03, 0x55, 0x04, 0x03])
    ensures GetAsn1Body(CommonName) == Some([0x55, 0x04, 0x03])
  {
    assert Subidentifiers(CommonName) == [85, 4, 3];
    assert ContentOctets(CommonName) == [0x55, 0x04, 0x03];
    assert HasDefiniteLength(3) && LengthOctets(3) == [3];
    assert [ObjectIdentifierTag] + [3] + [0x55, 0x04, 0x03] == [0x06, 0x03, 0x55, 0x04, 0x03];
  }

  /** 2.5.29.19 is framed as 06 03 55 1d 13. */
  lemma BasicConstraintsBody()
    ensures Marshal(BasicConstraints) == Some([0x06, 0x03, 0x55, 0x1d, 0x13])
    ensures GetAsn1Body(BasicConstraints) == Some([0x55, 0x1d, 0x13])
  {
    assert Subidentifiers(BasicConstraints) == [85, 29, 19];
    assert ContentOctets(BasicConstraints) == [0x55, 0x1d, 0x13];
    assert HasDefiniteLength(3) && LengthOctets(3) == [3];
    assert [ObjectIdentifierTag] + [3] + [0x55, 0x1d, 0x13] == [0x06, 0x03, 0x55, 0x1d, 0x13];
  }

  /** The name CN=test contributes the body 55 04 03 of 2.5.4.3 in hex. */
  lemma CommonNameComponent()
    ensures NameComponent(Some([[CommonName]])) == "550403"
  {
    CommonNameBody();
    assert Encode([0x55, 0x04, 0x03]) == "550403";
    assert [[CommonName]][..0] == [];
    assert AttributeTypes([[CommonName]]) == [CommonName];
    HexEntriesAllExtracted([CommonName]);
  }

  /** Issuer = subject = CN=test and no extensions: the empty extension
      component hashes to the sentinel. */
  lemma SelfSignedCommonName(sum256: string -> Digest)
    ensures Components(Certificate(Some([[CommonName]]), Some([[CommonName]]), [])) == ["550403", "550403", ""]
    ensures RawFingerprint(Certificate(Some([[CommonName]]), Some([[CommonName]]), [])) == "550403_550403_"
    ensures Fingerprint(Certificate(Some([[CommonName]]), Some([[CommonName]]), []), sum256)
      == Hash12("550403", sum256) + "_" + Hash12("550403", sum256) + "_" + EmptyHash
  {
    var cert := Certificate(Some([[CommonName]]), Some([[CommonName]]), []);
    CommonNameComponent();
    var c := NameComponent(Some([[CommonName]]));
    assert Components(cert) == [c, c, ""];
    JoinThree(c, c, "", '_');
    FingerprintSegments(cert, sum256);
  }

  /** An extension listed twice appears twice in the extension component. */
  lemma DuplicateExtension(oid: Oid)
    requires GetAsn1Body(oid).Some?
    ensures ExtensionComponent([oid, oid]) ==
      Encode(GetAsn1Body(oid).value) + "," + Encode(GetAsn1Body(oid).value)
  {
    var e := Encode(GetAsn1Body(oid).value);
    HexEntriesAllExtracted([oid, oid]);
    assert HexEntries([oid, oid]) == [e, e];
    assert Join([e, e], ',') == e + [','] + e;
  }

  lemma DuplicateBasicConstraints()
    ensures ExtensionComponent([BasicConstraints, BasicConstraints]) == "551d13,551d13"
  {
    BasicConstraintsBody();
    assert Encode([0x55, 0x1d, 0x13]) == "551d13";
    DuplicateExtension(BasicConstraints);
  }

  // ---------------------------------------------------------------------
  // The procedures as the source runs them

  /** One step of the outer loop: set i follows the sets before it. */
  lemma SetStep(rdnSeq: RdnSequence, i: nat)
    requires i < |rdnSeq|
    ensures AttributeTypes(rdnSeq[..i + 1]) == AttributeTypes(rdnSeq[..i]) + rdnSeq[i]
  {
    assert rdnSeq[..i + 1][..i] == rdnSeq[..i];
  }

  /** The hex bodies of the attribute types of an RDN sequence. */
  method AttributeTypeHex(rdnSeq: RdnSequence) returns (rdnHex: seq<string>)
    ensures rdnHex == HexEntries(AttributeTypes(rdnSeq))
  {
    rdnHex := [];
    for i := 0 to |rdnSeq|
      invariant rdnHex == HexEntries(AttributeTypes(rdnSeq[..i]))
    {
      var rdnSet := rdnSeq[i];
      ghost var before := AttributeTypes(rdnSeq[..i]);
      assert before + rdnSet[..0] == before;
      for j := 0 to |rdnSet|
        invariant rdnHex == HexEntries(before + rdnSet[..j])
      {
        var b := GetAsn1Body(rdnSet[j]);
        if b.Some? {
          rdnHex := rdnHex + [Encode(b.value)];
        }
        AttributeStep(before, rdnSet, j);
      }
      assert rdnSet[..|rdnSet|] == rdnSet;
      SetStep(rdnSeq, i);
    }
    assert rdnSeq[..|rdnSeq|] == rdnSeq;
  }

  /** The hex bodies of the extension identifiers. */
  method ExtensionHex(extensions: seq<Oid>) returns (extHex: seq<string>)
    ensures extHex == HexEntries(extensions)
  {
    extHex := [];
    for i := 0 to |extensions|
      invariant extHex == HexEntries(extensions[..i])
    {
      var b := GetAsn1Body(extensions[i]);
      if b.Some? {
        extHex := extHex + [Encode(b.value)];
      }
      assert extensions[..i + 1] == extensions[..i] + [extensions[i]];
      HexEntriesPush(extensions[..i], extensions[i]);
    }
    assert extensions[..|extensions|] == extensions;
  }

  /** The three raw components: issuer, subject, extensions. */
  method ComputeComponents(cert: Certificate) returns (comps: seq<string>)
    ensures comps == Components(cert)
  {
    comps := [];
    var names := [cert.issuer, cert.subject];
    for k := 0 to |names|
      invariant |comps| == k
      invariant forall i :: 0 <= i < k ==> comps[i] == NameComponent(names[i])
    {
      var rdnHex: seq<string> := [];
      if names[k].Some? {
        rdnHex := AttributeTypeHex(names[k].value);
      }
      comps := comps + [Join(rdnHex, ',')];
    }
    var extHex := ExtensionHex(cert.extensions);
    comps := comps + [Join(extHex, ',')];
  }

  /** The JA4X fingerprint of a certificate. */
  method JA4X(cert: Certificate, sum256: string -> Digest) returns (fp: string)
    ensures fp == Fingerprint(cert, sum256)
    ensures |fp| == 38 && fp[12] == '_' && fp[25] == '_'
  {
    var rawComps := ComputeComponents(cert);
    var hashComps: seq<string> := [];
    for i := 0 to |rawComps|
      invariant |hashComps| == i
      invariant forall k :: 0 <= k < i ==> hashComps[k] == Hash12(rawComps[k], sum256)
    {
      hashComps := hashComps + [Hash12(rawComps[i], sum256)];
    }
    assert hashComps == HashAll(rawComps, sum256);
    fp := Join(hashComps, '_');
    FingerprintShape(cert, sum256);
  }

  /** The fingerprint together with its raw form: the same hash as JA4X,
      and the three unhashed components joined with underscores. */
  method JA4XWithRaw(cert: Certificate, sum256: string -> Digest) returns (hash: string, raw: string)
    ensures hash == Fingerprint(cert, sum256)
    ensures raw == RawFingerprint(cert)
    ensures Split(raw, '_') == Components(cert)
    ensures Split(hash, '_') == HashAll(Components(cert), sum256)
    ensures forall i :: 0 <= i < 3 ==> Split(hash, '_')[i] == Hash12(Split(raw, '_')[i], sum256)
  {
    var rawComps := ComputeComponents(cert);
    var hashComps: seq<string> := [];
    for i := 0 to |rawComps|
      invariant |hashComps| == i
      invariant forall k :: 0 <= k < i ==> hashComps[k] == Hash12(rawComps[k], sum256)
    {
      hashComps := hashComps + [Hash12(rawComps[i], sum256)];
    }
    assert hashComps == HashAll(rawComps, sum256);
    hash, raw := Join(hashComps, '_'), Join(rawComps, '_');
    RawAndHashedAgree(cert, sum256);
  }
}
