# JA4X fingerprint derivation, modelled in Dafny

This project models the JA4X certificate fingerprint of `ja4x.go`. It proves
properties of the model.

A JA4X fingerprint has three components, built in a fixed order:

- the issuer component: the attribute types of the issuer RDN sequence;
- the subject component: the attribute types of the subject RDN sequence;
- the extension component: the extension identifiers.

Each component walks its object identifiers in encoded order. It takes the
DER content octets (the "body") of each identifier, writes them in lowercase
hex, and joins them with commas. An identifier whose body cannot be extracted
contributes nothing. A name whose raw bytes do not parse gives the empty
component. Each component is then hashed to 12 hex characters: the start of
its SHA-256 digest, or `000000000000` for the empty component. The three
hashes are joined with `_`. The raw form joins the unhashed components with
`_` instead.

Files:

- `wrappers.dfy`: the `Option` type.
- `bytes.dfy`: the `Byte` type shared by the encoders.
- `hex.dfy`: a lowercase hex encoder standing in for `hex.EncodeToString`, and its decoder.
- `strings.dfy`: `Join`, standing in for `strings.Join`, and its partner `Split`.
- `asn1.dfy`: the DER encoding of an OBJECT IDENTIFIER, standing in for
  `asn1.Marshal`. It covers the content octets of ITU-T X.690 section 8.19,
  the definite-form length octets of section 8.1.3, and a decoder showing that
  the content octets determine the identifier.
- `ja4x.dfy`: the core. `GetAsn1Body`, `Hash12` and the component and
  fingerprint functions are pure. `AttributeTypeHex`, `ExtensionHex`,
  `ComputeComponents`, `JA4X` and `JA4XWithRaw` are methods whose loops mirror
  the source's loops, each proved equal to the specification functions.

Inputs the model takes as given:

- A certificate is `Certificate(issuer, subject, extensions)`.
- `issuer` and `subject` are the result of parsing the raw name bytes: an RDN
  sequence (sets of attribute-type OIDs), or `None` when the bytes do not parse.
- SHA-256 over the string's bytes is a parameter `sum256: string -> Digest`
  (32 bytes).

The code tests `rawOid[1] > 128`, so a length octet of exactly 0x80 would be
read as short form. DER never produces that octet (the indefinite form), and
`HeaderOfTlv` shows that no encoding from `Marshal` has it. So the code
agrees with its description for every input it can receive.

## Model

| member | source | states |
|---|---|---|
| `Ja4x.GetAsn1Body` | ja4x.go:77-91 | a body exists exactly when the OID has a DER encoding, and the body is then the X.690 section 8.19 content octets of the OID |
| `Ja4x.HeaderLength` | ja4x.go:85-88 | the two-branch header rule: 2 octets, plus `raw[1] - 128` more when `raw[1] > 128`, so between 2 and 129 octets; `HeaderOfTlv` states what it skips on a DER frame |
| `Ja4x.HeaderOfTlv` | ja4x.go:84-90 | on every DER frame the two-branch header rule skips exactly the tag and length octets and leaves the content; the test `raw[1] <= 128` holds exactly for contents under 128 octets, whose length is then `raw[1]` |
| `Ja4x.ShortFormBody` | ja4x.go:84-90 | in short form the body is everything after two header octets and its length equals the length octet |
| `Ja4x.BodyDeterminesOid` | ja4x.go:77-91 | the body decodes back to the OID it came from |
| `Ja4x.BodyInjective` | ja4x.go:77-91 | distinct OIDs have distinct bodies |
| `Ja4x.CommonNameBody` | ja4x.go:79-90 | 2.5.4.3 marshals to 06 03 55 04 03 and its body is 55 04 03 |
| `Ja4x.BasicConstraintsBody` | ja4x.go:79-90 | 2.5.29.19 marshals to 06 03 55 1d 13 and its body is 55 1d 13 |
| `Asn1.Marshal` | ja4x.go:79-82 | an encoding exists exactly for encodable OIDs whose length has a definite form; it begins with the OBJECT IDENTIFIER tag and has a length octet |
| `Asn1.Base128` | ja4x.go:79 | a subidentifier's octets all have bit 8 set except the last, and there is no leading 0x80 octet |
| `Asn1.Base128RoundTrip` | ja4x.go:79 | the base-128 octets denote the subidentifier |
| `Asn1.LengthOctetsDenote` | ja4x.go:84-88 | short form is the length itself; long form is 0x80 plus the count of the octets that follow (under 0xFF), followed by the length in base 256 |
| `Asn1.DecodeContentOctets` | ja4x.go:79 | the content octets decode back to the object identifier |
| `Asn1.FirstArcsOfPacked` | ja4x.go:79 | the first two arcs can be recovered from the packed first subidentifier |
| `Hex.Encode` | ja4x.go:54 | two lowercase hex digits per byte |
| `Hex.DecodeEncode` | ja4x.go:54 | the hex encoding decodes back to the bytes |
| `Hex.EncodeInjective` | ja4x.go:67 | distinct byte strings have distinct hex encodings |
| `Hex.EncodeAppend` | ja4x.go:102 | encoding distributes over concatenation |
| `Strings.Join` | ja4x.go:60 | Go's `strings.Join` with a one-character separator: its ensures states that a single part joins to itself; `JoinEmpty` covers the empty result, `JoinThree` the parts separated by `sep`, and `SplitJoin` that `Split` undoes it |
| `Strings.SplitJoin` | ja4x.go:60 | splitting a join at its separator gives the parts back when no part contains the separator |
| `Strings.JoinAvoids` | ja4x.go:34 | a character that is not the separator and is in no part is not in the join |
| `Strings.JoinThree` | ja4x.go:21 | the join of three parts is written out |
| `Ja4x.ExtractedIndices` | ja4x.go:53 | the positions of the OIDs whose body extraction succeeds: in range, strictly increasing, and containing a position exactly when its extraction succeeds |
| `Ja4x.HexEntriesAtExtracted` | ja4x.go:50-56 | entry k is the hex body of the k-th OID whose extraction succeeds, so entries match successes one to one in encounter order |
| `Ja4x.HexEntriesAllExtracted` | ja4x.go:65-69 | when every extraction succeeds, entry i is the hex body of OID i, so a repeated OID is listed once per occurrence |
| `Ja4x.HexEntriesSkip` | ja4x.go:53-55 | an OID without a body contributes nothing and leaves no placeholder |
| `Ja4x.HexEntriesAppend` | ja4x.go:50-56 | the entries of a concatenation are the concatenation of the entries |
| `Ja4x.AttributeTypesAppend` | ja4x.go:50-51 | the attribute types of two concatenated RDN sequences are the concatenation of their attribute types |
| `Ja4x.AttributeTypesCons` | ja4x.go:50-51 | the attribute types of a non-empty RDN sequence start with those of its first set |
| `Ja4x.AttributeTypesAround` | ja4x.go:50-51 | the attribute types are those of the sets before set i, then set i's own, then those of the sets after it, and nothing else |
| `Ja4x.AttributeTypesAt` | ja4x.go:50-51 | the flattening is exactly as long as the sets together, and attribute j of RDN set i is visited right after all attributes of the sets before it (outer sets, then inner attributes) |
| `Ja4x.ComponentEntries` | ja4x.go:60 | a component is empty exactly when it has no entries, splitting it at commas gives the entries back, and it contains no `_` |
| `Ja4x.NameComponentEntries` | ja4x.go:45-60 | the same for a name component, the entries being the hex bodies of the name's attribute types |
| `Ja4x.ExtensionComponentEntries` | ja4x.go:64-71 | the same for the extension component |
| `Ja4x.OrderMatters` | ja4x.go:41-56 | swapping two distinct attribute types, both with bodies, changes the name component (no sorting) |
| `Ja4x.Hash12` | ja4x.go:95-103 | always 12 lowercase hex characters; `000000000000` for the empty string whatever the digest; otherwise the hex of the first 6 digest bytes |
| `Ja4x.Hash12IsDigestPrefix` | ja4x.go:101-102 | for a non-empty string the hash is a prefix of the hex encoding of the whole digest |
| `Ja4x.Hash12Decodes` | ja4x.go:101-102 | for a non-empty string the hash decodes to the first 48 bits of the digest |
| `Ja4x.FingerprintSegments` | ja4x.go:13-21 | the fingerprint is the issuer, subject and extension hashes joined by `_`, in that order |
| `Ja4x.FingerprintShape` | ja4x.go:13-21 | the fingerprint has 38 characters: `_` at positions 12 and 25, lowercase hex elsewhere, and its three segments are the hashes of the three components |
| `Ja4x.RawAndHashedAgree` | ja4x.go:26-34 | splitting the raw form at `_` gives the three components; splitting the fingerprint gives their hashes, segment by segment |
| `Ja4x.UnparsedIssuer` | ja4x.go:45-60 | unparseable issuer bytes give the empty issuer component and a sentinel first segment; the rest of the fingerprint does not depend on the issuer |
| `Ja4x.UnparsedSubject` | ja4x.go:45-60 | unparseable subject bytes give the empty subject component and a sentinel middle segment; the outer segments do not depend on the subject |
| `Ja4x.CommonNameComponent` | ja4x.go:49-60 | the name CN=test gives the component `550403` |
| `Ja4x.SelfSignedCommonName` | ja4x.go:13-74 | issuer = subject = CN=test with no extensions gives components `550403`, `550403` and `` (empty), raw form `550403_550403_`, and a fingerprint ending in the sentinel |
| `Ja4x.DuplicateExtension` | ja4x.go:64-71 | an extension OID listed twice appears twice, comma-separated |
| `Ja4x.DuplicateBasicConstraints` | ja4x.go:64-71 | two basicConstraints extensions give `551d13,551d13` |
| `Ja4x.AttributeTypeHex` | ja4x.go:49-58 | the nested loop over RDN sets and attributes yields exactly the hex entries of the attribute types in encounter order |
| `Ja4x.ExtensionHex` | ja4x.go:64-69 | the loop over extensions yields exactly the hex entries of the extension OIDs in order |
| `Ja4x.ComputeComponents` | ja4x.go:38-74 | returns exactly the three components issuer, subject, extensions, with an unparsed name giving `""` |
| `Ja4x.JA4X` | ja4x.go:13-22 | returns the fingerprint of the certificate, 38 characters with `_` at positions 12 and 25 |
| `Ja4x.JA4XWithRaw` | ja4x.go:26-35 | the first result is the same fingerprint JA4X returns; the second splits at `_` into the three components, and segment i of the first is the hash of segment i of the second |

## Left out

- `cmd/ja4x/main.go` is not part of this model. It covers file reading, flag and argument handling, PEM detection, certificate parsing, fatal exits and printing, all of which are I/O.
- The parsing of raw name bytes into an RDN sequence (`asn1.Unmarshal`, ja4x.go:49) is an input. Each name is given as `Option<RdnSequence>`, with `None` for bytes that fail to parse.
- The attribute values of an RDN are not modelled, because only `rdn.Type` is read.
- SHA-256 and the conversion of the string to bytes form the parameter `sum256`. Its internals are not modelled, so the pinned hash value of a concrete certificate cannot be computed. The scenario lemmas state it in terms of `Hash12`.
- `Asn1.Marshal`: Go's exact rejection rules are not reproduced. Failure is the X.690 rule instead: fewer than two arcs, a first arc above 2, or a second arc of 40 or more under a first arc of 0 or 1. Arcs are unbounded naturals, so Go's negative and 64-bit-overflowing arcs are not represented.
- `Asn1.Marshal`: it also fails when the content would need more than 126 length octets (X.690 section 8.1.3.5 c). Go's lengths never get that large, but unbounded lengths need a limit here.
- `hex.EncodeToString` and `strings.Join` are library calls. They are modelled as recursive functions, not loops.
- The difference between a Go nil slice and an empty slice (the `b != nil` test) becomes `None` and `Some`. A successful extraction always gives a non-nil slice.
