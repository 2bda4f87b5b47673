/**
 * `ContentDigest` (tugger-debian/src/io.rs): a digest tagged with the kind of
 * hash that produced it, and the hash state a reader keeps while content
 * streams through it.
 *
 * MD5, SHA-1 and SHA-256 themselves are not modelled: every operation that
 * finishes a hash takes the hash primitives as a parameter `hash`, a function
 * from the kind and the bytes consumed to the digest bytes.
 */
module Digests {
  import opened Wrappers
  import opened Hex
  import Release

  /** The three hash primitives, left uninterpreted. */
  type HashFn = (Release.ChecksumType, seq<byte>) -> seq<byte>

  datatype ContentDigest = Md5(bytes: seq<byte>) | Sha1(bytes: seq<byte>) | Sha256(bytes: seq<byte>) {

    /** The checksum kind the variant stands for. */
    function Kind(): Release.ChecksumType {
      match this
      case Md5(_) => Release.Md5
      case Sha1(_) => Release.Sha1
      case Sha256(_) => Release.Sha256
    }

    /** `digest_bytes`: the raw digest, whatever the variant. */
    function DigestBytes(): (b: seq<byte>)
      ensures this == (match Kind() case Md5 => Md5(b) case Sha1 => Sha1(b) case Sha256 => Sha256(b))
    {
      match this
      case Md5(x) => x
      case Sha1(x) => x
      case Sha256(x) => x
    }

    /** `digest_hex`: the lower-case hex encoding of the digest bytes. */
    function DigestHex(): (t: seq<byte>)
      ensures |t| == 2 * |DigestBytes()|
      ensures forall i :: 0 <= i < |t| ==> IsLowerHexDigit(t[i])
      ensures HexDecode(t) == Ok(DigestBytes())
    {
      HexRoundTrip(DigestBytes());
      HexEncode(DigestBytes())
    }
  }

  /** The variant for a checksum kind, holding the given bytes. */
  function Tagged(kind: Release.ChecksumType, bytes: seq<byte>): (d: ContentDigest)
    ensures d.Kind() == kind && d.DigestBytes() == bytes
  {
    match kind
    case Md5 => Md5(bytes)
    case Sha1 => Sha1(bytes)
    case Sha256 => Sha256(bytes)
  }

  /**
   * `from_hex_checksum`: the variant is chosen by `kind` and holds exactly the
   * hex-decoded bytes. Its only failure is the hex decoder's; the number of
   * bytes is not compared with the length the kind of hash produces.
   */
  function FromHexChecksum(kind: Release.ChecksumType, text: seq<byte>): (r: Result<ContentDigest, HexError>)
    ensures r.Err? <==> HexDecode(text).Err?
    ensures r.Err? ==> r.error == HexDecode(text).error
    ensures r.Ok? ==> r.value.Kind() == kind && r.value.DigestBytes() == HexDecode(text).value
    ensures r.Ok? <==> |text| % 2 == 0 && forall i :: 0 <= i < |text| ==> IsHexDigit(text[i])
  {
    match HexDecode(text)
    case Err(e) => Err(e)
    case Ok(digest) => Ok(Tagged(kind, digest))
  }

  /** Parsing the hex form of a digest as its own kind gives the digest back. */
  lemma HexChecksumRoundTrip(d: ContentDigest)
    ensures FromHexChecksum(d.Kind(), d.DigestHex()) == Ok(d)
  {
    var r := FromHexChecksum(d.Kind(), d.DigestHex());
    assert r.Ok? && r.value.Kind() == d.Kind() && r.value.DigestBytes() == d.DigestBytes();
  }

  /** Parsing loses only the letter case: the hex form of the parsed digest is the text lower-cased. */
  lemma HexChecksumCanonical(kind: Release.ChecksumType, text: seq<byte>)
    requires FromHexChecksum(kind, text).Ok?
    ensures FromHexChecksum(kind, text).value.DigestHex() == Lowercase(text)
  {
    EncodeOfDecode(text);
  }

  /** No length check: two hex digits make a one-byte SHA-256 digest, and the empty text an empty one. */
  lemma NoDigestLengthCheck()
    ensures FromHexChecksum(Release.Sha256, ['0' as int, '0' as int]) == Ok(Sha256([0]))
    ensures FromHexChecksum(Release.Md5, []) == Ok(Md5([]))
  {
    var text: seq<byte> := ['0' as int, '0' as int];
    assert text[2..] == [];
    assert DigitValue(text[0]) == 0 && DigitValue(text[1]) == 0;
    var r := DecodePairs(text, 0);
    assert r.Ok? && |r.value| == 1;
    assert r.value[0] == 0;
    assert r.value == [0];
    assert HexDecode(text) == Ok([0]);
  }

  /**
   * A hash state: the kind of hash and, standing for the state of the real
   * hasher, the bytes it has consumed.
   */
  datatype Hasher = Hasher(kind: Release.ChecksumType, fed: seq<byte>) {

    function Update(data: seq<byte>): (h: Hasher)
      ensures h.kind == kind && h.fed == fed + data
    {
      Hasher(kind, fed + data)
    }

    /** The digest of everything consumed. */
    function Finish(hash: HashFn): seq<byte> {
      hash(kind, fed)
    }
  }

  /** `new_hasher`: a fresh state of the digest's own kind. */
  function NewHasher(d: ContentDigest): (h: Hasher)
    ensures h.kind == d.Kind() && h.fed == []
  {
    match d
    case Md5(_) => Hasher(Release.Md5, [])
    case Sha1(_) => Hasher(Release.Sha1, [])
    case Sha256(_) => Hasher(Release.Sha256, [])
  }
}
