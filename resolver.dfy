/**
 * `DataResolver` (tugger-debian/src/io.rs): the operations every resolver
 * gets from its one required operation, `get_path`. The resolver is the
 * function `getPath` from a path to the raw stream stored there, or the error
 * of looking it up.
 */
module Resolver {
  import opened Wrappers
  import opened Polls
  import opened Digests
  import opened Validating
  import opened MultiDigests
  import opened Readers
  import Compressions

  datatype DataResolver = DataResolver(getPath: string -> Result<Stream, Error>) {

    /**
     * `get_path_with_digest_verification`: the raw stream, read through a
     * validating reader; a lookup error is returned unchanged.
     */
    function GetPathWithDigestVerification(path: string, expectedSize: nat, expectedDigest: ContentDigest): (r: Result<Stream, Error>)
      ensures getPath(path).Err? ==> r == Err(getPath(path).error)
      ensures getPath(path).Ok? ==> r == Ok(ContentValidating(getPath(path).value, expectedSize, expectedDigest))
    {
      match getPath(path)
      case Err(e) => Err(e)
      case Ok(raw) => Ok(ContentValidating(raw, expectedSize, expectedDigest))
    }

    /** `get_path_decoded`: the raw stream, decompressed; a lookup error is returned unchanged. */
    function GetPathDecoded(path: string, c: Compression): (r: Result<Stream, Error>)
      ensures getPath(path).Err? ==> r == Err(getPath(path).error)
      ensures getPath(path).Ok? ==> r == ReadDecompressed(getPath(path).value, c)
    {
      match getPath(path)
      case Err(e) => Err(e)
      case Ok(raw) => ReadDecompressed(raw, c)
    }

    /**
     * `get_path_decoded_with_digest_verification`: the validating reader over
     * the raw stream, buffered, then decompressed; so the digest is that of
     * the stored bytes, before decompression.
     */
    function GetPathDecodedWithDigestVerification(path: string, c: Compression,
                                                  expectedSize: nat, expectedDigest: ContentDigest): (r: Result<Stream, Error>)
      ensures getPath(path).Err? ==> r == Err(getPath(path).error)
      ensures getPath(path).Ok? ==>
        r == ReadDecompressed(Buffered(ContentValidating(getPath(path).value, expectedSize, expectedDigest)), c)
    {
      match GetPathWithDigestVerification(path, expectedSize, expectedDigest)
      case Err(e) => Err(e)
      case Ok(reader) => ReadDecompressed(Buffered(reader), c)
    }
  }

  /** Every derived operation fails exactly when the lookup does, and with the lookup's own error. */
  lemma ErrorsPropagate(res: DataResolver, path: string, c: Compression, n: nat, d: ContentDigest)
    ensures res.GetPathWithDigestVerification(path, n, d).Err? <==> res.getPath(path).Err?
    ensures res.GetPathDecoded(path, c).Err? <==> res.getPath(path).Err?
    ensures res.GetPathDecodedWithDigestVerification(path, c, n, d).Err? <==> res.getPath(path).Err?
    ensures res.getPath(path).Err? ==>
      && res.GetPathWithDigestVerification(path, n, d).error == res.getPath(path).error
      && res.GetPathDecoded(path, c).error == res.getPath(path).error
      && res.GetPathDecodedWithDigestVerification(path, c, n, d).error == res.getPath(path).error
  {
  }

  /**
   * The order of the layers: what the decoded, verified stream delivers is
   * the decompression of what the validator makes of the raw replies.
   */
  lemma VerifiedThenDecoded(env: Env, res: DataResolver, path: string, c: Compression, n: nat, d: ContentDigest)
    requires res.getPath(path).Ok?
    ensures Replies(env, res.GetPathDecodedWithDigestVerification(path, c, n, d).value) ==
      Decompress(env, c, Validate(env.hash, Init(n, d), Replies(env, res.getPath(path).value)))
  {
    DispatchMeaning(env, Buffered(ContentValidating(res.getPath(path).value, n, d)), c);
  }

  /**
   * The decoder only ever sees the stored bytes, checked against the digest
   * of the stored (compressed) content: for a clean raw stream of the
   * expected size it is handed the raw replies unchanged when that digest
   * matches, and otherwise replies whose drain fails with `DigestMismatch`.
   */
  lemma DigestOfStoredBytes(env: Env, res: DataResolver, path: string, c: Compression, n: nat, d: ContentDigest)
    requires res.getPath(path).Ok?
    requires Clean(Replies(env, res.getPath(path).value))
    requires |Payload(Replies(env, res.getPath(path).value))| == n
    ensures var raw := Replies(env, res.getPath(path).value);
      var checked := Validate(env.hash, Init(n, d), raw);
      && Replies(env, res.GetPathDecodedWithDigestVerification(path, c, n, d).value) == Decompress(env, c, checked)
      && (AllDigests(env.hash, Payload(raw)).MatchesDigest(d) ==> checked == raw)
      && (!AllDigests(env.hash, Payload(raw)).MatchesDigest(d) ==>
            Drain(checked).Failed? && Drain(checked).error == DigestMismatch)
  {
    var raw := Replies(env, res.getPath(path).value);
    VerifiedThenDecoded(env, res, path, c, n, d);
    AllDigestsMatch(env.hash, Payload(raw), d);
    InitIsReading(n, d);
    assert [] + Payload(raw) == Payload(raw);
    ReadingToExactSize(env.hash, n, d, [], raw);
  }

  /** Without compression, verified decoding is plain verification. */
  lemma UncompressedIsVerification(env: Env, res: DataResolver, path: string, n: nat, d: ContentDigest)
    requires res.getPath(path).Ok?
    ensures Replies(env, res.GetPathDecodedWithDigestVerification(path, Compressions.None, n, d).value) ==
      Replies(env, res.GetPathWithDigestVerification(path, n, d).value)
  {
    VerifiedThenDecoded(env, res, path, Compressions.None, n, d);
  }

  /**
   * Reading a stored file uncompressed with verification and draining it
   * succeeds, delivering the whole content, exactly when the content has the
   * expected size and its digest matches; a short stream passes unchecked.
   */
  lemma VerifiedDrain(env: Env, res: DataResolver, path: string, n: nat, d: ContentDigest)
    requires res.getPath(path).Ok?
    requires Clean(Replies(env, res.getPath(path).value))
    requires |Payload(Replies(env, res.getPath(path).value))| <= n
    ensures var raw := Replies(env, res.getPath(path).value);
      var verified := Replies(env, res.GetPathWithDigestVerification(path, n, d).value);
      (Drain(verified) == Complete(Payload(raw)) <==>
        |Payload(raw)| < n || AllDigests(env.hash, Payload(raw)).MatchesDigest(d))
  {
    var raw := Replies(env, res.getPath(path).value);
    if |Payload(raw)| < n {
      ShortStreamNotValidated(env.hash, n, d, raw);
    } else {
      ValidatorAgreesWithDigests(env.hash, n, d, raw);
    }
  }
}
