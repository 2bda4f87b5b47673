/**
 * `MultiContentDigest`, `MultiDigester` and `DigestingReader`
 * (tugger-debian/src/io.rs): the three digests of the same content, computed
 * in lock-step by a reader that hands its source's results on unchanged.
 */
module MultiDigests {
  import opened Wrappers
  import opened Hex
  import opened Digests
  import opened Polls
  import opened Validating
  import Release

  /** One digest of each kind; the fields are expected, not forced, to carry their own kind. */
  datatype MultiContentDigest = MultiContentDigest(md5: ContentDigest, sha1: ContentDigest, sha256: ContentDigest) {

    /** `matches_digest`: compares `other` with the one field named after `other`'s kind. */
    function MatchesDigest(other: ContentDigest): (b: bool)
      ensures b <==> Field(other.Kind()) == other
      ensures b ==> other == md5 || other == sha1 || other == sha256
    {
      match other
      case Md5(_) => md5 == other
      case Sha1(_) => sha1 == other
      case Sha256(_) => sha256 == other
    }

    /** Each field carries the kind it is named after, as `finish` produces. */
    predicate WellTagged() {
      md5.Md5? && sha1.Sha1? && sha256.Sha256?
    }

    /** The field for a checksum kind. */
    function Field(kind: Release.ChecksumType): (d: ContentDigest)
      ensures kind == Release.Md5 ==> d == md5
      ensures kind == Release.Sha1 ==> d == sha1
      ensures kind == Release.Sha256 ==> d == sha256
    {
      match kind
      case Md5 => md5
      case Sha1 => sha1
      case Sha256 => sha256
    }
  }

  /** The bundle `finish` produces after the digester has consumed `data`. */
  function AllDigests(hash: HashFn, data: seq<byte>): (m: MultiContentDigest)
    ensures m.WellTagged()
    ensures forall kind :: m.Field(kind).Kind() == kind && m.Field(kind).DigestBytes() == hash(kind, data)
  {
    MultiContentDigest(
      Md5(hash(Release.Md5, data)),
      Sha1(hash(Release.Sha1, data)),
      Sha256(hash(Release.Sha256, data)))
  }

  /** Whether `m` matches `other` depends on nothing but the field of `other`'s kind. */
  lemma MatchesOnlyOwnKind(m: MultiContentDigest, m': MultiContentDigest, other: ContentDigest)
    requires m.Field(other.Kind()) == m'.Field(other.Kind())
    ensures m.MatchesDigest(other) <==> m'.MatchesDigest(other)
  {
  }

  /** For a bundle whose fields carry their own kinds, matching is membership. */
  lemma WellTaggedMatchesMembers(m: MultiContentDigest, other: ContentDigest)
    requires m.WellTagged()
    ensures m.MatchesDigest(other) <==> other == m.md5 || other == m.sha1 || other == m.sha256
  {
  }

  /** The digests of some content match a digest exactly when it is the hash of that content of its kind. */
  lemma AllDigestsMatch(hash: HashFn, data: seq<byte>, other: ContentDigest)
    ensures AllDigests(hash, data).MatchesDigest(other) <==> other.DigestBytes() == hash(other.Kind(), data)
  {
    var m := AllDigests(hash, data);
    assert m.Field(other.Kind()) == other <==> other.DigestBytes() == hash(other.Kind(), data) by {
      var f := m.Field(other.Kind());
      assert f.Kind() == other.Kind() && f.DigestBytes() == hash(other.Kind(), data);
      if f.DigestBytes() == other.DigestBytes() {
        match other
        case Md5(_) =>
        case Sha1(_) =>
        case Sha256(_) =>
      }
    }
  }

  /**
   * The validating reader and the multi-digest agree: a clean source of
   * exactly the expected size drains without error through the validator iff
   * the digests of its content match the expected digest.
   */
  lemma ValidatorAgreesWithDigests(hash: HashFn, n: nat, d: ContentDigest, source: seq<Reply>)
    requires Clean(source) && |Payload(source)| == n
    ensures Drain(Validate(hash, Init(n, d), source)) == Complete(Payload(source)) <==>
      AllDigests(hash, Payload(source)).MatchesDigest(d)
  {
    AllDigestsMatch(hash, Payload(source), d);
    InitIsReading(n, d);
    assert [] + Payload(source) == Payload(source);
    ReadingToExactSize(hash, n, d, [], source);
    if hash(d.Kind(), Payload(source)) == d.DigestBytes() {
      DrainClean(source);
    }
  }

  /** `MultiDigester`: three hash states that always have consumed the same bytes. */
  class MultiDigester {
    var md5: Hasher
    var sha1: Hasher
    var sha256: Hasher
    const hash: HashFn
    /** Every byte written so far, in order. */
    ghost var fed: seq<byte>

    ghost predicate Valid()
      reads this
    {
      && md5 == Hasher(Release.Md5, fed)
      && sha1 == Hasher(Release.Sha1, fed)
      && sha256 == Hasher(Release.Sha256, fed)
    }

    /** `default`: three fresh hash states. */
    constructor Default(hash: HashFn)
      ensures Valid() && fed == [] && this.hash == hash
    {
      this.hash := hash;
      md5 := Hasher(Release.Md5, []);
      sha1 := Hasher(Release.Sha1, []);
      sha256 := Hasher(Release.Sha256, []);
      fed := [];
    }

    /** `update`: the same data goes to all three states. */
    method Update(data: seq<byte>)
      requires Valid()
      modifies this
      ensures Valid() && fed == old(fed) + data
    {
      md5 := md5.Update(data);
      sha1 := sha1.Update(data);
      sha256 := sha256.Update(data);
      fed := fed + data;
    }

    /** `finish`: each result tagged with its own kind, all over the same bytes. */
    method Finish() returns (d: MultiContentDigest)
      requires Valid()
      ensures d == AllDigests(hash, fed)
    {
      d := MultiContentDigest(Md5(md5.Finish(hash)), Sha1(sha1.Finish(hash)), Sha256(sha256.Finish(hash)));
    }
  }

  /** `DigestingReader`: hands every pull result on unchanged and digests the chunks it delivers. */
  class DigestingReader {
    const digester: MultiDigester

    ghost predicate Valid()
      reads this, digester
    {
      digester.Valid()
    }

    /** `new`: a default digester. */
    constructor (hash: HashFn)
      ensures fresh(digester) && Valid() && digester.fed == [] && digester.hash == hash
    {
      digester := new MultiDigester.Default(hash);
    }

    /** `poll_read`, given the result of the source's own `poll_read`. */
    method PollRead(p: Poll) returns (r: Poll)
      requires Valid()
      modifies digester
      ensures Valid()
      ensures r == p
      ensures digester.fed == old(digester.fed) + Chunk(p)
    {
      if p.Ready? && p.result.Ok? && |p.result.value| > 0 {
        digester.Update(p.result.value);
      } else {
        assert old(digester.fed) + [] == old(digester.fed);
      }
      r := p;
    }

    /** `finish`: the digests of everything delivered (the source is not modelled). */
    method Finish() returns (d: MultiContentDigest)
      requires Valid()
      ensures d == AllDigests(digester.hash, digester.fed)
    {
      d := digester.Finish();
    }
  }

  /**
   * Reads a digesting reader until a pull returns the end of stream, fails or
   * panics (`drain_reader`); the source's replies are `source`, one per pull.
   * The reader adds no outcome of its own, and has digested exactly the bytes
   * the drain delivered.
   */
  method DrainDigesting(r: DigestingReader, source: seq<Reply>) returns (result: DrainResult)
    requires r.Valid()
    modifies r.digester
    ensures r.Valid()
    ensures result == Drain(source)
    ensures r.digester.fed == old(r.digester.fed) + result.bytes
  {
    var delivered: seq<byte> := [];
    var i := 0;
    while i < |source|
      invariant 0 <= i <= |source| && r.Valid()
      invariant Drain(source) == Prepend(delivered, Drain(source[i..]))
      invariant r.digester.fed == old(r.digester.fed) + delivered
      decreases |source| - i
    {
      assert source[i..][0] == source[i] && source[i..][1..] == source[i + 1..];
      if source[i] == Panic {
        return Panicked(delivered);
      }
      var poll := r.PollRead(source[i].poll);
      match poll {
        case Pending =>
        case Ready(Err(e)) =>
          return Failed(e, delivered);
        case Ready(Ok(chunk)) =>
          if chunk == [] {
            return Complete(delivered);
          }
          PrependPrepend(delivered, chunk, Drain(source[i + 1..]));
          delivered := delivered + chunk;
      }
      i := i + 1;
    }
    assert source[i..] == [];
    return Incomplete(delivered);
  }

  /**
   * Digests a whole stream: a fresh digesting reader, drained, then finished.
   * The digests are those of the bytes delivered; for a clean source, of its
   * whole content.
   */
  method DigestStream(hash: HashFn, source: seq<Reply>) returns (result: DrainResult, digests: MultiContentDigest)
    ensures result == Drain(source)
    ensures digests == AllDigests(hash, result.bytes)
    ensures Clean(source) ==> result == Complete(Payload(source)) && digests == AllDigests(hash, Payload(source))
  {
    var reader := new DigestingReader(hash);
    result := DrainDigesting(reader, source);
    assert [] + result.bytes == result.bytes;
    digests := reader.Finish();
    if Clean(source) {
      DrainClean(source);
    }
  }
}
