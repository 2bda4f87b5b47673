/**
 * The reader stacks built by `read_decompressed`, `read_compressed` and the
 * `DataResolver` operations (tugger-debian/src/io.rs), and what they deliver.
 *
 * A `Stream` records how a reader was assembled. `Replies` gives its meaning:
 * the script of replies its pulls return, computed from the scripts of the
 * backends it reads from. The backends, the hash primitives and the codecs
 * are parameters of that meaning (`Env`); the codecs are arbitrary
 * transformers of pull scripts, so nothing here depends on what gzip, xz,
 * bzip2 or lzma actually do.
 */
module Readers {
  import opened Wrappers
  import opened Polls
  import opened Digests
  import opened Validating
  import Compressions

  type Compression = Compressions.Compression

  datatype Stream =
    | Backend(id: nat)
    | ContentValidating(inner: Stream, expectedSize: nat, expectedDigest: ContentDigest)
    | Buffered(inner: Stream)
    | Decoder(format: Compression, inner: Stream)
    | Encoder(format: Compression, inner: Stream)

  /** The world a stream runs in: backend scripts, hash primitives and codecs. */
  datatype Env = Env(
    backend: nat -> seq<Reply>,
    hash: HashFn,
    decoder: (Compression, seq<Reply>) -> seq<Reply>,
    encoder: (Compression, seq<Reply>) -> seq<Reply>)

  /** The replies a stream's successive pulls return. A buffer is transparent (its re-chunking is not modelled). */
  function Replies(env: Env, s: Stream): seq<Reply> {
    match s
    case Backend(id) => env.backend(id)
    case ContentValidating(inner, n, d) => Validate(env.hash, Init(n, d), Replies(env, inner))
    case Buffered(inner) => Replies(env, inner)
    case Decoder(c, inner) => env.decoder(c, Replies(env, inner))
    case Encoder(c, inner) => env.encoder(c, Replies(env, inner))
  }

  /** What decompressing in format `c` makes of a script: nothing for uncompressed data, the decoder otherwise. */
  function Decompress(env: Env, c: Compression, script: seq<Reply>): seq<Reply> {
    if c == Compressions.None then script else env.decoder(c, script)
  }

  function Compress(env: Env, c: Compression, script: seq<Reply>): seq<Reply> {
    if c == Compressions.None then script else env.encoder(c, script)
  }

  /** A stream read through a codec is never the stream itself. */
  lemma WrappingChanges(s: Stream, c: Compression)
    ensures Decoder(c, s) != s && Encoder(c, s) != s
  {
    assert s < Decoder(c, s) && s < Encoder(c, s);
  }

  /**
   * `read_decompressed`: never fails; uncompressed data is handed back as it
   * is, any other format is read through that format's decoder.
   */
  function ReadDecompressed(s: Stream, c: Compression): (r: Result<Stream, Error>)
    ensures r.Ok?
    ensures r.value == s <==> c == Compressions.None
  {
    WrappingChanges(s, c);
    Ok(match c
      case None => s
      case Gzip => Decoder(Compressions.Gzip, s)
      case Xz => Decoder(Compressions.Xz, s)
      case Bzip2 => Decoder(Compressions.Bzip2, s)
      case Lzma => Decoder(Compressions.Lzma, s))
  }

  /** `read_compressed`: uncompressed data is handed back as it is, any other format goes through its encoder. */
  function ReadCompressed(s: Stream, c: Compression): (r: Stream)
    ensures r == s <==> c == Compressions.None
  {
    WrappingChanges(s, c);
    match c
    case None => s
    case Gzip => Encoder(Compressions.Gzip, s)
    case Xz => Encoder(Compressions.Xz, s)
    case Bzip2 => Encoder(Compressions.Bzip2, s)
    case Lzma => Encoder(Compressions.Lzma, s)
  }

  /** Each dispatch reads through the codec of the requested format, and of no other. */
  lemma DispatchMeaning(env: Env, s: Stream, c: Compression)
    ensures Replies(env, ReadDecompressed(s, c).value) == Decompress(env, c, Replies(env, s))
    ensures Replies(env, ReadCompressed(s, c)) == Compress(env, c, Replies(env, s))
  {
  }

  /** Different formats give different readers: the dispatch covers every variant and confuses none. */
  lemma DispatchInjective(s: Stream, a: Compression, b: Compression)
    ensures ReadDecompressed(s, a) == ReadDecompressed(s, b) ==> a == b
    ensures ReadCompressed(s, a) == ReadCompressed(s, b) ==> a == b
  {
  }

  /** A codec of format `c` whose decoder gives back the content of any clean script its encoder was given. */
  ghost predicate RoundTrips(env: Env, c: Compression) {
    forall script :: Clean(script) ==> Drain(env.decoder(c, env.encoder(c, script))) == Complete(Payload(script))
  }

  /**
   * Compressing and then decompressing in the same format gives back the
   * content of a clean stream: unconditionally when the format is `None`,
   * and otherwise whenever that format's codec round-trips.
   */
  lemma CompressedRoundTrip(env: Env, s: Stream, c: Compression)
    requires Clean(Replies(env, s))
    requires c == Compressions.None || RoundTrips(env, c)
    ensures Drain(Replies(env, ReadDecompressed(ReadCompressed(s, c), c).value)) == Complete(Payload(Replies(env, s)))
  {
    DispatchMeaning(env, s, c);
    DispatchMeaning(env, ReadCompressed(s, c), c);
    if c == Compressions.None {
      DrainClean(Replies(env, s));
    }
  }
}
