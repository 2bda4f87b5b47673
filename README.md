# Content integrity in tugger-debian's I/O layer, modelled in Dafny

This project models the content-integrity layer of `tugger-debian/src/io.rs`.
Debian repository clients use that layer to fetch index files and packages.
It has five parts:

- **`ContentDigest`**: an MD5, SHA-1 or SHA-256 digest.
  - It is parsed from the hex text of a `Release` file.
  - It can be encoded back to hex.
  - It chooses a hasher of its own kind.
- **`Compression`**: the formats a repository file may be stored in.
  - Each format has a filename extension.
  - There is a fixed order in which a client prefers the formats.
  - `read_decompressed` and `read_compressed` wrap a stream in the matching codec.
- **`ContentValidatingReader`**: a stream adapter.
  - It hashes and counts the bytes passing through it.
  - At the pull where the count reaches exactly the expected size, it compares the digest with the expected one.
  - If the count goes past the expected size, it fails.
- **`MultiContentDigest`, `MultiDigester` and `DigestingReader`**: they compute all three digests of the same bytes in lock-step.
- **`DataResolver`**: the operations every resolver gets from `get_path`.
  - Verification wraps the raw stored bytes.
  - Decompression is layered outside verification.

How the model is built:

- **Hash primitives.** The hash algorithms are a parameter, a function from the kind of hash and the bytes to the digest bytes.
  A hash state is the bytes it has consumed.
- **Streams as scripts.** A stream is described by the script of replies its successive pulls return.
  A reply is one of:
  - a chunk, where the empty chunk is end of stream;
  - an I/O error;
  - `Pending`;
  - a panic.
- **Readers.** Each reader is a class whose `PollRead` method takes what its source returned.
  The method updates the reader's fields in place, as `poll_read` does.
  - The validating reader's `PollRead` is proved against a pure step function, `Validating.Step`.
  - The digesting reader's `PollRead` returns its argument unchanged and appends the chunk to the digested bytes.
- **Draining.** `drain_reader` is a read-until-end loop, proved against the function `Polls.Drain`.
- **Whole streams.** The whole-stream lemmas use the fold `Validating.Validate` and the stream semantics `Readers.Replies`.
  They cover the source's edge cases as written:
  - a short stream is never checked;
  - a digest mismatch is reported on one pull only;
  - a chunk after the check panics;
  - an expected size of zero is checked at the first end of stream.

Hex text is modelled as the bytes of the string.
The `hex` crate decodes those bytes as base16, as in section 8 of RFC 4648:

- it reports an odd length first;
- otherwise it reports the first byte that is not a hex digit, with its index;
- encoding is lower case.

`tugger-debian/src/repository/release.rs` is not part of this model.
Only its `ChecksumType` enum is declared, in `release.dfy`.

Two behaviours of the code that the model keeps as written:

- A digest mismatch is reported on one pull only, and the next end of stream is handed on (`Validating.StepAfterTaken`, `Validating.ExactSizeWrongDigest`).
- `from_hex_checksum` performs no digest-length check: any even number of hex digits parses (`Digests.FromHexChecksum`, illustrated by `Digests.NoDigestLengthCheck`).

## Model

| member | source | states |
|---|---|---|
| Hex.HexDecode | tugger-debian/src/io.rs:40 | An odd length is the error exactly when the text length is odd. Decoding succeeds exactly when the length is even and every byte is a hex digit, giving half as many bytes. Otherwise the error names the first non-digit byte and its index. |
| Hex.HexEncode | tugger-debian/src/io.rs:69 | Two lower-case hex digits per byte. |
| Hex.HexRoundTrip | tugger-debian/src/io.rs:68-70 | Decoding the encoding of any bytes gives them back. |
| Hex.EncodeOfDecode | tugger-debian/src/io.rs:40 | Encoding what was decoded gives the text lower-cased, so decoding loses only the letter case. |
| Digests.FromHexChecksum | tugger-debian/src/io.rs:36-47 | Fails exactly when hex decoding fails, with the same error. Succeeds exactly for even-length all-digit text. The result's kind is the requested checksum type and its bytes are exactly the decoded bytes. |
| Digests.NoDigestLengthCheck | tugger-debian/src/io.rs:40-46 | Two concrete instances of the absence of a length check: `"00"` parses as a one-byte SHA-256 digest and the empty text as an empty MD5 digest. The general fact is the last clause of `Digests.FromHexChecksum`. |
| Digests.ContentDigest.DigestHex | tugger-debian/src/io.rs:68-70 | Lower-case hex, twice as long as the digest, that decodes back to `digest_bytes`. |
| Digests.HexChecksumRoundTrip | tugger-debian/src/io.rs:68-70 | For every digest, parsing its hex form as its own kind gives the same digest back. |
| Digests.HexChecksumCanonical | tugger-debian/src/io.rs:36-47 | The hex form of a parsed digest is the parsed text lower-cased. |
| Digests.Tagged | tugger-debian/src/io.rs:42-46 | The variant built for a checksum kind has that kind, and `digest_bytes` returns exactly the bytes it holds. |
| Digests.ContentDigest.DigestBytes | tugger-debian/src/io.rs:59-65 | The bytes returned, together with the digest's kind, rebuild the digest: nothing but the variant and its bytes make up a digest. |
| Digests.NewHasher | tugger-debian/src/io.rs:50-56 | A fresh hash state of the digest's own kind that has consumed nothing. |
| Compressions.Extension | tugger-debian/src/io.rs:94-102 | Empty exactly for `None`. Otherwise a dotted suffix of 3 to 5 characters. |
| Compressions.ExtensionsDistinct | tugger-debian/src/io.rs:94-102 | Two formats have the same extension exactly when they are the same format. |
| Compressions.DefaultPreferredOrder | tugger-debian/src/io.rs:105-107 | Five entries, every format present, no repeats, xz first and the uncompressed file last. |
| Compressions.PreferCompressed | tugger-debian/src/io.rs:105-107 | Every compressed format ranks before `None`, and xz before every other format. |
| Readers.ReadDecompressed | tugger-debian/src/io.rs:111-122 | Never fails. The stream comes back unchanged exactly when the format is `None`. |
| Readers.ReadCompressed | tugger-debian/src/io.rs:125-136 | The stream comes back unchanged exactly when the format is `None`. |
| Readers.DispatchMeaning | tugger-debian/src/io.rs:111-136 | The dispatched reader delivers the source's replies for `None`, and the requested format's codec applied to them otherwise. |
| Readers.DispatchInjective | tugger-debian/src/io.rs:111-136 | Distinct formats give distinct readers in both dispatch functions. |
| Readers.CompressedRoundTrip | tugger-debian/src/io.rs:111-136 | For a clean stream, compressing then decompressing in the same format drains to the original content. This holds always for `None`, and for any other format whose codec round-trips. |
| Polls.Drain | tugger-debian/src/io.rs:139-142 | A drain ends only on what the stream itself returned: success only if the stream reaches end of stream, failure only with an error the stream returned, a panic only if a pull panicked. |
| Polls.DrainDeliversPrefix | tugger-debian/src/io.rs:139-142 | The bytes a drain delivers are a prefix of everything the stream's successful pulls deliver. |
| Polls.DrainAfterProgress | tugger-debian/src/io.rs:139-142 | Draining pulls that make progress delivers their bytes and then continues with the rest. |
| Polls.DrainClean | tugger-debian/src/io.rs:139-142 | Draining a clean stream (chunks and pendings, then end of stream) succeeds with exactly its content. |
| Validating.Init | tugger-debian/src/io.rs:163-171 | The state `new` builds: a live hasher, the given size and digest, and the reader invariant holding with nothing hashed. |
| Validating.Step | tugger-debian/src/io.rs:178-230 | One `poll_read`. Size and digest never change. The reply is the source's own result, a panic, or one of the two integrity errors. A panic changes nothing. A digest mismatch of the reader's own is reported only at the pull that takes the live hasher. Once the hasher is gone the state never changes again. |
| Validating.Validate | tugger-debian/src/io.rs:178-230 | The reader's replies to a whole source, one pull at a time: never more replies than the source gives. |
| Validating.ValidateAnswersEveryPull | tugger-debian/src/io.rs:178-230 | Every pull of the source is answered, until a panic ends the script. |
| Validating.ValidateOnlyAddsErrors | tugger-debian/src/io.rs:185-228 | Each reply is the source's reply at that pull, one of the two integrity errors, or a panic, and a panic is only ever the last reply. |
| Validating.ContentValidatingReader.constructor | tugger-debian/src/io.rs:163-171 | A live hasher of the expected digest's kind, a count of zero, nothing hashed, and the invariant established. |
| Validating.ContentValidatingReader.PollRead | tugger-debian/src/io.rs:178-230 | The new fields and the reply are exactly `Step` of the old fields and the source's result. The invariant is kept. Every chunk handed on is added to the hashed bytes. |
| Validating.StepPassesThrough | tugger-debian/src/io.rs:228 | `Pending` and source errors are returned unchanged and leave the state as it was. |
| Validating.StepOnChunk | tugger-debian/src/io.rs:186-226 | A chunk is hashed and counted, then the count is compared with the expected size. Below: the chunk is returned. Above: extra bytes, with the hasher still live. Equal: the hasher is taken, and the pull fails exactly when the finished digest differs from the expected bytes. |
| Validating.StepAfterTaken | tugger-debian/src/io.rs:187-199 | After the hasher is taken, end of stream is handed on with no second check, and a non-empty chunk panics. |
| Validating.StepKeepsConsistent | tugger-debian/src/io.rs:186-195 | Each non-panicking pull keeps count, hasher and hashed bytes consistent, with the delivered chunk appended. A panicking pull changes nothing. |
| Validating.ShortStreamNotValidated | tugger-debian/src/io.rs:145-149 | A clean stream shorter than expected passes through unchanged and drains without error. |
| Validating.ExactSizeRightDigest | tugger-debian/src/io.rs:197-213 | Exactly the expected size with the right digest: the reader is transparent and the drain succeeds with the content. |
| Validating.ExactSizeWrongDigest | tugger-debian/src/io.rs:197-213 | Exactly the expected size with a wrong digest: only the pull with the last bytes is replaced by a digest mismatch, the end of stream after it passes, and the drain fails after the earlier bytes. |
| Validating.ReadingToExactSize | tugger-debian/src/io.rs:186-213 | From any live state, a clean stream that reaches the expected size passes unchanged when the digest of all the bytes matches. Otherwise its drain fails with a digest mismatch. |
| Validating.ZeroSizeCheckedAtEndOfStream | tugger-debian/src/io.rs:196-213 | With expected size zero, the first end of stream is checked against the digest of no bytes, after any pendings pass. |
| Validating.ChunkCrossingSizeFails | tugger-debian/src/io.rs:214-222 | A chunk that carries the count past the expected size fails with extra bytes, and so does every later successful pull. |
| Validating.ExcessPersists | tugger-debian/src/io.rs:214-222 | Once past the expected size, every successful pull, end of stream included, fails with extra bytes. |
| Validating.ExactThenExtraPanics | tugger-debian/src/io.rs:187-192 | After exactly the expected size with the right digest, a further chunk panics instead of failing with extra bytes. |
| Validating.DrainValidating | tugger-debian/src/io.rs:139-142 | Reading the validating reader until the end gives exactly `Drain` of the validated script, and keeps the invariant. |
| MultiDigests.MultiContentDigest.MatchesDigest | tugger-debian/src/io.rs:242-248 | `matches_digest(other)` holds exactly when the field of `other`'s kind equals `other`, and so only when `other` is one of the three fields. |
| MultiDigests.MatchesOnlyOwnKind | tugger-debian/src/io.rs:242-248 | Two bundles agreeing on the field of `other`'s kind agree on whether they match `other`. |
| MultiDigests.WellTaggedMatchesMembers | tugger-debian/src/io.rs:242-248 | For a bundle whose fields carry their own kinds, matching is being one of the three fields. |
| MultiDigests.AllDigests | tugger-debian/src/io.rs:279-285 | Each field carries its own kind and is that kind's hash of the same bytes. |
| MultiDigests.AllDigestsMatch | tugger-debian/src/io.rs:242-285 | The digests of some bytes match a digest exactly when it is the hash of those bytes of its kind. |
| MultiDigests.ValidatorAgreesWithDigests | tugger-debian/src/io.rs:197-248 | For a clean stream of exactly the expected size, the validating reader drains successfully exactly when the multi-digest of the content matches the expected digest. |
| MultiDigests.MultiDigester.Default | tugger-debian/src/io.rs:258-266 | Three hash states, one of each kind, all having consumed nothing. |
| MultiDigests.MultiDigester.Update | tugger-debian/src/io.rs:270-274 | All three states consume the same data, appended to what they had consumed. |
| MultiDigests.MultiDigester.Finish | tugger-debian/src/io.rs:279-285 | The bundle of the three digests of everything written, each tagged with its kind. |
| MultiDigests.DigestingReader.constructor | tugger-debian/src/io.rs:298-303 | A fresh default digester. |
| MultiDigests.DigestingReader.PollRead | tugger-debian/src/io.rs:317-334 | The source's result is returned unchanged. Exactly its chunk is added to the digested bytes. |
| MultiDigests.DigestingReader.Finish | tugger-debian/src/io.rs:308-310 | The digests of everything the reader delivered. |
| MultiDigests.DrainDigesting | tugger-debian/src/io.rs:139-142 | Reading a digesting reader until the end gives exactly `Drain` of the source, so the reader adds no outcome of its own. The digester has consumed exactly the bytes delivered. |
| MultiDigests.DigestStream | tugger-debian/src/io.rs:296-334 | A new digesting reader, drained and finished, yields the digests of the delivered bytes. For a clean source these are the digests of its whole content. |
| Resolver.DataResolver.GetPathWithDigestVerification | tugger-debian/src/io.rs:364-375 | A lookup error is returned unchanged. Otherwise the raw stream is wrapped in a validating reader with the given size and digest. |
| Resolver.DataResolver.GetPathDecoded | tugger-debian/src/io.rs:378-384 | A lookup error is returned unchanged. Otherwise the raw stream is dispatched on the format. |
| Resolver.DataResolver.GetPathDecodedWithDigestVerification | tugger-debian/src/io.rs:389-401 | A lookup error is returned unchanged. Otherwise the stream is the decompression of a buffered validating reader over the raw stream. |
| Resolver.ErrorsPropagate | tugger-debian/src/io.rs:364-401 | Every derived operation fails exactly when `get_path` fails, and with its error. |
| Resolver.VerifiedThenDecoded | tugger-debian/src/io.rs:389-401 | The decoded, verified stream delivers the decompression of the validator's replies over the raw stream. |
| Resolver.DigestOfStoredBytes | tugger-debian/src/io.rs:386-401 | The decoder is fed the raw stream checked against the digest of the stored bytes. It gets them unchanged when that digest matches, and a script failing with a digest mismatch when it does not. |
| Resolver.UncompressedIsVerification | tugger-debian/src/io.rs:389-401 | With `None`, verified decoding delivers the same replies as plain verification. |
| Resolver.VerifiedDrain | tugger-debian/src/io.rs:364-375 | A clean stored file no longer than expected drains through verification with its whole content exactly when it is shorter than expected or its digests match. |

## Left out

- MD5, SHA-1 and SHA-256 are not computed.
  The hash function is a parameter of every operation that finishes a hash, because the primitives are foreign code.
- The gzip, xz, bzip2 and lzma codecs are arbitrary transformers of pull scripts (`Readers.Env`).
  Only the dispatch and the `None` identity are modelled, and round trips are stated under the hypothesis that a codec round-trips.
- The async machinery (`Pin`, `Context`, wakers, `pin_project`, `async_trait`, `Send`/`Sync`) is not modelled.
  `Pending` is a pull result that leaves state untouched, and the `async` resolver operations are plain functions.
- The source stream inside each reader is not a field.
  Each `PollRead` takes the source's result as its argument, and the caller's buffer is the delivered chunk.
- The re-chunking done by `futures::io::BufReader` is not modelled.
  `Readers.Stream.Buffered` hands on its inner stream's replies unchanged.
- `futures::io::copy` in `drain_reader` is replaced by a plain read-until-end loop (`Validating.DrainValidating`, `MultiDigests.DrainDigesting`).
  The byte count it returns is not modelled.
- Sizes are unbounded naturals.
  The `usize` overflow of `bytes_read += size` cannot happen in the model.
- The formatted error messages are not modelled.
  The two integrity errors are `DigestMismatch` and `ExtraBytes`, and other I/O errors are an opaque code.
- The backend behind `DataResolver::get_path` (HTTP, filesystem) is the abstract function `getPath`.
  Its streams' replies are the abstract `Env.backend`.
- MultiDigests.DigestingReader.Finish: returns only the digests, not the source reader, because the source is not a field of the model.
- The panic on a non-empty chunk after a successful check is modelled as written.
  `Validating.ExactThenExtraPanics` states it; extra bytes are not reported in that case.
