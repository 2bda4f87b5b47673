/**
 * `ContentValidatingReader` (tugger-debian/src/io.rs): a decorator that
 * hashes the bytes passing through it and checks size and digest at the one
 * pull where the running count reaches exactly the expected size.
 *
 * `Step` is the pure meaning of one `poll_read`; the class below performs it
 * in place and is proved against it. `Validate` runs `Step` over the script
 * of the source, which is what the whole-stream lemmas talk about.
 */
module Validating {
  import opened Wrappers
  import opened Hex
  import opened Digests
  import opened Polls

  /** The fields of the reader, other than its source. */
  datatype ValidatorState = ValidatorState(
    hasher: Option<Hasher>,
    expectedSize: nat,
    expectedDigest: ContentDigest,
    bytesRead: nat)

  /** `new`: a live hasher of the expected digest's kind, nothing read yet. */
  function Init(expectedSize: nat, expectedDigest: ContentDigest): (s: ValidatorState)
    ensures Consistent(s, []) && s.hasher.Some?
    ensures s.expectedSize == expectedSize && s.expectedDigest == expectedDigest
  {
    ValidatorState(Some(NewHasher(expectedDigest)), expectedSize, expectedDigest, 0)
  }

  /** The state while the hasher is live and has consumed `fed`. */
  function Reading(expectedSize: nat, expectedDigest: ContentDigest, fed: seq<byte>): ValidatorState {
    ValidatorState(Some(Hasher(expectedDigest.Kind(), fed)), expectedSize, expectedDigest, |fed|)
  }

  /** The state once the hasher has been taken at the expected size. */
  function Taken(expectedSize: nat, expectedDigest: ContentDigest): ValidatorState {
    ValidatorState(None, expectedSize, expectedDigest, expectedSize)
  }

  /**
   * The reader's invariant, with `hashed` the concatenation of every chunk it
   * was handed: the count is the length of `hashed`; a live hasher is of the
   * expected kind and has consumed exactly `hashed`; the hasher is gone only
   * once the count has reached the expected size.
   */
  predicate Consistent(s: ValidatorState, hashed: seq<byte>) {
    && |hashed| == s.bytesRead
    && (s.hasher.Some? ==> s.hasher.value == Hasher(s.expectedDigest.Kind(), hashed))
    && (s.hasher.None? ==> s.bytesRead == s.expectedSize)
  }

  /**
   * One `poll_read`, given what the source's `poll_read` returned: the new
   * state and the reply to the caller.
   */
  function Step(hash: HashFn, s: ValidatorState, p: Poll): (r: (ValidatorState, Reply))
    ensures r.0.expectedSize == s.expectedSize && r.0.expectedDigest == s.expectedDigest
    ensures r.1 == Returned(p) || r.1 == Panic || r.1 == Failure(DigestMismatch) || r.1 == Failure(ExtraBytes)
    ensures r.1 == Panic ==> r.0 == s
    ensures r.1 == Failure(DigestMismatch) && r.1 != Returned(p) ==> s.hasher.Some? && r.0.hasher.None?
    ensures s.hasher.None? ==> r.0 == s
  {
    match p
    case Pending => (s, Returned(p))
    case Ready(Err(_)) => (s, Returned(p))
    case Ready(Ok(chunk)) =>
      if |chunk| > 0 && s.hasher.None? then
        (s, Panic)  // "hasher destroyed prematurely"
      else
        var t := if |chunk| > 0
          then s.(hasher := Some(s.hasher.value.Update(chunk)), bytesRead := s.bytesRead + |chunk|)
          else s;
        if t.bytesRead == t.expectedSize then
          if t.hasher.Some? then
            var got := t.hasher.value.Finish(hash);
            var u := t.(hasher := None);
            if got != t.expectedDigest.DigestBytes() then (u, Failure(DigestMismatch)) else (u, Returned(p))
          else (t, Returned(p))
        else if t.bytesRead > t.expectedSize then (t, Failure(ExtraBytes))
        else (t, Returned(p))
  }

  /**
   * The reader's replies to successive pulls, given its source's replies.
   * A panic, the source's or its own, ends the script.
   */
  function Validate(hash: HashFn, s: ValidatorState, source: seq<Reply>): (v: seq<Reply>)
    ensures |v| <= |source|
    decreases |source|
  {
    if source == [] then []
    else
      match source[0]
      case Panic => [Panic]
      case Returned(p) =>
        var (t, reply) := Step(hash, s, p);
        if reply == Panic then [Panic] else [reply] + Validate(hash, t, source[1..])
  }

  /** Every pull of the source is answered, until a panic ends the script. */
  lemma {:induction false} ValidateAnswersEveryPull(hash: HashFn, s: ValidatorState, source: seq<Reply>)
    ensures var v := Validate(hash, s, source);
      |v| == |source| || (v != [] && v[|v| - 1] == Panic)
    decreases |source|
  {
    if source != [] && source[0].Returned? {
      var (t, reply) := Step(hash, s, source[0].poll);
      if reply != Panic {
        ValidateAnswersEveryPull(hash, t, source[1..]);
        ValidateCons(hash, s, source[0], source[1..]);
        assert source == [source[0]] + source[1..];
      }
    }
  }

  /**
   * The reader never invents data: each reply is the source's own reply at
   * that pull, one of the two integrity errors, or a panic, and a panic can
   * only be the last reply.
   */
  lemma {:induction false} ValidateOnlyAddsErrors(hash: HashFn, s: ValidatorState, source: seq<Reply>)
    ensures var v := Validate(hash, s, source);
      && (forall i :: 0 <= i < |v| ==>
            v[i] == source[i] || v[i] == Panic || v[i] == Failure(DigestMismatch) || v[i] == Failure(ExtraBytes))
      && (forall i :: 0 <= i < |v| - 1 ==> v[i] != Panic)
    decreases |source|
  {
    if source != [] && source[0].Returned? {
      var (t, reply) := Step(hash, s, source[0].poll);
      if reply != Panic {
        var rest := Validate(hash, t, source[1..]);
        ValidateOnlyAddsErrors(hash, t, source[1..]);
        ValidateCons(hash, s, source[0], source[1..]);
        assert source == [source[0]] + source[1..];
        var v := [reply] + rest;
        forall i | 1 <= i < |v| ensures v[i] == rest[i - 1] && source[i] == source[1..][i - 1] {
        }
      }
    }
  }

  // ---------------------------------------------------------------------------
  // One pull

  /** `Pending` and source errors are handed back unchanged and change nothing. */
  lemma StepPassesThrough(hash: HashFn, s: ValidatorState, p: Poll)
    requires p.Pending? || p.result.Err?
    ensures Step(hash, s, p) == (s, Returned(p))
  {
  }

  /**
   * A chunk while the hasher is live is hashed and counted; then the count is
   * compared with the expected size: below, the chunk is handed on; above, the
   * pull fails with `ExtraBytes` and the hasher stays live; equal, the hasher
   * is taken and the pull fails exactly when the digest differs. The
   * comparison happens on the empty chunk (end of stream) too.
   */
  lemma StepOnChunk(hash: HashFn, s: ValidatorState, chunk: seq<byte>)
    requires s.hasher.Some?
    ensures var (t, reply) := Step(hash, s, Ready(Ok(chunk)));
      var h := s.hasher.value.Update(chunk);
      var count := s.bytesRead + |chunk|;
      && t.bytesRead == count
      && t.expectedSize == s.expectedSize && t.expectedDigest == s.expectedDigest
      && (count < s.expectedSize ==> t.hasher == Some(h) && reply == Data(chunk))
      && (count > s.expectedSize ==> t.hasher == Some(h) && reply == Failure(ExtraBytes))
      && (count == s.expectedSize ==>
            && t.hasher == None
            && (reply == Failure(DigestMismatch) <==> hash(h.kind, h.fed) != s.expectedDigest.DigestBytes())
            && (reply != Failure(DigestMismatch) ==> reply == Data(chunk)))
  {
    assert s.hasher.value.fed + [] == s.hasher.value.fed;
  }

  /**
   * Once the hasher has been taken, end of stream is handed on with no second
   * check, so a digest mismatch is reported once and not again; a further
   * non-empty chunk panics.
   */
  lemma StepAfterTaken(hash: HashFn, s: ValidatorState, chunk: seq<byte>)
    requires s.hasher.None? && s.bytesRead == s.expectedSize
    ensures chunk == [] ==> Step(hash, s, Ready(Ok(chunk))) == (s, EndOfStream)
    ensures chunk != [] ==> Step(hash, s, Ready(Ok(chunk))) == (s, Panic)
  {
  }

  /** Every pull that does not panic keeps the invariant, with the chunk it was handed added to `hashed`. */
  lemma StepKeepsConsistent(hash: HashFn, s: ValidatorState, hashed: seq<byte>, p: Poll)
    requires Consistent(s, hashed)
    ensures var (t, reply) := Step(hash, s, p);
      (reply == Panic ==> t == s) &&
      (reply != Panic ==> Consistent(t, hashed + Chunk(p)))
  {
    if p.Ready? && p.result.Ok? && p.result.value == [] {
      assert hashed + [] == hashed;
    }
  }

  lemma InitIsReading(n: nat, d: ContentDigest)
    ensures Init(n, d) == Reading(n, d, []) && Consistent(Init(n, d), [])
  {
  }

  // ---------------------------------------------------------------------------
  // Whole streams

  /** `Pending` pulls pass through in any state and leave it as it was. */
  lemma {:induction false} PendingsPassThrough(hash: HashFn, s: ValidatorState, idle: seq<Reply>, rest: seq<Reply>)
    requires forall i :: 0 <= i < |idle| ==> idle[i] == Returned(Pending)
    ensures Validate(hash, s, idle + rest) == idle + Validate(hash, s, rest)
    decreases |idle|
  {
    if idle == [] {
      assert idle + rest == rest;
    } else {
      assert (idle + rest)[0] == Returned(Pending);
      assert (idle + rest)[1..] == idle[1..] + rest;
      PendingsPassThrough(hash, s, idle[1..], rest);
      assert idle == [idle[0]] + idle[1..];
    }
  }

  /** After the hasher has been taken, pendings and the end of stream pass through. */
  lemma TakenTail(hash: HashFn, n: nat, d: ContentDigest, tail: seq<Reply>)
    requires Tail(tail)
    ensures Validate(hash, Taken(n, d), tail) == tail
  {
    var k := |tail| - 1;
    assert tail == tail[..k] + [EndOfStream];
    PendingsPassThrough(hash, Taken(n, d), tail[..k], [EndOfStream]);
  }

  /** Unfolds `Validate` over a first pull that does not panic. */
  lemma ValidateCons(hash: HashFn, s: ValidatorState, r: Reply, rest: seq<Reply>)
    requires r.Returned? && Step(hash, s, r.poll).1 != Panic
    ensures Validate(hash, s, [r] + rest) == [Step(hash, s, r.poll).1] + Validate(hash, Step(hash, s, r.poll).0, rest)
  {
    assert ([r] + rest)[0] == r && ([r] + rest)[1..] == rest;
  }

  /** A pull that makes progress without reaching the expected size is handed on and its chunk hashed. */
  lemma StepBelowSize(hash: HashFn, n: nat, d: ContentDigest, fed: seq<byte>, r: Reply)
    requires IsProgress(r)
    requires Chunk(r.poll) == [] || |fed| + |Chunk(r.poll)| < n
    ensures Step(hash, Reading(n, d, fed), r.poll) == (Reading(n, d, fed + Chunk(r.poll)), r)
  {
    assert fed + [] == fed;
  }

  /**
   * While the count stays below the expected size (or nothing is delivered),
   * a prefix that only makes progress passes through unchanged and its
   * payload is added to what the hasher has consumed.
   */
  lemma {:induction false} BelowSizePassesThrough(hash: HashFn, n: nat, d: ContentDigest, fed: seq<byte>, pre: seq<Reply>, rest: seq<Reply>)
    requires Progress(pre)
    requires Payload(pre) == [] || |fed| + |Payload(pre)| < n
    ensures Validate(hash, Reading(n, d, fed), pre + rest) == pre + Validate(hash, Reading(n, d, fed + Payload(pre)), rest)
    decreases |pre|
  {
    if pre == [] {
      assert pre + rest == rest;
      assert fed + [] == fed;
    } else {
      var r := pre[0];
      var c := Chunk(r.poll);
      assert IsProgress(r);
      assert Payload(pre) == c + Payload(pre[1..]);
      StepBelowSize(hash, n, d, fed, r);
      assert pre + rest == [r] + (pre[1..] + rest);
      ValidateCons(hash, Reading(n, d, fed), r, pre[1..] + rest);
      BelowSizePassesThrough(hash, n, d, fed + c, pre[1..], rest);
      assert fed + c + Payload(pre[1..]) == fed + Payload(pre);
      assert pre == [r] + pre[1..];
    }
  }

  /**
   * Once the count exceeds the expected size the hasher stays live, so every
   * later successful pull, the end of stream included, fails with `ExtraBytes`.
   */
  function Excess(source: seq<Reply>): seq<Reply>
    decreases |source|
  {
    if source == [] then []
    else
      match source[0]
      case Panic => [Panic]
      case Returned(Ready(Ok(_))) => [Failure(ExtraBytes)] + Excess(source[1..])
      case Returned(p) => [source[0]] + Excess(source[1..])
  }

  lemma {:induction false} ExcessPersists(hash: HashFn, n: nat, d: ContentDigest, fed: seq<byte>, source: seq<Reply>)
    requires |fed| > n
    ensures Validate(hash, Reading(n, d, fed), source) == Excess(source)
    decreases |source|
  {
    if source != [] && source[0].Returned? {
      var p := source[0].poll;
      var c := Chunk(p);
      if p.Ready? && p.result.Ok? {
        assert Step(hash, Reading(n, d, fed), p) == (Reading(n, d, fed + c), Failure(ExtraBytes)) by {
          assert fed + [] == fed;
        }
      }
      ExcessPersists(hash, n, d, fed + c, source[1..]);
    }
  }

  /**
   * A clean source whose payload brings the count to exactly the expected
   * size: with the right digest the reader is transparent; with a wrong one
   * the drain fails with `DigestMismatch`.
   */
  lemma {:induction false} ReadingToExactSize(hash: HashFn, n: nat, d: ContentDigest, fed: seq<byte>, source: seq<Reply>)
    requires Clean(source)
    requires |fed| + |Payload(source)| == n
    ensures hash(d.Kind(), fed + Payload(source)) == d.DigestBytes() ==>
      Validate(hash, Reading(n, d, fed), source) == source
    ensures hash(d.Kind(), fed + Payload(source)) != d.DigestBytes() ==>
      Drain(Validate(hash, Reading(n, d, fed), source)).Failed? &&
      Drain(Validate(hash, Reading(n, d, fed), source)).error == DigestMismatch
    decreases |source|
  {
    var s := Reading(n, d, fed);
    var r := source[0];
    var rest := source[1..];
    var ok := hash(d.Kind(), fed + Payload(source)) == d.DigestBytes();
    assert source == [r] + rest;
    if |source| == 1 {
      // only the end of stream is left: the count is already the expected size
      assert r == EndOfStream && rest == [];
      assert Payload(source) == [] && fed + [] == fed;
      var reply := if ok then EndOfStream else Failure(DigestMismatch);
      assert Step(hash, s, r.poll) == (Taken(n, d), reply);
      ValidateCons(hash, s, r, rest);
      assert Validate(hash, s, source) == [reply];
    } else {
      var c := Chunk(r.poll);
      assert IsProgress(r) by { assert r == source[..|source| - 1][0]; }
      assert Clean(rest) by {
        assert rest[..|rest| - 1] == source[..|source| - 1][1..];
      }
      assert Payload(source) == c + Payload(rest);
      assert fed + Payload(source) == (fed + c) + Payload(rest);
      if c == [] || |fed| + |c| < n {
        StepBelowSize(hash, n, d, fed, r);
        ValidateCons(hash, s, r, rest);
        ReadingToExactSize(hash, n, d, fed + c, rest);
        var tail := Validate(hash, Reading(n, d, fed + c), rest);
        assert ([r] + tail)[0] == r && ([r] + tail)[1..] == tail;
      } else {
        assert Payload(rest) == [];
        CleanWithoutPayloadIsTail(rest);
        TakenTail(hash, n, d, rest);
        assert fed + Payload(source) == fed + c;
        var reply := if ok then r else Failure(DigestMismatch);
        assert Step(hash, s, r.poll) == (Taken(n, d), reply);
        ValidateCons(hash, s, r, rest);
        assert ([reply] + rest)[0] == reply;
      }
    }
  }

  /** A clean source that stops short of the expected size passes through untouched: no comparison, no error. */
  lemma ShortStreamNotValidated(hash: HashFn, n: nat, d: ContentDigest, source: seq<Reply>)
    requires Clean(source)
    requires |Payload(source)| < n
    ensures Validate(hash, Init(n, d), source) == source
    ensures Drain(Validate(hash, Init(n, d), source)) == Complete(Payload(source))
  {
    var k := |source| - 1;
    var pre := source[..k];
    assert source == pre + [EndOfStream];
    PayloadAppend(pre, [EndOfStream]);
    assert Payload([EndOfStream]) == [];
    assert Payload(source) == Payload(pre);
    InitIsReading(n, d);
    BelowSizePassesThrough(hash, n, d, [], pre, [EndOfStream]);
    assert [] + Payload(pre) == Payload(pre);
    EndOfStreamBelowSize(hash, n, d, Payload(pre));
    DrainClean(source);
  }

  lemma EndOfStreamBelowSize(hash: HashFn, n: nat, d: ContentDigest, fed: seq<byte>)
    requires |fed| < n
    ensures Validate(hash, Reading(n, d, fed), [EndOfStream]) == [EndOfStream]
  {
    var s := Reading(n, d, fed);
    assert Step(hash, s, Ready(Ok([]))) == (s, EndOfStream);
    ValidateCons(hash, s, EndOfStream, []);
    assert [EndOfStream] + [] == [EndOfStream];
  }

  /** Exactly the expected size with the right digest: the reader is transparent and the drain succeeds. */
  lemma ExactSizeRightDigest(hash: HashFn, n: nat, d: ContentDigest, source: seq<Reply>)
    requires Clean(source)
    requires |Payload(source)| == n
    requires hash(d.Kind(), Payload(source)) == d.DigestBytes()
    ensures Validate(hash, Init(n, d), source) == source
    ensures Drain(Validate(hash, Init(n, d), source)) == Complete(Payload(source))
  {
    assert [] + Payload(source) == Payload(source);
    ReadingToExactSize(hash, n, d, [], source);
    DrainClean(source);
  }

  /**
   * Exactly the expected size with a wrong digest: every pull passes through
   * except the one delivering the last byte, which fails with
   * `DigestMismatch`; the end of stream after it is handed on (the error is
   * not sticky).
   */
  lemma ExactSizeWrongDigest(hash: HashFn, n: nat, d: ContentDigest,
                             pre: seq<Reply>, last: seq<byte>, post: seq<Reply>)
    requires Progress(pre) && |last| > 0 && Tail(post)
    requires |Payload(pre)| + |last| == n
    requires hash(d.Kind(), Payload(pre) + last) != d.DigestBytes()
    ensures Validate(hash, Init(n, d), pre + [Data(last)] + post) == pre + [Failure(DigestMismatch)] + post
    ensures Drain(Validate(hash, Init(n, d), pre + [Data(last)] + post)) == Failed(DigestMismatch, Payload(pre))
  {
    var rest := [Data(last)] + post;
    assert pre + [Data(last)] + post == pre + rest;
    BelowSizePassesThrough(hash, n, d, [], pre, rest);
    assert [] + Payload(pre) == Payload(pre);
    assert Step(hash, Reading(n, d, Payload(pre)), Ready(Ok(last))) == (Taken(n, d), Failure(DigestMismatch));
    assert rest[1..] == post;
    TakenTail(hash, n, d, post);
    assert pre + [Failure(DigestMismatch)] + post == pre + ([Failure(DigestMismatch)] + post);
    DrainAfterProgress(pre, [Failure(DigestMismatch)] + post);
  }

  /**
   * An expected size of zero is checked at the first end of stream: the
   * reply is the end of stream if the digest of no bytes is the expected one,
   * and `DigestMismatch` otherwise.
   */
  lemma ZeroSizeCheckedAtEndOfStream(hash: HashFn, d: ContentDigest, idle: seq<Reply>)
    requires forall i :: 0 <= i < |idle| ==> idle[i] == Returned(Pending)
    ensures Validate(hash, Init(0, d), idle + [EndOfStream]) ==
      idle + [if hash(d.Kind(), []) == d.DigestBytes() then EndOfStream else Failure(DigestMismatch)]
  {
    InitIsReading(0, d);
    PendingsPassThrough(hash, Reading(0, d, []), idle, [EndOfStream]);
    EndOfStreamAtZero(hash, d);
  }

  lemma EndOfStreamAtZero(hash: HashFn, d: ContentDigest)
    ensures Validate(hash, Reading(0, d, []), [EndOfStream]) ==
      [if hash(d.Kind(), []) == d.DigestBytes() then EndOfStream else Failure(DigestMismatch)]
  {
    var s := Reading(0, d, []);
    var last := if hash(d.Kind(), []) == d.DigestBytes() then EndOfStream else Failure(DigestMismatch);
    assert Step(hash, s, Ready(Ok([]))) == (Taken(0, d), last);
    ValidateCons(hash, s, EndOfStream, []);
    assert [EndOfStream] + [] == [EndOfStream];
  }

  /**
   * A chunk that carries the count from below the expected size to above it
   * fails with `ExtraBytes`; every later successful pull fails the same way.
   */
  lemma ChunkCrossingSizeFails(hash: HashFn, n: nat, d: ContentDigest,
                               pre: seq<Reply>, chunk: seq<byte>, post: seq<Reply>)
    requires Progress(pre)
    requires Payload(pre) == [] || |Payload(pre)| < n
    requires |Payload(pre)| + |chunk| > n
    ensures Validate(hash, Init(n, d), pre + [Data(chunk)] + post) == pre + [Failure(ExtraBytes)] + Excess(post)
    ensures Drain(Validate(hash, Init(n, d), pre + [Data(chunk)] + post)) == Failed(ExtraBytes, Payload(pre))
  {
    ChunkCrossingReplies(hash, n, d, pre, chunk, post);
    var failing := [Failure(ExtraBytes)] + Excess(post);
    assert pre + [Failure(ExtraBytes)] + Excess(post) == pre + failing;
    DrainAfterProgress(pre, failing);
    assert failing[0] == Failure(ExtraBytes);
    assert Drain(failing) == Failed(ExtraBytes, []);
    assert Payload(pre) + [] == Payload(pre);
  }

  lemma ChunkCrossingReplies(hash: HashFn, n: nat, d: ContentDigest,
                             pre: seq<Reply>, chunk: seq<byte>, post: seq<Reply>)
    requires Progress(pre)
    requires Payload(pre) == [] || |Payload(pre)| < n
    requires |Payload(pre)| + |chunk| > n
    ensures Validate(hash, Init(n, d), pre + [Data(chunk)] + post) == pre + [Failure(ExtraBytes)] + Excess(post)
  {
    var rest := [Data(chunk)] + post;
    assert pre + [Data(chunk)] + post == pre + rest;
    InitIsReading(n, d);
    BelowSizePassesThrough(hash, n, d, [], pre, rest);
    assert [] + Payload(pre) == Payload(pre);
    var fed := Payload(pre) + chunk;
    assert Step(hash, Reading(n, d, Payload(pre)), Ready(Ok(chunk))) == (Reading(n, d, fed), Failure(ExtraBytes));
    ValidateCons(hash, Reading(n, d, Payload(pre)), Data(chunk), post);
    ExcessPersists(hash, n, d, fed, post);
    assert pre + [Failure(ExtraBytes)] + Excess(post) == pre + ([Failure(ExtraBytes)] + Excess(post));
  }

  /**
   * A source that reaches the expected size exactly, with the right digest,
   * and then delivers one more chunk: the hasher is already gone, so that pull
   * panics ("hasher destroyed prematurely") instead of failing with
   * `ExtraBytes`.
   */
  lemma ExactThenExtraPanics(hash: HashFn, n: nat, d: ContentDigest,
                             pre: seq<Reply>, last: seq<byte>, idle: seq<Reply>, extra: seq<byte>, post: seq<Reply>)
    requires Progress(pre) && |last| > 0 && |extra| > 0
    requires forall i :: 0 <= i < |idle| ==> idle[i] == Returned(Pending)
    requires |Payload(pre)| + |last| == n
    requires hash(d.Kind(), Payload(pre) + last) == d.DigestBytes()
    ensures Validate(hash, Init(n, d), pre + [Data(last)] + idle + [Data(extra)] + post) ==
      pre + [Data(last)] + idle + [Panic]
    ensures Drain(Validate(hash, Init(n, d), pre + [Data(last)] + idle + [Data(extra)] + post)) ==
      Panicked(Payload(pre) + last)
  {
    ExactThenExtraReplies(hash, n, d, pre, last, idle, extra, post);
    DrainBeforePanic(pre, last, idle);
  }

  lemma ExactThenExtraReplies(hash: HashFn, n: nat, d: ContentDigest,
                              pre: seq<Reply>, last: seq<byte>, idle: seq<Reply>, extra: seq<byte>, post: seq<Reply>)
    requires Progress(pre) && |last| > 0 && |extra| > 0
    requires forall i :: 0 <= i < |idle| ==> idle[i] == Returned(Pending)
    requires |Payload(pre)| + |last| == n
    requires hash(d.Kind(), Payload(pre) + last) == d.DigestBytes()
    ensures Validate(hash, Init(n, d), pre + [Data(last)] + idle + [Data(extra)] + post) ==
      pre + [Data(last)] + idle + [Panic]
  {
    var rest := [Data(last)] + (idle + ([Data(extra)] + post));
    assert pre + [Data(last)] + idle + [Data(extra)] + post == pre + rest;
    InitIsReading(n, d);
    BelowSizePassesThrough(hash, n, d, [], pre, rest);
    assert [] + Payload(pre) == Payload(pre);
    assert Step(hash, Reading(n, d, Payload(pre)), Ready(Ok(last))) == (Taken(n, d), Data(last));
    ValidateCons(hash, Reading(n, d, Payload(pre)), Data(last), idle + ([Data(extra)] + post));
    PendingsPassThrough(hash, Taken(n, d), idle, [Data(extra)] + post);
    assert Validate(hash, Taken(n, d), [Data(extra)] + post) == [Panic] by {
      assert ([Data(extra)] + post)[0] == Data(extra);
    }
    assert pre + [Data(last)] + idle + [Panic] == pre + ([Data(last)] + (idle + [Panic]));
  }

  /** Draining chunks and pendings that end in a panic delivers their bytes, then panics. */
  lemma DrainBeforePanic(pre: seq<Reply>, last: seq<byte>, idle: seq<Reply>)
    requires Progress(pre) && |last| > 0
    requires forall i :: 0 <= i < |idle| ==> idle[i] == Returned(Pending)
    ensures Drain(pre + [Data(last)] + idle + [Panic]) == Panicked(Payload(pre) + last)
  {
    var body := pre + [Data(last)] + idle;
    assert Progress(body) by {
      forall i | 0 <= i < |body| ensures IsProgress(body[i]) {
        if i < |pre| { assert body[i] == pre[i]; }
        else if i == |pre| { assert body[i] == Data(last); }
        else { assert body[i] == idle[i - |pre| - 1]; }
      }
    }
    DrainAfterProgress(body, [Panic]);
    PayloadAppend(pre + [Data(last)], idle);
    PayloadAppend(pre, [Data(last)]);
    ProgressPendingsHaveNoPayload(idle);
    assert Payload([Data(last)]) == last by {
      assert [Data(last)][1..] == [];
    }
    assert Payload(body) == Payload(pre) + last;
    assert Payload(pre) + last + [] == Payload(pre) + last;
  }

  lemma {:induction false} ProgressPendingsHaveNoPayload(idle: seq<Reply>)
    requires forall i :: 0 <= i < |idle| ==> idle[i] == Returned(Pending)
    ensures Payload(idle) == []
    decreases |idle|
  {
    if idle != [] {
      ProgressPendingsHaveNoPayload(idle[1..]);
    }
  }

  // ---------------------------------------------------------------------------
  // The reader in place

  class ContentValidatingReader {
    var hasher: Option<Hasher>
    const expectedSize: nat
    const expectedDigest: ContentDigest
    var bytesRead: nat
    const hash: HashFn
    /** Every chunk handed to the reader so far, in order. */
    ghost var hashed: seq<byte>

    function State(): ValidatorState
      reads this
    {
      ValidatorState(hasher, expectedSize, expectedDigest, bytesRead)
    }

    ghost predicate Valid()
      reads this
    {
      Consistent(State(), hashed)
    }

    constructor (hash: HashFn, expectedSize: nat, expectedDigest: ContentDigest)
      ensures Valid() && hashed == []
      ensures State() == Init(expectedSize, expectedDigest) && this.hash == hash
    {
      this.hash := hash;
      hasher := Some(NewHasher(expectedDigest));
      this.expectedSize := expectedSize;
      this.expectedDigest := expectedDigest;
      bytesRead := 0;
      hashed := [];
    }

    /** `poll_read`, given the result of the source's own `poll_read`. */
    method PollRead(p: Poll) returns (reply: Reply)
      requires Valid()
      modifies this
      ensures Valid()
      ensures (State(), reply) == Step(hash, old(State()), p)
      ensures hashed == old(hashed) + (if reply == Panic then [] else Chunk(p))
    {
      match p
      case Pending =>
        reply := Returned(p);
      case Ready(Err(_)) =>
        reply := Returned(p);
      case Ready(Ok(chunk)) =>
        if |chunk| > 0 {
          if hasher.Some? {
            hasher := Some(hasher.value.Update(chunk));
          } else {
            return Panic;  // "hasher destroyed prematurely"
          }
          bytesRead := bytesRead + |chunk|;
          hashed := hashed + chunk;
        } else {
          assert hashed + chunk == hashed;
        }
        if bytesRead == expectedSize {
          if hasher.Some? {
            var h := hasher.value;
            hasher := None;
            if h.Finish(hash) != expectedDigest.DigestBytes() {
              return Failure(DigestMismatch);
            }
          }
        } else if bytesRead > expectedSize {
          return Failure(ExtraBytes);
        }
        reply := Returned(p);
    }
  }

  /**
   * Reads the reader until a pull returns the end of stream, fails or panics
   * (`drain_reader`); the source's replies are `source`, one per pull.
   */
  method DrainValidating(r: ContentValidatingReader, source: seq<Reply>) returns (result: DrainResult)
    requires r.Valid()
    modifies r
    ensures r.Valid()
    ensures result == Drain(Validate(r.hash, old(r.State()), source))
  {
    ghost var goal := Drain(Validate(r.hash, r.State(), source));
    var delivered: seq<byte> := [];
    var i := 0;
    while i < |source|
      invariant 0 <= i <= |source| && r.Valid()
      invariant goal == Prepend(delivered, Drain(Validate(r.hash, r.State(), source[i..])))
      decreases |source| - i
    {
      ghost var s := r.State();
      assert source[i..][0] == source[i] && source[i..][1..] == source[i + 1..];
      if source[i] == Panic {
        return Panicked(delivered);
      }
      var reply := r.PollRead(source[i].poll);
      if reply == Panic {
        return Panicked(delivered);
      }
      ghost var later := Validate(r.hash, r.State(), source[i + 1..]);
      assert Validate(r.hash, s, source[i..]) == [reply] + later;
      assert ([reply] + later)[0] == reply && ([reply] + later)[1..] == later;
      match reply.poll {
        case Pending =>
        case Ready(Err(e)) =>
          return Failed(e, delivered);
        case Ready(Ok(chunk)) =>
          if chunk == [] {
            return Complete(delivered);
          }
          PrependPrepend(delivered, chunk, Drain(later));
          delivered := delivered + chunk;
      }
      i := i + 1;
    }
    assert source[i..] == [];
    return Incomplete(delivered);
  }
}
