/**
 * What one `poll_read` produces, and how a stream is drained.
 *
 * A pull either returns a `Poll` — `Ready(Ok(chunk))`, where the chunk is
 * `buf[0..size]` and the empty chunk is end of stream, `Ready(Err(e))`, or
 * `Pending` — or panics. A source is described by the script of replies its
 * successive pulls give; a decorator is a function from the script of its
 * source to its own script.
 */
module Polls {
  import opened Wrappers
  import opened Hex

  /** The errors a pull can report: an opaque I/O error of the source, or one of the two integrity errors. */
  datatype Error = Io(code: nat) | DigestMismatch | ExtraBytes

  datatype Poll = Ready(result: Result<seq<byte>, Error>) | Pending

  datatype Reply = Returned(poll: Poll) | Panic

  const EndOfStream: Reply := Returned(Ready(Ok([])))

  function Data(chunk: seq<byte>): Reply {
    Returned(Ready(Ok(chunk)))
  }

  function Failure(e: Error): Reply {
    Returned(Ready(Err(e)))
  }

  /** The bytes a pull result hands to the caller. */
  function Chunk(p: Poll): seq<byte> {
    if p.Ready? && p.result.Ok? then p.result.value else []
  }

  /** All bytes a script's successful pulls deliver, in order. */
  function Payload(script: seq<Reply>): seq<byte> {
    if script == [] then []
    else (if script[0].Returned? then Chunk(script[0].poll) else []) + Payload(script[1..])
  }

  /** A pull that makes progress without ending the stream: `Pending` or a non-empty chunk. */
  predicate IsProgress(r: Reply) {
    r == Returned(Pending) || (r.Returned? && r.poll.Ready? && r.poll.result.Ok? && |r.poll.result.value| > 0)
  }

  predicate Progress(script: seq<Reply>) {
    forall i :: 0 <= i < |script| ==> IsProgress(script[i])
  }

  /** A source that delivers its content, possibly interleaved with `Pending`, and then ends the stream. */
  predicate Clean(script: seq<Reply>) {
    |script| > 0 && script[|script| - 1] == EndOfStream && Progress(script[..|script| - 1])
  }

  /** Nothing but `Pending`, then end of stream. */
  predicate Tail(script: seq<Reply>) {
    |script| > 0 && script[|script| - 1] == EndOfStream &&
    forall i :: 0 <= i < |script| - 1 ==> script[i] == Returned(Pending)
  }

  /** The outcome of reading a stream until it ends, fails, panics or the script runs out. */
  datatype DrainResult =
    | Complete(bytes: seq<byte>)
    | Failed(error: Error, bytes: seq<byte>)
    | Panicked(bytes: seq<byte>)
    | Incomplete(bytes: seq<byte>)

  /** Puts bytes delivered earlier in front of the outcome of the rest of a drain. */
  function Prepend(before: seq<byte>, r: DrainResult): (q: DrainResult)
    ensures q.bytes == before + r.bytes
  {
    match r
    case Complete(b) => Complete(before + b)
    case Failed(e, b) => Failed(e, before + b)
    case Panicked(b) => Panicked(before + b)
    case Incomplete(b) => Incomplete(before + b)
  }

  /**
   * `drain_reader`: pull until a pull returns the empty chunk (success), an
   * error, or panics; `bytes` are the bytes delivered before that pull.
   * A `Pending` pull is simply retried.
   */
  function Drain(script: seq<Reply>): (r: DrainResult)
    ensures r.Complete? ==> EndOfStream in script
    ensures r.Failed? ==> Failure(r.error) in script
    ensures r.Panicked? ==> Panic in script
  {
    if script == [] then Incomplete([])
    else
      match script[0]
      case Panic => Panicked([])
      case Returned(Pending) =>
        var rest := Drain(script[1..]);
        assert forall x :: x in script[1..] ==> x in script;
        rest
      case Returned(Ready(Err(e))) => Failed(e, [])
      case Returned(Ready(Ok(chunk))) =>
        if chunk == [] then Complete([])
        else
          var rest := Drain(script[1..]);
          assert forall x :: x in script[1..] ==> x in script;
          Prepend(chunk, rest)
  }

  /** A drain delivers a prefix of everything the stream's successful pulls deliver. */
  lemma {:induction false} DrainDeliversPrefix(script: seq<Reply>)
    ensures Drain(script).bytes <= Payload(script)
    decreases |script|
  {
    if script != [] && script[0].Returned? && script[0].poll.Ready? && script[0].poll.result.Ok?
       && script[0].poll.result.value != [] {
      var chunk := script[0].poll.result.value;
      var rest := Drain(script[1..]);
      DrainDeliversPrefix(script[1..]);
      assert (chunk + Payload(script[1..]))[..|chunk + rest.bytes|] == chunk + rest.bytes;
    } else if script != [] && script[0] == Returned(Pending) {
      DrainDeliversPrefix(script[1..]);
    }
  }

  lemma PrependPrepend(a: seq<byte>, b: seq<byte>, r: DrainResult)
    ensures Prepend(a, Prepend(b, r)) == Prepend(a + b, r)
  {
    assert a + (b + r.bytes) == (a + b) + r.bytes;
  }

  lemma {:induction false} PayloadAppend(a: seq<Reply>, b: seq<Reply>)
    ensures Payload(a + b) == Payload(a) + Payload(b)
    decreases |a|
  {
    if a == [] {
      assert a + b == b;
    } else {
      assert (a + b)[1..] == a[1..] + b;
      assert (a + b)[0] == a[0];
      PayloadAppend(a[1..], b);
      var head: seq<byte> := if a[0].Returned? then Chunk(a[0].poll) else [];
      assert Payload(a + b) == head + (Payload(a[1..]) + Payload(b));
      assert Payload(a) == head + Payload(a[1..]);
      assert head + (Payload(a[1..]) + Payload(b)) == (head + Payload(a[1..])) + Payload(b);
    }
  }

  lemma {:induction false} ProgressWithoutPayloadIsPending(script: seq<Reply>)
    requires Progress(script)
    requires Payload(script) == []
    ensures forall i :: 0 <= i < |script| ==> script[i] == Returned(Pending)
    decreases |script|
  {
    if script != [] {
      assert IsProgress(script[0]);
      ProgressWithoutPayloadIsPending(script[1..]);
      forall i | 0 <= i < |script| ensures script[i] == Returned(Pending) {
        if i > 0 { assert script[i] == script[1..][i - 1]; }
      }
    }
  }

  /** A clean script that delivers nothing is a tail: pendings, then end of stream. */
  lemma CleanWithoutPayloadIsTail(script: seq<Reply>)
    requires Clean(script)
    requires Payload(script) == []
    ensures Tail(script)
  {
    var n := |script| - 1;
    assert script == script[..n] + [script[n]];
    PayloadAppend(script[..n], [script[n]]);
    ProgressWithoutPayloadIsPending(script[..n]);
    forall i | 0 <= i < n ensures script[i] == Returned(Pending) {
      assert script[i] == script[..n][i];
    }
  }

  /** Draining a prefix that only makes progress delivers its payload and goes on with the rest. */
  lemma {:induction false} DrainAfterProgress(pre: seq<Reply>, rest: seq<Reply>)
    requires Progress(pre)
    ensures Drain(pre + rest) == Prepend(Payload(pre), Drain(rest))
    decreases |pre|
  {
    if pre == [] {
      assert pre + rest == rest;
      assert Prepend([], Drain(rest)) == Drain(rest) by {
        assert [] + Drain(rest).bytes == Drain(rest).bytes;
      }
    } else {
      assert IsProgress(pre[0]);
      assert (pre + rest)[1..] == pre[1..] + rest;
      assert (pre + rest)[0] == pre[0];
      DrainAfterProgress(pre[1..], rest);
      if pre[0] != Returned(Pending) {
        PrependPrepend(Chunk(pre[0].poll), Payload(pre[1..]), Drain(rest));
      }
    }
  }

  /** Draining a clean source delivers exactly its payload and succeeds. */
  lemma DrainClean(script: seq<Reply>)
    requires Clean(script)
    ensures Drain(script) == Complete(Payload(script))
  {
    var n := |script| - 1;
    assert script == script[..n] + [EndOfStream];
    DrainAfterProgress(script[..n], [EndOfStream]);
    PayloadAppend(script[..n], [EndOfStream]);
    assert Payload([EndOfStream]) == [];
  }
}
