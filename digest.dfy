/**
 * The chunked digest loop of `sha256_digest`: a reader is drained through a
 * fixed 1024-byte buffer into an incremental hash context.
 *
 * SHA-256 itself is not modelled. It is a function-typed parameter `sha` of
 * the bytes fed to the context, so everything proved here holds for every
 * hash function of that type.
 */
module Digest {
  import opened Io

  /** Bytes in a SHA-256 digest. */
  const DigestLength: nat := 32

  type Digest = d: seq<Byte> | |d| == DigestLength witness seq(32, _ => 0)

  /** SHA-256 of the whole byte sequence fed to a context. */
  type Sha256 = seq<Byte> -> Digest

  type Positive = n: nat | 0 < n witness 1

  /** Length of the zero-initialised read buffer. */
  const BufferSize: Positive := 1024

  /**
   * How the underlying file answers one `read` call: hand over at most `limit`
   * bytes (a short read), or fail with `error`. Once a reader's answers are used
   * up, every read fills as much of the buffer as the remaining bytes allow.
   */
  datatype Answer = Upto(limit: Positive) | Fail(error: IoError)

  function Min(a: int, b: int): int { if a <= b then a else b }

  /** The answers left after one read. */
  function Remaining(answers: seq<Answer>): seq<Answer> {
    if answers == [] then [] else answers[1..]
  }

  /**
   * The result of one `read` into a buffer of `capacity` bytes when `rest` is
   * still unread: the number of bytes handed over, or the error.
   */
  function NextRead(rest: seq<Byte>, answers: seq<Answer>, capacity: nat): (r: Result<nat>)
    ensures r.Err? <==> answers != [] && answers[0].Fail?
    ensures r.Ok? ==> r.value <= capacity && r.value <= |rest|
    ensures r.Ok? ==> (r.value == 0 <==> capacity == 0 || rest == [])
  {
    if answers != [] && answers[0].Fail? then Err(answers[0].error)
    else
      var limit := if answers == [] then capacity else answers[0].limit;
      Ok(Min(Min(limit, capacity), |rest|))
  }

  /** A readable byte stream: what is still unread and how the next reads will be answered. */
  class Reader {
    var rest: seq<Byte>
    var answers: seq<Answer>

    constructor (content: seq<Byte>, schedule: seq<Answer>)
      ensures rest == content && answers == schedule
    {
      rest := content;
      answers := schedule;
    }

    /** `Read::read`: copies the next bytes into the front of `buf`. */
    method Read(buf: array<Byte>) returns (r: Result<nat>)
      modifies this, buf
      ensures r == NextRead(old(rest), old(answers), buf.Length)
      ensures answers == Remaining(old(answers))
      ensures r.Ok? ==> buf[..r.value] == old(rest)[..r.value] && rest == old(rest)[r.value..]
      ensures r.Err? ==> rest == old(rest)
    {
      r := NextRead(rest, answers, buf.Length);
      answers := Remaining(answers);
      if r.Ok? {
        var n := r.value;
        var i := 0;
        while i < n
          modifies buf
          invariant 0 <= i <= n
          invariant forall k :: 0 <= k < i ==> buf[k] == rest[k]
        {
          buf[i] := rest[i];
          i := i + 1;
        }
        assert buf[..n] == rest[..n];
        rest := rest[n..];
      }
    }
  }

  /** The incremental hash context, seen through the bytes fed to it so far. */
  class Context {
    var fed: seq<Byte>

    constructor ()
      ensures fed == []
    {
      fed := [];
    }

    method Update(data: seq<Byte>)
      modifies this
      ensures fed == old(fed) + data
    {
      fed := fed + data;
    }

    function Finish(sha: Sha256): Digest
      reads this
    {
      sha(fed)
    }
  }

  /** The chunks a read loop feeds to the context, and the read error that ended it, if any. */
  datatype Drained = Drained(chunks: seq<seq<Byte>>, error: Option<IoError>)

  /** `chunks` fed before the reads described by `d`. */
  function Prefixed(chunks: seq<seq<Byte>>, d: Drained): Drained {
    Drained(chunks + d.chunks, d.error)
  }

  /**
   * What the loop of `sha256_digest` does to a stream: read until a read
   * returns zero bytes or fails, collecting every non-empty chunk.
   */
  function Drain(rest: seq<Byte>, answers: seq<Answer>, capacity: Positive): Drained
    decreases |rest|
  {
    match NextRead(rest, answers, capacity)
    case Err(e) => Drained([], Some(e))
    case Ok(n) =>
      if n == 0 then Drained([], None)
      else Prefixed([rest[..n]], Drain(rest[n..], Remaining(answers), capacity))
  }

  function Flatten(chunks: seq<seq<Byte>>): seq<Byte> {
    if chunks == [] then [] else chunks[0] + Flatten(chunks[1..])
  }

  /** The digest of all chunks fed after a clean end of stream; the read error otherwise. */
  function DigestOf(d: Drained, sha: Sha256): Result<Digest> {
    if d.error.Some? then Err(d.error.value) else Ok(sha(Flatten(d.chunks)))
  }

  lemma {:induction false} FlattenAppend(chunks: seq<seq<Byte>>, c: seq<Byte>)
    ensures Flatten(chunks + [c]) == Flatten(chunks) + c
  {
    if chunks != [] {
      assert (chunks + [c])[1..] == chunks[1..] + [c];
      FlattenAppend(chunks[1..], c);
    }
  }

  /**
   * `sha256_digest`: feeds the reader's bytes through a 1024-byte buffer into
   * a fresh context until a zero-length read, then finishes it; `?` returns the
   * first read error without finishing.
   */
  method Sha256Digest(reader: Reader, sha: Sha256) returns (r: Result<Digest>)
    modifies reader
    ensures r == DigestOf(Drain(old(reader.rest), old(reader.answers), BufferSize), sha)
  {
    var context := new Context();
    var buffer := new Byte[BufferSize];
    ghost var chunks: seq<seq<Byte>> := [];
    while true
      invariant buffer.Length == BufferSize
      invariant context.fed == Flatten(chunks)
      invariant Drain(old(reader.rest), old(reader.answers), BufferSize)
             == Prefixed(chunks, Drain(reader.rest, reader.answers, BufferSize))
      decreases |reader.rest|
    {
      ghost var rest, answers := reader.rest, reader.answers;
      var count := reader.Read(buffer);
      DrainStep(rest, answers, BufferSize);
      if count.Err? {
        return Err(count.error);
      }
      var n := count.value;
      if n == 0 {
        break;
      }
      ghost var chunk := buffer[..n];
      context.Update(buffer[..n]);
      FlattenAppend(chunks, chunk);
      PrefixedAppend(chunks, chunk, Drain(reader.rest, reader.answers, BufferSize));
      chunks := chunks + [chunk];
    }
    assert chunks + [] == chunks;
    r := Ok(context.Finish(sha));
  }

  /** One step of `Drain`: what the next read decides. */
  lemma DrainStep(rest: seq<Byte>, answers: seq<Answer>, capacity: Positive)
    ensures var next, d := NextRead(rest, answers, capacity), Drain(rest, answers, capacity);
      && (next.Err? ==> d == Drained([], Some(next.error)))
      && (next.Ok? && next.value == 0 ==> d == Drained([], None))
      && (next.Ok? && next.value > 0 ==>
            d == Prefixed([rest[..next.value]], Drain(rest[next.value..], Remaining(answers), capacity)))
  {
  }

  lemma PrefixedAppend(chunks: seq<seq<Byte>>, c: seq<Byte>, d: Drained)
    ensures Prefixed(chunks, Prefixed([c], d)) == Prefixed(chunks + [c], d)
  {
    assert chunks + ([c] + d.chunks) == (chunks + [c]) + d.chunks;
  }

  /** Every chunk the loop feeds holds between 1 and `capacity` bytes. */
  lemma {:induction false} DrainChunkSizes(rest: seq<Byte>, answers: seq<Answer>, capacity: Positive)
    ensures var d := Drain(rest, answers, capacity);
      forall i :: 0 <= i < |d.chunks| ==> 0 < |d.chunks[i]| <= capacity
  {
    DrainStep(rest, answers, capacity);
    var d := Drain(rest, answers, capacity);
    var next := NextRead(rest, answers, capacity);
    if next.Ok? && next.value > 0 {
      var n := next.value;
      var tail := Drain(rest[n..], Remaining(answers), capacity);
      DrainChunkSizes(rest[n..], Remaining(answers), capacity);
      assert d.chunks == [rest[..n]] + tail.chunks;
      forall i | 0 <= i < |d.chunks| ensures 0 < |d.chunks[i]| <= capacity {
        if i > 0 { assert d.chunks[i] == tail.chunks[i - 1]; }
      }
    }
  }

  /**
   * The loop feeds the stream to the context in order: the chunks together
   * are a prefix of the stream, and after a clean end of stream they are the
   * whole stream.
   */
  lemma {:induction false} DrainFeedsPrefix(rest: seq<Byte>, answers: seq<Answer>, capacity: Positive)
    ensures var d := Drain(rest, answers, capacity);
      && Flatten(d.chunks) <= rest
      && (d.error.None? ==> Flatten(d.chunks) == rest)
  {
    DrainStep(rest, answers, capacity);
    var d := Drain(rest, answers, capacity);
    var next := NextRead(rest, answers, capacity);
    if next.Ok? && next.value > 0 {
      var n := next.value;
      var tail := Drain(rest[n..], Remaining(answers), capacity);
      DrainFeedsPrefix(rest[n..], Remaining(answers), capacity);
      assert d.chunks == [rest[..n]] + tail.chunks;
      assert d.chunks[0] == rest[..n] && d.chunks[1..] == tail.chunks;
      PrefixAfter(rest[..n], Flatten(tail.chunks), rest[n..]);
      assert rest == rest[..n] + rest[n..];
    }
  }

  lemma PrefixAfter(a: seq<Byte>, b: seq<Byte>, c: seq<Byte>)
    requires b <= c
    ensures a + b <= a + c
  {
    assert (a + c)[..|a + b|] == a + b;
  }

  /**
   * The loop feeds the stream to the context in order: every chunk holds
   * between 1 and `capacity` bytes, together they are a prefix of the stream,
   * and after a clean end of stream they are the whole stream.
   */
  lemma DrainFeedsStream(rest: seq<Byte>, answers: seq<Answer>, capacity: Positive)
    ensures var d := Drain(rest, answers, capacity);
      && (forall i :: 0 <= i < |d.chunks| ==> 0 < |d.chunks[i]| <= capacity)
      && Flatten(d.chunks) <= rest
      && (d.error.None? ==> Flatten(d.chunks) == rest)
  {
    DrainChunkSizes(rest, answers, capacity);
    DrainFeedsPrefix(rest, answers, capacity);
  }

  /**
   * The loop stops at the first failing read: read number `k` (from 0) is
   * answered by `answers[k]`; the first `|chunks|` reads succeeded, and the
   * loop ends with an error exactly when the next answer is a failure.
   */
  lemma {:induction false} DrainStopsAtFirstFailure(rest: seq<Byte>, answers: seq<Answer>, capacity: Positive)
    ensures var d := Drain(rest, answers, capacity);
      && (forall k :: 0 <= k < |d.chunks| && k < |answers| ==> answers[k].Upto?)
      && (d.error.Some? <==> |d.chunks| < |answers| && answers[|d.chunks|].Fail?)
      && (d.error.Some? ==> d.error.value == answers[|d.chunks|].error)
  {
    DrainStep(rest, answers, capacity);
    var d := Drain(rest, answers, capacity);
    var next := NextRead(rest, answers, capacity);
    if next.Ok? && next.value > 0 {
      var n := next.value;
      var tail := Drain(rest[n..], Remaining(answers), capacity);
      DrainStopsAtFirstFailure(rest[n..], Remaining(answers), capacity);
      assert d.chunks == [rest[..n]] + tail.chunks;
      if answers != [] {
        assert forall k :: 1 <= k < |answers| ==> answers[k] == Remaining(answers)[k - 1];
      }
    }
  }

  /** A read loop whose answers never fail ends cleanly. */
  lemma {:induction false} DrainWithoutFailures(rest: seq<Byte>, answers: seq<Answer>, capacity: Positive)
    requires forall k :: 0 <= k < |answers| ==> answers[k].Upto?
    ensures Drain(rest, answers, capacity).error.None?
  {
    match NextRead(rest, answers, capacity)
    case Err(e) =>
      assert false;
    case Ok(n) =>
      if n > 0 {
        var tail := Remaining(answers);
        assert forall k :: 0 <= k < |tail| ==> tail[k] == answers[k + 1];
        DrainWithoutFailures(rest[n..], tail, capacity);
      }
  }

  /**
   * The digest depends only on the stream's bytes: two read loops over the
   * same content that both end cleanly agree, whatever the short reads and the
   * buffer sizes, and the digest is that of the whole content.
   */
  lemma DigestIgnoresChunking(content: seq<Byte>, a1: seq<Answer>, a2: seq<Answer>,
                              c1: Positive, c2: Positive, sha: Sha256)
    requires DigestOf(Drain(content, a1, c1), sha).Ok?
    requires DigestOf(Drain(content, a2, c2), sha).Ok?
    ensures DigestOf(Drain(content, a1, c1), sha) == DigestOf(Drain(content, a2, c2), sha)
    ensures DigestOf(Drain(content, a1, c1), sha) == Ok(sha(content))
  {
    DrainFeedsStream(content, a1, c1);
    DrainFeedsStream(content, a2, c2);
  }
}
