/**
 * `AudioStream`: hands a completely synthesised audio buffer to the HTTP
 * body as a pull-based stream of byte chunks.
 *
 * The stream owns an in-memory cursor over the audio bytes, an accumulation
 * buffer, the count `position` of bytes taken from the cursor, and the public
 * field `total_len`. `PollStep` is the meaning of one `poll_next` call on the
 * stream's state; the class method `AudioStream.PollNext` is proved to do
 * exactly that. The lemmas then show what a consumer sees:
 *   - for ANY state reachable by polling, under any pattern of read faults
 *     and whatever `total_len` says, the bytes emitted plus the bytes still
 *     buffered are exactly the bytes taken from the cursor, in order, and
 *     every emitted chunk holds 1 to 4096 bytes;
 *   - for the stream as `html_to_audio` builds it, polling until the end
 *     emits the audio in chunks of 4096 bytes except the last, which holds
 *     1 to 4096 bytes (empty audio gives no chunk at all), then nothing but
 *     end-of-stream.
 */
module AudioStreaming {
  import opened Wrappers
  import Tts

  /** The size of the read buffer and the emission threshold of `poll_next`. */
  const ChunkSize: nat := 4096

  datatype IoError = IoError(message: string)

  /** What the underlying reader may report instead of bytes. */
  datatype ReadFault = WouldBlock | Broken(error: IoError)

  /** `Poll<Option<Result<Bytes, io::Error>>>` */
  datatype Poll = Ready(item: Option<Result<seq<bv8>, IoError>>) | Pending

  /** The fields of an `AudioStream`, with the cursor as its byte vector and read offset. */
  datatype StreamState = StreamState(
    audio: seq<bv8>,
    cursor: nat,
    buffer: seq<bv8>,
    position: nat,
    totalLen: nat)

  predicate CursorInBounds(s: StreamState) {
    s.cursor <= |s.audio|
  }

  /** The data bytes a poll hands out: the chunk of `Ready(Some(Ok(chunk)))`, else none. */
  function Payload(p: Poll): seq<bv8> {
    if p.Ready? && p.item.Some? && p.item.value.Ok? then p.item.value.value else []
  }

  predicate IsChunk(p: Poll) {
    p.Ready? && p.item.Some? && p.item.value.Ok?
  }

  /** `Read::read` of a `Cursor` into a 4096-byte array: how many bytes it copies. */
  function CursorRead(audio: seq<bv8>, cursor: nat): (n: nat)
    requires cursor <= |audio|
    ensures cursor + n <= |audio| && n <= ChunkSize
    ensures n == ChunkSize || cursor + n == |audio|
  {
    if |audio| - cursor < ChunkSize then |audio| - cursor else ChunkSize
  }

  /**
   * One `poll_next` call: the new state and the result. `fault` is what the
   * reader reports instead of data (None: it returns bytes, as an in-memory
   * cursor always does).
   */
  function PollStep(s: StreamState, fault: Option<ReadFault>): (r: (StreamState, Poll))
    requires CursorInBounds(s)
    ensures CursorInBounds(r.0) && r.0.audio == s.audio && r.0.totalLen == s.totalLen
  {
    if s.position >= s.totalLen then (s, Ready(None))
    else
      match fault
      case Some(WouldBlock) => (s, Pending)
      case Some(Broken(e)) => (s, Ready(Some(Err(e))))
      case None =>
        var n := CursorRead(s.audio, s.cursor);
        if n == 0 then
          if s.buffer != [] then (s.(position := s.totalLen, buffer := []), Ready(Some(Ok(s.buffer))))
          else (s.(position := s.totalLen), Ready(None))
        else
          var buffer := s.buffer + s.audio[s.cursor..s.cursor + n];
          var t := s.(cursor := s.cursor + n, buffer := buffer, position := s.position + n);
          if |buffer| >= ChunkSize then (t.(buffer := []), Ready(Some(Ok(buffer))))
          else if t.position >= t.totalLen then (t.(buffer := []), Ready(Some(Ok(buffer))))
          else (t, Pending)
  }

  /** The stream as `html_to_audio` creates it: nothing read, `total_len` the audio's length. */
  function Fresh(audio: seq<bv8>): StreamState {
    StreamState(audio, 0, [], 0, |audio|)
  }

  class AudioStream {
    const audioData: seq<bv8>
    var cursor: nat
    var buffer: seq<bv8>
    var position: nat
    var totalLen: nat

    /** The invariant of every reachable stream: see `BufferFromCursor`. */
    ghost predicate Valid()
      reads this
    {
      BufferFromCursor(State())
    }

    function State(): StreamState
      reads this
    {
      StreamState(audioData, cursor, buffer, position, totalLen)
    }

    /** The `AudioStream` literal that ends `html_to_audio`. */
    constructor (rawAudio: seq<bv8>)
      ensures Valid() && State() == Fresh(rawAudio)
    {
      audioData := rawAudio;
      cursor := 0;
      buffer := [];
      position := 0;
      totalLen := |rawAudio|;
    }

    /** `poll_next`; the waker call before `Pending` is scheduler plumbing and not modelled. */
    method PollNext(fault: Option<ReadFault>) returns (p: Poll)
      requires Valid()
      modifies this
      ensures Valid()
      ensures (State(), p) == PollStep(old(State()), fault)
      ensures old(cursor) <= cursor
      ensures Payload(p) + buffer == old(buffer) + audioData[old(cursor)..cursor]
      ensures IsChunk(p) ==> 0 < |Payload(p)| <= ChunkSize
    {
      ghost var s0 := State();
      PollConservesBytes(s0, fault);
      if position >= totalLen {
        p := Ready(None);
      } else if fault.Some? {
        match fault.value {
          case WouldBlock => p := Pending;
          case Broken(e) => p := Ready(Some(Err(e)));
        }
      } else {
        var n := CursorRead(audioData, cursor);
        if n == 0 {
          position := totalLen;
          if buffer != [] {
            p := Ready(Some(Ok(buffer)));
            buffer := [];
          } else {
            p := Ready(None);
          }
        } else {
          buffer := buffer + audioData[cursor..cursor + n];
          cursor := cursor + n;
          position := position + n;
          if |buffer| >= ChunkSize || position >= totalLen {
            p := Ready(Some(Ok(buffer)));
            buffer := [];
          } else {
            p := Pending;
          }
        }
      }
      assert State() == PollStep(s0, fault).0 && p == PollStep(s0, fault).1;
    }
  }

  // ---------------------------------------------------------------------------
  // Every reachable state, any faults, any total_len

  /**
   * What polling keeps true whatever happens: the buffer holds the latest
   * bytes taken from the cursor, fewer than a chunk, and it is only left
   * non-empty once the cursor has reached the end of the audio.
   */
  predicate BufferFromCursor(s: StreamState) {
    && s.cursor <= |s.audio|
    && |s.buffer| <= s.cursor
    && s.buffer == s.audio[s.cursor - |s.buffer|..s.cursor]
    && |s.buffer| < ChunkSize
    && (s.buffer != [] ==> s.cursor == |s.audio|)
  }

  /**
   * One poll from any such state keeps it, never moves the cursor back, hands
   * out 1 to 4096 bytes when it yields a chunk, and conserves bytes: what it
   * hands out plus what it keeps buffered is what was buffered plus what it
   * took from the cursor.
   */
  lemma PollConservesBytes(s: StreamState, fault: Option<ReadFault>)
    requires BufferFromCursor(s)
    ensures var (t, p) := PollStep(s, fault);
      && BufferFromCursor(t)
      && s.cursor <= t.cursor
      && Payload(p) + t.buffer == s.buffer + s.audio[s.cursor..t.cursor]
      && (IsChunk(p) ==> 0 < |Payload(p)| <= ChunkSize)
  {
    var (t, p) := PollStep(s, fault);
    if s.position < s.totalLen && fault.None? {
      var n := CursorRead(s.audio, s.cursor);
      if n == 0 {
        assert s.audio[s.cursor..t.cursor] == [];
      } else {
        assert s.cursor < |s.audio|;
      }
    } else {
      assert s.audio[s.cursor..t.cursor] == [];
    }
  }

  /** The polls of a consumer that meets the given read faults, one per call. */
  function Run(s: StreamState, faults: seq<Option<ReadFault>>): (r: (StreamState, seq<Poll>))
    requires CursorInBounds(s)
    ensures |r.1| == |faults| && CursorInBounds(r.0) && r.0.audio == s.audio
    decreases |faults|
  {
    if faults == [] then (s, [])
    else
      var (t, p) := PollStep(s, faults[0]);
      var (u, ps) := Run(t, faults[1..]);
      (u, [p] + ps)
  }

  function Concat(chunks: seq<seq<bv8>>): seq<bv8> {
    if chunks == [] then [] else chunks[0] + Concat(chunks[1..])
  }

  /** The data bytes handed out by a run of polls, in order. */
  function Delivered(ps: seq<Poll>): seq<bv8> {
    if ps == [] then [] else Payload(ps[0]) + Delivered(ps[1..])
  }

  /**
   * No byte is ever duplicated, reordered or dropped: after any run of polls,
   * under any faults and whatever `total_len` says, the bytes delivered followed
   * by the bytes still buffered are exactly the bytes the cursor gave up.
   */
  lemma {:induction false} RunConservesBytes(s: StreamState, faults: seq<Option<ReadFault>>)
    requires BufferFromCursor(s)
    ensures BufferFromCursor(Run(s, faults).0)
    ensures s.cursor <= Run(s, faults).0.cursor
    ensures Delivered(Run(s, faults).1) + Run(s, faults).0.buffer
         == s.buffer + s.audio[s.cursor..Run(s, faults).0.cursor]
    decreases |faults|
  {
    if faults != [] {
      var step := PollStep(s, faults[0]);
      var t, p := step.0, step.1;
      PollConservesBytes(s, faults[0]);
      RunConservesBytes(t, faults[1..]);
      var rest := Run(t, faults[1..]);
      var u, ps := rest.0, rest.1;
      assert Run(s, faults) == (u, [p] + ps);
      assert Delivered([p] + ps) == Payload(p) + Delivered(ps) by {
        assert ([p] + ps)[1..] == ps;
      }
      AppendSlices(s.buffer, s.audio, s.cursor, t.cursor, u.cursor, Payload(p), t.buffer, Delivered(ps), u.buffer);
    } else {
      assert s.audio[s.cursor..s.cursor] == [];
    }
  }

  /** The bookkeeping step of `RunConservesBytes`: two consecutive conservation facts compose. */
  lemma AppendSlices(b: seq<bv8>, a: seq<bv8>, i: nat, j: nat, k: nat,
                     out1: seq<bv8>, mid: seq<bv8>, out2: seq<bv8>, last: seq<bv8>)
    requires i <= j <= k <= |a|
    requires out1 + mid == b + a[i..j]
    requires out2 + last == mid + a[j..k]
    ensures (out1 + out2) + last == b + a[i..k]
  {
    calc {
      (out1 + out2) + last;
      out1 + (out2 + last);
      out1 + (mid + a[j..k]);
      (out1 + mid) + a[j..k];
      (b + a[i..j]) + a[j..k];
      { assert a[i..j] + a[j..k] == a[i..k]; }
      b + a[i..k];
    }
  }

  /**
   * A read fault changes nothing: `WouldBlock` answers `Pending` and an error
   * is handed out as it is, and either way the next poll reads again from the
   * same cursor. There is no terminal failed state.
   */
  lemma FaultLeavesStateUnchanged(s: StreamState, f: ReadFault)
    requires CursorInBounds(s)
    ensures PollStep(s, Some(f)).0 == s
    ensures s.position < s.totalLen ==>
      PollStep(s, Some(f)).1 == (if f.WouldBlock? then Pending else Ready(Some(Err(f.error))))
  {
  }

  /** Once `position` has reached `total_len`, every further poll ends the stream and changes nothing. */
  lemma ExhaustedStaysEnded(s: StreamState, fault: Option<ReadFault>)
    requires CursorInBounds(s) && s.position >= s.totalLen
    ensures PollStep(s, fault) == (s, Ready(None))
  {
  }

  // ---------------------------------------------------------------------------
  // The stream html_to_audio builds, polled without faults

  /**
   * The shape of every state of a fresh stream polled without faults:
   * `position` counts the bytes taken from the cursor, never passes
   * `total_len`, which is the audio's length, and nothing is held back.
   */
  predicate Synced(s: StreamState) {
    s.cursor == s.position <= s.totalLen == |s.audio| && s.buffer == []
  }

  /**
   * A fault-free poll of such a state ends the stream exactly when all bytes
   * are out, and otherwise hands out the next min(4096, remaining) bytes; it
   * never answers `Pending`.
   */
  lemma SyncedPoll(s: StreamState)
    requires Synced(s)
    ensures var (t, p) := PollStep(s, None);
      && Synced(t)
      && (s.position == |s.audio| ==> t == s && p == Ready(None))
      && (s.position < |s.audio| ==>
            var n := CursorRead(s.audio, s.position);
            && t.position == s.position + n
            && p == Ready(Some(Ok(s.audio[s.position..s.position + n]))))
  {
    if s.position < |s.audio| {
      assert [] + s.audio[s.cursor..s.cursor + CursorRead(s.audio, s.cursor)]
        == s.audio[s.cursor..s.cursor + CursorRead(s.audio, s.cursor)];
    }
  }

  /** The chunks successive fault-free polls hand out, up to the end of the stream. */
  ghost function Chunks(s: StreamState): seq<seq<bv8>>
    requires Synced(s)
    decreases |s.audio| - s.position
  {
    SyncedPoll(s);
    var (t, p) := PollStep(s, None);
    if IsChunk(p) then [Payload(p)] + Chunks(t) else []
  }

  /** Reference split of a byte sequence into chunks of 4096 bytes except the last, which holds 1 to 4096. */
  function Chunked(d: seq<bv8>): seq<seq<bv8>>
    decreases |d|
  {
    if d == [] then []
    else if |d| <= ChunkSize then [d]
    else [d[..ChunkSize]] + Chunked(d[ChunkSize..])
  }

  /** Polling a synced stream hands out exactly the reference chunking of what remains. */
  lemma {:induction false} ChunksAreChunked(s: StreamState)
    requires Synced(s)
    ensures Chunks(s) == Chunked(s.audio[s.position..])
    decreases |s.audio| - s.position
  {
    SyncedPoll(s);
    var (t, p) := PollStep(s, None);
    var rest := s.audio[s.position..];
    if s.position < |s.audio| {
      ChunksAreChunked(t);
      var n := CursorRead(s.audio, s.position);
      assert IsChunk(p) && Chunks(s) == [Payload(p)] + Chunks(t);
      assert rest[..n] == s.audio[s.position..s.position + n];
      assert rest[n..] == s.audio[t.position..];
      if |rest| > ChunkSize {
        assert n == ChunkSize;
      } else {
        assert n == |rest|;
        assert rest[..n] == rest;
        assert Chunked(s.audio[t.position..]) == [];
      }
    } else {
      assert rest == [];
      assert !IsChunk(p);
      assert Chunks(s) == [];
    }
  }

  /** The reference chunks, concatenated, are the bytes themselves. */
  lemma {:induction false} ChunkedConcat(d: seq<bv8>)
    ensures Concat(Chunked(d)) == d
    decreases |d|
  {
    if |d| > ChunkSize {
      ChunkedConcat(d[ChunkSize..]);
      assert d[..ChunkSize] + d[ChunkSize..] == d;
    } else if d != [] {
      assert [d][1..] == [];
    }
  }

  /** Every chunk is non-empty and at most 4096 bytes; all but the last are exactly 4096. */
  lemma {:induction false} ChunkedSizes(d: seq<bv8>)
    ensures var cs := Chunked(d);
      && (forall k :: 0 <= k < |cs| ==> 0 < |cs[k]| <= ChunkSize)
      && (forall k :: 0 <= k < |cs| - 1 ==> |cs[k]| == ChunkSize)
    decreases |d|
  {
    if |d| > ChunkSize {
      ChunkedSizes(d[ChunkSize..]);
      var cs := Chunked(d);
      assert forall k :: 1 <= k < |cs| ==> cs[k] == Chunked(d[ChunkSize..])[k - 1];
    }
  }

  /** There are ceil(len / 4096) chunks. */
  lemma {:induction false} ChunkedCount(d: seq<bv8>)
    ensures |Chunked(d)| == (|d| + ChunkSize - 1) / ChunkSize
    decreases |d|
  {
    if |d| > ChunkSize {
      ChunkedCount(d[ChunkSize..]);
    }
  }

  /**
   * End to end: polling the stream built from synthesised audio without
   * faults hands out the header (which is empty) followed by the audio,
   * exactly, in ceil(len / 4096) chunks of 4096 bytes except the last, which
   * holds 1 to 4096 bytes; empty audio gives no chunk.
   */
  lemma FreshStreamDeliversAudio(audio: seq<bv8>)
    ensures Concat(Chunks(Fresh(audio))) == Tts.CreateWavHeader(|audio|) + audio
    ensures |Chunks(Fresh(audio))| == (|audio| + ChunkSize - 1) / ChunkSize
    ensures var cs := Chunks(Fresh(audio));
      && (forall k :: 0 <= k < |cs| ==> 0 < |cs[k]| <= ChunkSize)
      && (forall k :: 0 <= k < |cs| - 1 ==> |cs[k]| == ChunkSize)
  {
    ChunksAreChunked(Fresh(audio));
    assert audio[0..] == audio;
    ChunkedConcat(audio);
    ChunkedCount(audio);
    ChunkedSizes(audio);
  }

  /** Empty audio: the very first poll ends the stream, and no chunk is ever handed out. */
  lemma EmptyAudioEndsAtOnce(fault: Option<ReadFault>)
    ensures PollStep(Fresh([]), fault) == (Fresh([]), Ready(None))
    ensures Chunks(Fresh([])) == []
  {
  }

  /** 10000 bytes go out as 4096, 4096 and 1808. */
  lemma TenThousandBytes(audio: seq<bv8>)
    requires |audio| == 10000
    ensures var cs := Chunks(Fresh(audio));
      |cs| == 3 && |cs[0]| == 4096 && |cs[1]| == 4096 && |cs[2]| == 1808
  {
    ChunksAreChunked(Fresh(audio));
    assert audio[0..] == audio;
    var d1 := audio[ChunkSize..];
    var d2 := d1[ChunkSize..];
    assert |d2| == 1808;
    assert Chunked(d2) == [d2];
    assert Chunked(d1) == [d1[..ChunkSize]] + [d2];
  }
}
