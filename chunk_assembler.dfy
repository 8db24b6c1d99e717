/**
  The consumer thread: it takes polls from the audio queue one at a time,
  appends each frame to an accumulator, purges the accumulator when a frame
  arrives too late, and once the accumulator reaches the chunk size hands
  the whole of it to the phrase detector and starts again from empty.
 */
module ChunkAssembler {
  import opened Wrappers
  import opened Capture
  import PhraseDetector

  const SampleRate: nat := 44100
  const BytesPerSample: nat := 2
  const ChunkDurationSeconds: nat := 3
  const MaxDelaySeconds: int := 10

  /** The chunk threshold in bytes: 3 s at 44100 samples/s and 2 bytes/sample. */
  const ChunkBytes: nat := ChunkDurationSeconds * SampleRate * BytesPerSample

  /** The two tunables of the assembler: the chunk threshold and the maximum delay. */
  datatype Settings = Settings(chunkBytes: nat, maxDelay: int)

  /** The settings the program runs with. */
  const DefaultSettings := Settings(ChunkBytes, MaxDelaySeconds)

  /** A frame is stale when the consumer sees it more than `maxDelay` after its capture. */
  predicate IsStale(s: Settings, capturedAt: int, now: int)
  {
    now - capturedAt > s.maxDelay
  }

  /** The effect of one poll: the new accumulator, the chunk handed on (if any), and whether to stop. */
  datatype StepResult = StepResult(acc: seq<byte>, chunk: Option<seq<byte>>, stop: bool)

  /**
    One iteration of the consumer loop. A timeout changes nothing; the
    sentinel stops the loop; a frame is appended first, then a stale frame
    purges everything and a full accumulator is emitted whole and reset.
   */
  function Step(s: Settings, acc: seq<byte>, p: Poll): (r: StepResult)
    ensures r.stop <==> p.Got? && p.entry.Sentinel?
    ensures r.stop ==> r.acc == acc && r.chunk.None?
    ensures r.chunk.Some? ==> r.acc == [] && s.chunkBytes <= |r.chunk.value|
    ensures r.chunk.Some? ==> r.chunk.value == acc + FrameData(p)
  {
    match p
    case Timeout => StepResult(acc, None, false)
    case Got(Sentinel, _) => StepResult(acc, None, true)
    case Got(Frame(data, capturedAt), now) =>
      var grown := acc + data;
      if IsStale(s, capturedAt, now) then StepResult([], None, false)
      else if |grown| >= s.chunkBytes then StepResult([], Some(grown), false)
      else StepResult(grown, None, false)
  }

  /**
    The result of running the loop over a sequence of polls: the final
    accumulator, the chunks emitted in order, how many polls were taken,
    and whether the sentinel ended the loop.
   */
  datatype Outcome = Outcome(acc: seq<byte>, chunks: seq<seq<byte>>, consumed: nat, stopped: bool)

  /** The consumer loop as a fold of Step over the polls, from accumulator `acc`. */
  function Run(s: Settings, acc: seq<byte>, polls: seq<Poll>): (o: Outcome)
    ensures o.consumed <= |polls|
    ensures o.stopped ==> 1 <= o.consumed
    ensures !o.stopped ==> o.consumed == |polls|
    decreases |polls|
  {
    if |polls| == 0 then Outcome(acc, [], 0, false)
    else
      var r := Step(s, acc, polls[0]);
      if r.stop then Outcome(acc, [], 1, true)
      else
        var rest := Run(s, r.acc, polls[1..]);
        var emitted := if r.chunk.Some? then [r.chunk.value] else [];
        Outcome(rest.acc, emitted + rest.chunks, rest.consumed + 1, rest.stopped)
  }

  /** The segment texts the transcription engine returns for each chunk, in order. */
  function Transcripts(transcribe: seq<byte> -> seq<string>, chunks: seq<seq<byte>>): (ts: seq<seq<string>>)
    ensures |ts| == |chunks|
    ensures forall i :: 0 <= i < |chunks| ==> ts[i] == transcribe(chunks[i])
  {
    if chunks == [] then []
    else Transcripts(transcribe, chunks[..|chunks| - 1]) + [transcribe(chunks[|chunks| - 1])]
  }

  /**
    `audio_processor`: the consumer loop over the polls it receives, running
    the phrase detector on each chunk it emits with the transcription engine
    `transcribe`. Returns the chunks, the volume requests, the final
    accumulator, the number of polls taken and whether the sentinel was seen.
   */
  method AudioProcessor(s: Settings, ph: PhraseDetector.Phrases, transcribe: seq<byte> -> seq<string>, polls: seq<Poll>)
    returns (chunks: seq<seq<byte>>, requests: seq<PhraseDetector.Level>, acc: seq<byte>, consumed: nat, stopped: bool)
    ensures Run(s, [], polls) == Outcome(acc, chunks, consumed, stopped)
    ensures requests == PhraseDetector.ChunkRequests(ph, Transcripts(transcribe, chunks))
    ensures s.chunkBytes > 0 ==> |acc| < s.chunkBytes
    ensures forall i :: 0 <= i < |chunks| ==> s.chunkBytes <= |chunks[i]|
  {
    acc, chunks, requests, consumed, stopped := [], [], [], 0, false;
    TracksStart(s, ph, transcribe, polls);
    while consumed < |polls| && !stopped
      invariant Tracks(s, ph, transcribe, polls, chunks, requests, acc, consumed, stopped)
      decreases |polls| - consumed
    {
      var acc', chunk, found, stop := HandlePoll(s, ph, transcribe, acc, polls[consumed]);
      TracksAdvance(s, ph, transcribe, polls, chunks, requests, acc, consumed, acc', chunk, found, stop);
      if chunk.Some? {
        chunks := chunks + [chunk.value];
      }
      acc, requests, consumed, stopped := acc', requests + found, consumed + 1, stop;
    }
    TracksFinish(s, ph, transcribe, polls, chunks, requests, acc, consumed, stopped);
  }

  /**
    One pass of the loop body: a timeout changes nothing, the sentinel asks
    to stop, and a frame is appended, then purged when stale, or else, once
    the threshold is reached, transcribed, run through the phrase detector
    and reset. `found` holds the volume requests the detector made.
   */
  method HandlePoll(s: Settings, ph: PhraseDetector.Phrases, transcribe: seq<byte> -> seq<string>, acc: seq<byte>, p: Poll)
    returns (acc': seq<byte>, chunk: Option<seq<byte>>, found: seq<PhraseDetector.Level>, stop: bool)
    ensures StepResult(acc', chunk, stop) == Step(s, acc, p)
    ensures found == if chunk.Some? then PhraseDetector.DetectKeywords(ph, transcribe(chunk.value)).requests else []
  {
    acc', chunk, found, stop := acc, None, [], false;
    if p.Got? {
      var entry, now := p.entry, p.now;
      if entry.Sentinel? {
        stop := true;
      } else {
        acc' := acc' + entry.data;
        var delay := now - entry.capturedAt;
        if delay > s.maxDelay {
          acc' := [];
        } else if |acc'| >= s.chunkBytes {
          found := PhraseDetector.DetectKeywords(ph, transcribe(acc')).requests;
          chunk := Some(acc');
          acc' := [];
        }
      }
    }
  }

  /** Run unfolded by one poll. */
  lemma RunUnfold(s: Settings, acc: seq<byte>, polls: seq<Poll>)
    requires |polls| > 0
    ensures Step(s, acc, polls[0]).stop ==> Run(s, acc, polls) == Outcome(acc, [], 1, true)
    ensures !Step(s, acc, polls[0]).stop ==>
              Run(s, acc, polls) ==
              Resume(if Step(s, acc, polls[0]).chunk.Some? then [Step(s, acc, polls[0]).chunk.value] else [],
                     1, Run(s, Step(s, acc, polls[0]).acc, polls[1..]))
  {
  }

  /**
    The loop invariant of AudioProcessor: after `consumed` polls, going on
    from `acc` with the polls that are left gives the fold over all of them,
    and `requests` are the detector's requests for the chunks so far.
   */
  ghost predicate Tracks(s: Settings, ph: PhraseDetector.Phrases, transcribe: seq<byte> -> seq<string>, polls: seq<Poll>,
                         chunks: seq<seq<byte>>, requests: seq<PhraseDetector.Level>, acc: seq<byte>, consumed: nat, stopped: bool)
  {
    && consumed <= |polls|
    && (stopped ==> Outcome(acc, chunks, consumed, true) == Run(s, [], polls))
    && (!stopped ==> Resume(chunks, consumed, Run(s, acc, polls[consumed..])) == Run(s, [], polls))
    && requests == PhraseDetector.ChunkRequests(ph, Transcripts(transcribe, chunks))
  }

  /** Before the first poll nothing has been taken. */
  lemma TracksStart(s: Settings, ph: PhraseDetector.Phrases, transcribe: seq<byte> -> seq<string>, polls: seq<Poll>)
    ensures Tracks(s, ph, transcribe, polls, [], [], [], 0, false)
  {
    assert polls[0..] == polls;
    assert Resume([], 0, Run(s, [], polls[0..])) == Run(s, [], polls);
  }

  /** One pass of the loop body keeps the invariant. */
  lemma TracksAdvance(s: Settings, ph: PhraseDetector.Phrases, transcribe: seq<byte> -> seq<string>, polls: seq<Poll>,
                      chunks: seq<seq<byte>>, requests: seq<PhraseDetector.Level>, acc: seq<byte>, consumed: nat,
                      acc': seq<byte>, chunk: Option<seq<byte>>, found: seq<PhraseDetector.Level>, stop: bool)
    requires Tracks(s, ph, transcribe, polls, chunks, requests, acc, consumed, false) && consumed < |polls|
    requires StepResult(acc', chunk, stop) == Step(s, acc, polls[consumed])
    requires found == if chunk.Some? then PhraseDetector.DetectKeywords(ph, transcribe(chunk.value)).requests else []
    ensures Tracks(s, ph, transcribe, polls, if chunk.Some? then chunks + [chunk.value] else chunks,
                   requests + found, acc', consumed + 1, stop)
  {
    var emitted := if chunk.Some? then [chunk.value] else [];
    assert chunks + emitted == if chunk.Some? then chunks + [chunk.value] else chunks;
    if stop {
      SentinelSettles(s, polls, consumed, chunks, acc);
      assert requests + found == requests;
    } else {
      StepAdvances(s, polls, consumed, chunks, acc, acc', emitted);
      if chunk.Some? {
        RequestsExtend(ph, transcribe, chunks, chunk.value);
      } else {
        assert requests + found == requests;
      }
    }
  }

  /** When the loop ends, the invariant gives the outcome of the whole fold. */
  lemma TracksFinish(s: Settings, ph: PhraseDetector.Phrases, transcribe: seq<byte> -> seq<string>, polls: seq<Poll>,
                     chunks: seq<seq<byte>>, requests: seq<PhraseDetector.Level>, acc: seq<byte>, consumed: nat, stopped: bool)
    requires Tracks(s, ph, transcribe, polls, chunks, requests, acc, consumed, stopped)
    requires consumed == |polls| || stopped
    ensures Run(s, [], polls) == Outcome(acc, chunks, consumed, stopped)
    ensures requests == PhraseDetector.ChunkRequests(ph, Transcripts(transcribe, chunks))
    ensures s.chunkBytes > 0 ==> |acc| < s.chunkBytes
    ensures forall i :: 0 <= i < |chunks| ==> s.chunkBytes <= |chunks[i]|
  {
    if !stopped {
      assert polls[consumed..] == [];
      assert chunks + [] == chunks;
    }
    RunKeepsBound(s, [], polls);
    RunChunksReachThreshold(s, [], polls);
  }

  /** A poll that does not stop the loop moves the fold on by one step. */
  lemma StepAdvances(s: Settings, polls: seq<Poll>, i: nat, done: seq<seq<byte>>, acc: seq<byte>,
                     acc': seq<byte>, emitted: seq<seq<byte>>)
    requires i < |polls| && Resume(done, i, Run(s, acc, polls[i..])) == Run(s, [], polls)
    requires !Step(s, acc, polls[i]).stop && Step(s, acc, polls[i]).acc == acc'
    requires emitted == if Step(s, acc, polls[i]).chunk.Some? then [Step(s, acc, polls[i]).chunk.value] else []
    ensures Resume(done + emitted, i + 1, Run(s, acc', polls[i + 1..])) == Run(s, [], polls)
  {
    var tail := polls[i..];
    RunUnfold(s, acc, tail);
    assert tail[0] == polls[i];
    assert tail[1..] == polls[i + 1..];
    var rest := Run(s, acc', polls[i + 1..]);
    assert Run(s, acc, tail) == Resume(emitted, 1, rest);
    assert (done + emitted) + rest.chunks == done + (emitted + rest.chunks);
  }

  /** The detector's requests for one more chunk are appended to those for the chunks before it. */
  lemma RequestsExtend(ph: PhraseDetector.Phrases, transcribe: seq<byte> -> seq<string>, chunks: seq<seq<byte>>, c: seq<byte>)
    ensures PhraseDetector.ChunkRequests(ph, Transcripts(transcribe, chunks + [c])) ==
            PhraseDetector.ChunkRequests(ph, Transcripts(transcribe, chunks)) +
            PhraseDetector.DetectKeywords(ph, transcribe(c)).requests
  {
    assert Transcripts(transcribe, chunks + [c]) == Transcripts(transcribe, chunks) + [transcribe(c)];
    PhraseDetector.LastChunkWins(ph, PhraseDetector.Low, Transcripts(transcribe, chunks), transcribe(c));
  }

  /** The sentinel at poll `i` fixes the outcome of the loop. */
  lemma SentinelSettles(s: Settings, polls: seq<Poll>, i: nat, done: seq<seq<byte>>, acc: seq<byte>)
    requires i < |polls| && Resume(done, i, Run(s, acc, polls[i..])) == Run(s, [], polls)
    requires Step(s, acc, polls[i]).stop
    ensures Outcome(acc, done, i + 1, true) == Run(s, [], polls)
  {
    RunUnfold(s, acc, polls[i..]);
    assert polls[i..][0] == polls[i];
  }

  /** Combines the chunks and polls already handled with the outcome of running the rest. */
  function Resume(done: seq<seq<byte>>, taken: nat, o: Outcome): Outcome
  {
    Outcome(o.acc, done + o.chunks, taken + o.consumed, o.stopped)
  }

  // ---------------------------------------------------------------------------
  // One step

  /** A stale frame empties the accumulator whatever it held, and emits nothing even at the threshold. */
  lemma StaleFramePurges(s: Settings, acc: seq<byte>, data: seq<byte>, capturedAt: int, now: int)
    requires now - capturedAt > s.maxDelay
    ensures Step(s, acc, Got(Frame(data, capturedAt), now)) == StepResult([], None, false)
  {
  }

  /** A fresh frame that brings the accumulator to the threshold emits all of it, with nothing carried over. */
  lemma FullAccumulatorEmitted(s: Settings, acc: seq<byte>, data: seq<byte>, capturedAt: int, now: int)
    requires now - capturedAt <= s.maxDelay && |acc + data| >= s.chunkBytes
    ensures Step(s, acc, Got(Frame(data, capturedAt), now)) == StepResult([], Some(acc + data), false)
  {
  }

  /** A fresh frame that leaves the accumulator below the threshold is appended and nothing is emitted. */
  lemma PartialAccumulatorKept(s: Settings, acc: seq<byte>, data: seq<byte>, capturedAt: int, now: int)
    requires now - capturedAt <= s.maxDelay && |acc + data| < s.chunkBytes
    ensures Step(s, acc, Got(Frame(data, capturedAt), now)) == StepResult(acc + data, None, false)
  {
  }

  /** A timeout leaves the accumulator unchanged; the sentinel stops the loop and emits nothing. */
  lemma TimeoutAndSentinel(s: Settings, acc: seq<byte>, now: int)
    ensures Step(s, acc, Timeout) == StepResult(acc, None, false)
    ensures Step(s, acc, Got(Sentinel, now)) == StepResult(acc, None, true)
  {
  }

  /**
    Below the threshold before a step, an emitted chunk is the old
    accumulator followed by the whole frame, and is at least the threshold
    but shorter than the threshold plus that frame.
   */
  lemma EmittedChunkBounds(s: Settings, acc: seq<byte>, p: Poll)
    requires |acc| < s.chunkBytes && Step(s, acc, p).chunk.Some?
    ensures p.Got? && p.entry.Frame?
    ensures Step(s, acc, p).chunk.value == acc + p.entry.data
    ensures s.chunkBytes <= |Step(s, acc, p).chunk.value| < s.chunkBytes + |p.entry.data|
  {
  }

  /** Every step keeps the accumulator below the threshold. */
  lemma StepKeepsBound(s: Settings, acc: seq<byte>, p: Poll)
    requires s.chunkBytes > 0 && |acc| < s.chunkBytes
    ensures |Step(s, acc, p).acc| < s.chunkBytes
  {
  }

  // ---------------------------------------------------------------------------
  // The whole loop

  /** Between polls the accumulator always stays below the threshold. */
  lemma {:induction false} RunKeepsBound(s: Settings, acc: seq<byte>, polls: seq<Poll>)
    requires s.chunkBytes > 0 ==> |acc| < s.chunkBytes
    ensures s.chunkBytes > 0 ==> |Run(s, acc, polls).acc| < s.chunkBytes
    decreases |polls|
  {
    if |polls| > 0 && !Step(s, acc, polls[0]).stop {
      RunKeepsBound(s, Step(s, acc, polls[0]).acc, polls[1..]);
    }
  }

  /** Every emitted chunk is at least the threshold long. */
  lemma {:induction false} RunChunksReachThreshold(s: Settings, acc: seq<byte>, polls: seq<Poll>)
    ensures forall i :: 0 <= i < |Run(s, acc, polls).chunks| ==> s.chunkBytes <= |Run(s, acc, polls).chunks[i]|
    decreases |polls|
  {
    if |polls| > 0 && !Step(s, acc, polls[0]).stop {
      RunChunksReachThreshold(s, Step(s, acc, polls[0]).acc, polls[1..]);
    }
  }

  // ---------------------------------------------------------------------------
  // Chunk sizes and contents

  /** The length of the longest frame among the polls (0 when there is none). */
  function LongestFrame(polls: seq<Poll>): (n: nat)
    ensures forall i :: 0 <= i < |polls| && polls[i].Got? && polls[i].entry.Frame? ==> |polls[i].entry.data| <= n
  {
    if |polls| == 0 then 0
    else
      var here := if polls[0].Got? && polls[0].entry.Frame? then |polls[0].entry.data| else 0;
      var rest := LongestFrame(polls[1..]);
      assert forall i :: 0 < i < |polls| ==> polls[1..][i - 1] == polls[i];
      if here < rest then rest else here
  }

  /** Every emitted chunk is at least the threshold and shorter than the threshold plus the longest frame. */
  lemma {:induction false} RunChunkBounds(s: Settings, acc: seq<byte>, polls: seq<Poll>)
    requires |acc| < s.chunkBytes
    ensures forall i :: 0 <= i < |Run(s, acc, polls).chunks| ==>
              s.chunkBytes <= |Run(s, acc, polls).chunks[i]| < s.chunkBytes + LongestFrame(polls)
    decreases |polls|
  {
    if |polls| > 0 && !Step(s, acc, polls[0]).stop {
      var r := Step(s, acc, polls[0]);
      StepKeepsBound(s, acc, polls[0]);
      RunChunkBounds(s, r.acc, polls[1..]);
      assert forall i :: 0 < i < |polls| ==> polls[1..][i - 1] == polls[i];
      assert LongestFrame(polls[1..]) <= LongestFrame(polls) by {
        if |polls[1..]| > 0 {
          assert forall i :: 0 <= i < |polls[1..]| && polls[1..][i].Got? && polls[1..][i].entry.Frame? ==>
                   |polls[1..][i].entry.data| <= LongestFrame(polls);
        }
      }
      if r.chunk.Some? {
        EmittedChunkBounds(s, acc, polls[0]);
      }
    }
  }

  /** The bytes of the frames among the polls, in order. */
  function FrameBytes(polls: seq<Poll>): seq<byte>
  {
    if |polls| == 0 then []
    else FrameData(polls[0]) + FrameBytes(polls[1..])
  }

  /** All chunks laid end to end. */
  function Flatten(chunks: seq<seq<byte>>): seq<byte>
  {
    if |chunks| == 0 then [] else chunks[0] + Flatten(chunks[1..])
  }

  /** No frame among the polls arrives too late. */
  predicate NoStaleFrame(s: Settings, polls: seq<Poll>)
  {
    forall i :: 0 <= i < |polls| && polls[i].Got? && polls[i].entry.Frame? ==>
      !IsStale(s, polls[i].entry.capturedAt, polls[i].now)
  }

  /**
    When no frame is stale, no byte is lost, duplicated or reordered: the
    chunks followed by the final accumulator are the starting accumulator
    followed by the bytes of every frame taken, so chunks are cut only
    between whole frames.
   */
  lemma {:induction false} RunConservesBytes(s: Settings, acc: seq<byte>, polls: seq<Poll>)
    requires NoStaleFrame(s, polls)
    ensures Flatten(Run(s, acc, polls).chunks) + Run(s, acc, polls).acc ==
            acc + FrameBytes(polls[..Run(s, acc, polls).consumed])
    decreases |polls|
  {
    var o := Run(s, acc, polls);
    if |polls| == 0 {
      assert polls[..0] == [];
    } else {
      var r := Step(s, acc, polls[0]);
      RunUnfold(s, acc, polls);
      FrameBytesPrefix(polls, o.consumed);
      var head := FrameData(polls[0]);
      if r.stop {
        assert polls[..1][1..] == [];
      } else {
        var rest := Run(s, r.acc, polls[1..]);
        assert NoStaleFrame(s, polls[1..]) by {
          assert forall i :: 0 <= i < |polls| - 1 ==> polls[1..][i] == polls[i + 1];
        }
        RunConservesBytes(s, r.acc, polls[1..]);
        var tail := FrameBytes(polls[1..][..rest.consumed]);
        var emitted := if r.chunk.Some? then [r.chunk.value] else [];
        assert Flatten(emitted) + r.acc == acc + head by {
          if r.chunk.Some? {
            assert emitted[1..] == [];
          } else {
            assert r.acc == acc + head;
          }
        }
        ConserveStep(acc, head, emitted, r.acc, rest.chunks, rest.acc, tail);
      }
    }
  }

  /** The bytes a single poll contributes: a frame's data, nothing otherwise. */
  function FrameData(p: Poll): seq<byte>
  {
    if p.Got? && p.entry.Frame? then p.entry.data else []
  }

  lemma FrameBytesPrefix(polls: seq<Poll>, n: nat)
    requires 1 <= n <= |polls|
    ensures FrameBytes(polls[..n]) == FrameData(polls[0]) + FrameBytes(polls[1..][..n - 1])
  {
    assert polls[..n][0] == polls[0];
    assert polls[..n][1..] == polls[1..][..n - 1];
  }

  /**
    One step of the fold keeps the bytes in order: what the step emitted and
    kept is the old accumulator and the frame, and what the rest of the run
    emits and keeps is the kept bytes and the frames after it.
   */
  lemma ConserveStep(acc: seq<byte>, head: seq<byte>, emitted: seq<seq<byte>>, kept: seq<byte>,
                     chunks: seq<seq<byte>>, rest: seq<byte>, tail: seq<byte>)
    requires |emitted| <= 1
    requires Flatten(emitted) + kept == acc + head
    requires Flatten(chunks) + rest == kept + tail
    ensures Flatten(emitted + chunks) + rest == acc + (head + tail)
  {
    if |emitted| == 1 {
      assert (emitted + chunks)[1..] == chunks;
      assert emitted[1..] == [];
      assert Flatten(emitted + chunks) == Flatten(emitted) + Flatten(chunks);
    } else {
      assert emitted + chunks == chunks;
    }
    calc {
      Flatten(emitted + chunks) + rest;
      (Flatten(emitted) + Flatten(chunks)) + rest;
      Flatten(emitted) + (kept + tail);
      (Flatten(emitted) + kept) + tail;
      (acc + head) + tail;
    }
  }

  // ---------------------------------------------------------------------------
  // Shutdown and idle polls

  /** The poll is the shutdown sentinel. */
  predicate IsSentinel(p: Poll)
  {
    p.Got? && p.entry.Sentinel?
  }

  /**
    The loop stops exactly when a sentinel arrives, and then right after the
    first one; without one it takes every poll.
   */
  lemma {:induction false} RunStopsAtFirstSentinel(s: Settings, acc: seq<byte>, polls: seq<Poll>)
    ensures Run(s, acc, polls).stopped <==> exists i :: 0 <= i < |polls| && IsSentinel(polls[i])
    ensures Run(s, acc, polls).stopped ==>
              1 <= Run(s, acc, polls).consumed && IsSentinel(polls[Run(s, acc, polls).consumed - 1]) &&
              forall j :: 0 <= j < Run(s, acc, polls).consumed - 1 ==> !IsSentinel(polls[j])
    ensures !Run(s, acc, polls).stopped ==> Run(s, acc, polls).consumed == |polls|
    decreases |polls|
  {
    if |polls| > 0 && !Step(s, acc, polls[0]).stop {
      RunStopsAtFirstSentinel(s, Step(s, acc, polls[0]).acc, polls[1..]);
      assert forall i :: 0 < i < |polls| ==> polls[1..][i - 1] == polls[i];
      assert !IsSentinel(polls[0]);
    }
  }

  /** Once the sentinel has stopped the loop, nothing that follows it is processed. */
  lemma {:induction false} NothingAfterSentinel(s: Settings, acc: seq<byte>, polls: seq<Poll>, later: seq<Poll>)
    requires Run(s, acc, polls).stopped
    ensures Run(s, acc, polls + later) == Run(s, acc, polls)
    decreases |polls|
  {
    assert (polls + later)[0] == polls[0];
    if !Step(s, acc, polls[0]).stop {
      assert (polls + later)[1..] == polls[1..] + later;
      NothingAfterSentinel(s, Step(s, acc, polls[0]).acc, polls[1..], later);
    }
  }

  /** The polls with every timeout removed. */
  function WithoutTimeouts(polls: seq<Poll>): seq<Poll>
  {
    if |polls| == 0 then []
    else (if polls[0].Timeout? then [] else [polls[0]]) + WithoutTimeouts(polls[1..])
  }

  /** Timeouts are invisible: removing them changes neither the chunks, nor the accumulator, nor the stop. */
  lemma {:induction false} TimeoutsChangeNothing(s: Settings, acc: seq<byte>, polls: seq<Poll>)
    ensures Run(s, acc, WithoutTimeouts(polls)).acc == Run(s, acc, polls).acc
    ensures Run(s, acc, WithoutTimeouts(polls)).chunks == Run(s, acc, polls).chunks
    ensures Run(s, acc, WithoutTimeouts(polls)).stopped == Run(s, acc, polls).stopped
    decreases |polls|
  {
    if |polls| > 0 {
      TimeoutsChangeNothing(s, Step(s, acc, polls[0]).acc, polls[1..]);
      if !polls[0].Timeout? {
        var w := WithoutTimeouts(polls);
        assert w == [polls[0]] + WithoutTimeouts(polls[1..]);
        assert w[0] == polls[0] && w[1..] == WithoutTimeouts(polls[1..]);
        RunUnfold(s, acc, polls);
        RunUnfold(s, acc, w);
      } else {
        assert WithoutTimeouts(polls) == WithoutTimeouts(polls[1..]);
      }
    }
  }

  // ---------------------------------------------------------------------------
  // Frames of one size

  /** Every poll is a fresh frame of `size` bytes. */
  predicate FreshFramesOfSize(s: Settings, polls: seq<Poll>, size: nat)
  {
    forall i :: 0 <= i < |polls| ==>
      polls[i].Got? && polls[i].entry.Frame? && |polls[i].entry.data| == size &&
      !IsStale(s, polls[i].entry.capturedAt, polls[i].now)
  }

  /** How many frames of `size` bytes it takes to reach the threshold. */
  function FramesPerChunk(chunkBytes: nat, size: nat): nat
    requires size > 0
  {
    (chunkBytes + size - 1) / size
  }

  /** FramesPerChunk is the ceiling of chunkBytes / size. */
  lemma CeilingBounds(chunkBytes: nat, size: nat)
    requires chunkBytes > 0 && size > 0
    ensures FramesPerChunk(chunkBytes, size) >= 1
    ensures (FramesPerChunk(chunkBytes, size) - 1) * size < chunkBytes <= FramesPerChunk(chunkBytes, size) * size
  {
    var k := FramesPerChunk(chunkBytes, size);
    var r := (chunkBytes + size - 1) % size;
    assert chunkBytes + size - 1 == k * size + r;
    assert (k - 1) * size == k * size - size;
  }

  /** Fewer than k frames of `size` bytes stay below the threshold. */
  lemma BelowCeiling(chunkBytes: nat, size: nat, m: nat)
    requires chunkBytes > 0 && size > 0 && m < FramesPerChunk(chunkBytes, size)
    ensures m * size < chunkBytes
  {
    CeilingBounds(chunkBytes, size);
    var k := FramesPerChunk(chunkBytes, size);
    assert m * size <= (k - 1) * size;
  }

  /**
    Starting from `m` frames already accumulated, with `m + N == j * k + r`
    fresh frames in all: exactly `j` chunks of `k` frames each, and `r` frames left.
   */
  lemma {:induction false} UniformFramesFrom(s: Settings, acc: seq<byte>, polls: seq<Poll>, size: nat, m: nat, j: nat, r: nat)
    requires s.chunkBytes > 0 && size > 0 && FreshFramesOfSize(s, polls, size)
    requires m < FramesPerChunk(s.chunkBytes, size) && |acc| == m * size
    requires r < FramesPerChunk(s.chunkBytes, size) && m + |polls| == j * FramesPerChunk(s.chunkBytes, size) + r
    ensures |Run(s, acc, polls).chunks| == j
    ensures |Run(s, acc, polls).acc| == r * size
    ensures forall i :: 0 <= i < j ==> |Run(s, acc, polls).chunks[i]| == FramesPerChunk(s.chunkBytes, size) * size
    ensures Run(s, acc, polls).consumed == |polls| && !Run(s, acc, polls).stopped
    decreases |polls|
  {
    var k := FramesPerChunk(s.chunkBytes, size);
    CeilingBounds(s.chunkBytes, size);
    if |polls| == 0 {
      NoWholeChunk(m, j, k, r);
    } else {
      var p := polls[0];
      assert p.Got? && p.entry.Frame? && |p.entry.data| == size;
      var grown := acc + p.entry.data;
      MulSucc(m, size);
      assert FreshFramesOfSize(s, polls[1..], size) by {
        assert forall i :: 0 <= i < |polls| - 1 ==> polls[1..][i] == polls[i + 1];
      }
      RunUnfold(s, acc, polls);
      if m + 1 < k {
        BelowCeiling(s.chunkBytes, size, m + 1);
        assert Step(s, acc, p) == StepResult(grown, None, false);
        UniformFramesFrom(s, grown, polls[1..], size, m + 1, j, r);
      } else {
        assert Step(s, acc, p) == StepResult([], Some(grown), false);
        OneWholeChunk(m, j, k, r, |polls|);
        UniformFramesFrom(s, [], polls[1..], size, 0, j - 1, r);
      }
    }
  }

  lemma MulSucc(m: nat, size: nat)
    ensures (m + 1) * size == m * size + size
  {
  }

  lemma NoWholeChunk(m: nat, j: nat, k: nat, r: nat)
    requires m < k && m == j * k + r
    ensures j == 0 && r == m
  {
  }

  lemma OneWholeChunk(m: nat, j: nat, k: nat, r: nat, n: nat)
    requires m + 1 == k && n >= 1 && r < k && m + n == j * k + r
    ensures j >= 1 && 0 + (n - 1) == (j - 1) * k + r
  {
    assert (j - 1) * k == j * k - k;
  }

  /**
    Frames of one size `size` and no carry-over: N fresh frames give exactly
    N / k chunks, where k is the number of frames needed to reach the
    threshold, each of k frames; the last N % k frames stay in the accumulator.
   */
  lemma UniformFramesChunkCount(s: Settings, polls: seq<Poll>, size: nat)
    requires s.chunkBytes > 0 && size > 0 && FreshFramesOfSize(s, polls, size)
    ensures |Run(s, [], polls).chunks| == |polls| / FramesPerChunk(s.chunkBytes, size)
    ensures |Run(s, [], polls).acc| == (|polls| % FramesPerChunk(s.chunkBytes, size)) * size
    ensures forall i :: 0 <= i < |Run(s, [], polls).chunks| ==>
              |Run(s, [], polls).chunks[i]| == FramesPerChunk(s.chunkBytes, size) * size
  {
    var k := FramesPerChunk(s.chunkBytes, size);
    CeilingBounds(s.chunkBytes, size);
    UniformFramesFrom(s, [], polls, size, 0, |polls| / k, |polls| % k);
  }

  /**
    Chunks of 64000 bytes (2 s at 16000 samples/s, 2 bytes/sample) and 70
    fresh frames of 1000 bytes: one chunk of exactly 64000 bytes, and the
    remaining 6000 bytes wait in the accumulator.
   */
  lemma SixtyFourThousandScenario(polls: seq<Poll>, maxDelay: int)
    requires |polls| == 70 && FreshFramesOfSize(Settings(64000, maxDelay), polls, 1000)
    ensures |Run(Settings(64000, maxDelay), [], polls).chunks| == 1
    ensures |Run(Settings(64000, maxDelay), [], polls).chunks[0]| == 64000
    ensures |Run(Settings(64000, maxDelay), [], polls).acc| == 6000
  {
    UniformFramesChunkCount(Settings(64000, maxDelay), polls, 1000);
    assert FramesPerChunk(64000, 1000) == 64;
  }

  /** Chunks of at least `lo` bytes each: laid end to end they hold at least |chunks| * lo bytes. */
  lemma {:induction false} FlattenAtLeast(chunks: seq<seq<byte>>, lo: nat)
    requires forall i :: 0 <= i < |chunks| ==> lo <= |chunks[i]|
    ensures |chunks| * lo <= |Flatten(chunks)|
    ensures |chunks| == 1 ==> Flatten(chunks) == chunks[0]
    decreases |chunks|
  {
    if |chunks| > 0 {
      FlattenAtLeast(chunks[1..], lo);
      assert (|chunks| - 1) * lo + lo == |chunks| * lo;
      if |chunks| == 1 {
        assert chunks[1..] == [];
      }
    }
  }

  /**
    Fresh frames of any sizes, no sentinel, at least one threshold's worth
    of bytes and less than two: exactly one chunk is emitted, and it is the
    bytes that arrived first, the rest waiting in the accumulator.
   */
  lemma OneChunkBelowTwoThresholds(s: Settings, polls: seq<Poll>)
    requires 0 < s.chunkBytes <= |FrameBytes(polls)| < 2 * s.chunkBytes
    requires NoStaleFrame(s, polls) && forall i :: 0 <= i < |polls| ==> !IsSentinel(polls[i])
    ensures |Run(s, [], polls).chunks| == 1
    ensures s.chunkBytes <= |Run(s, [], polls).chunks[0]| <= |FrameBytes(polls)|
    ensures Run(s, [], polls).chunks[0] + Run(s, [], polls).acc == FrameBytes(polls)
  {
    var o := Run(s, [], polls);
    RunStopsAtFirstSentinel(s, [], polls);
    RunConservesBytes(s, [], polls);
    assert polls[..o.consumed] == polls;
    RunKeepsBound(s, [], polls);
    RunChunksReachThreshold(s, [], polls);
    FlattenAtLeast(o.chunks, s.chunkBytes);
    assert |Flatten(o.chunks)| + |o.acc| == |FrameBytes(polls)|;
    assert o.chunks != [];
  }

  /** 70000 bytes of fresh frames of any sizes against a 64000-byte threshold: one chunk of 64000 to 70000 bytes. */
  lemma SeventyThousandBytesScenario(polls: seq<Poll>, maxDelay: int)
    requires |FrameBytes(polls)| == 70000 && NoStaleFrame(Settings(64000, maxDelay), polls)
    requires forall i :: 0 <= i < |polls| ==> !IsSentinel(polls[i])
    ensures |Run(Settings(64000, maxDelay), [], polls).chunks| == 1
    ensures 64000 <= |Run(Settings(64000, maxDelay), [], polls).chunks[0]| <= 70000
  {
    OneChunkBelowTwoThresholds(Settings(64000, maxDelay), polls);
  }

  /**
    The shipped settings: a threshold of 264600 bytes. Buffers of 2048 bytes
    (1024 samples of 16-bit mono audio) need 130 of them per chunk, so N
    fresh buffers give N / 130 chunks of 266240 bytes each.
   */
  lemma DefaultSettingsChunks(polls: seq<Poll>)
    requires FreshFramesOfSize(DefaultSettings, polls, 2048)
    ensures DefaultSettings.chunkBytes == 264600 && DefaultSettings.maxDelay == 10
    ensures |Run(DefaultSettings, [], polls).chunks| == |polls| / 130
    ensures |Run(DefaultSettings, [], polls).acc| == (|polls| % 130) * 2048
    ensures forall i :: 0 <= i < |Run(DefaultSettings, [], polls).chunks| ==> |Run(DefaultSettings, [], polls).chunks[i]| == 266240
  {
    UniformFramesChunkCount(DefaultSettings, polls, 2048);
    assert FramesPerChunk(264600, 2048) == 130;
  }
}
