# Hold-for-me audio pipeline, modelled in Dafny

The program listens to a virtual audio device (BlackHole or Soundflower).
It cuts the captured audio into chunks of about three seconds and has each
chunk transcribed. It then drives a two-level volume (LOW 30, HIGH 70) from
the phrases it finds: "hello" or "are you still there" mean a person has
picked up the call, "did you know" or "sorry" mean hold music or a
recorded message.

This project models the decision logic of that pipeline. The audio device,
the speech-to-text engine and the clock become plain inputs.

- `capture.dfy` (module `Capture`): the audio frames and queue entries. It
  has the FIFO queue between the audio callback and the consumer thread as
  a class (`FrameQueue`, with `Put`, `Get` and the consumer's successive
  gets, `Drain`), the callback that stamps and enqueues each buffer, and the
  shutdown sentinel.
- `chunk_assembler.dfy` (module `ChunkAssembler`): the consumer loop
  `audio_processor`. `Step` is one iteration as a function:
  `(accumulator, poll) -> (accumulator', chunk?, stop?)`. `Run` folds it over
  a sequence of polls. `AudioProcessor` is the loop itself as a method with a
  `while` loop, proved equal to `Run`. It also runs the phrase detector on
  every chunk it emits. The lemmas cover the staleness purge, the chunk-size
  bounds, byte conservation (frames are never split), the sentinel, timeouts
  and the chunk count for frames of one size.
- `phrase_detector.dfy` (module `PhraseDetector`): `detect_keywords` after
  transcription. The activation scan stops at the first match. The
  deactivation scan requests LOW once for every matching phrase. The
  GainState is the last requested level.
- `device_selection.dfy` (module `DeviceSelection`): the search for the
  first virtual device, and startup refusing to run without one.
- `text.dfy` (module `Text`): Python's substring test and `lower()`.
- `wrappers.dfy` (module `Wrappers`): `Option`.

Inputs that stand in for the outside world:
- The clock is the integer `now` carried by each `Got` poll. It is the
  reading of `time.time()` right after the entry was dequeued.
- A queue timeout is the poll `Timeout`.
- The transcription engine is the function parameter `transcribe` of
  `AudioProcessor`. It maps the bytes of a chunk to the segment texts.
- The device list is a `seq<string>` of device names in index order.
- Each `set_volume` call is an element of a list of requested levels.

Three points where a quick reading of the program could suggest something
else; the model follows what the code does:
- The deactivation scan could be read as stopping at the first match.
  The loop at main.py:83-87 has no `break`, so it requests LOW once for
  every matching phrase. `LowRequestsCount` states this.
- The number of chunks could be taken to be `floor(N*S / chunkBytes)` for
  N frames of S bytes. The accumulator is emptied after each chunk
  (main.py:125), so nothing carries over. The code gives `N / k` chunks,
  where `k = ceil(chunkBytes / S)` is the number of frames needed to reach
  the threshold. For example, S = 3 and chunkBytes = 4 give 2 chunks from
  4 frames, not 3. `UniformFramesChunkCount` proves the code's count.
- A failed transcription could be expected to count as "no phrase". The
  code does not catch exceptions from `model.transcribe` (main.py:68, 124);
  one would end the consumer thread. Here transcription is a total
  function, so this path is not modelled (see below).

Two remarks the proofs bring out, both kept as the code has them:
- The "soundflower" test is case-sensitive (main.py:147). So a device named
  "Soundflower (2ch)" is not selected (`CapitalisedSoundflowerNotSelected`),
  while "BlackHole 2ch" is.
- Phrases are matched as substrings (main.py:76). With the shipped lists,
  "hi" occurs inside "this", so any segment containing "this" raises the
  volume (`ThisActivatesShippedPhrases`).

## Model

| member | source | states |
|---|---|---|
| Capture.FrameQueue.constructor | main.py:139 | the queue starts empty |
| Capture.FrameQueue.Put | main.py:133 | an enqueued entry goes to the back; nothing is dropped |
| Capture.FrameQueue.Get | main.py:99 | the oldest entry is returned with the clock reading and removed; an empty queue gives a timeout and stays empty |
| Capture.Drain | main.py:97-99 | successive gets return the entries in exactly the order they were put, then timeouts; the queue keeps what was not taken |
| Capture.Callback | main.py:132-134 | the callback enqueues the buffer stamped with the current time and returns the buffer with the continue flag |
| Capture.Shutdown | main.py:181 | the sentinel is enqueued behind every waiting frame |
| Text.Lower | main.py:76 | `str.lower()` on ASCII: same length, no capital left, each capital becomes its lower-case letter, every other character unchanged |
| Text.Contains | main.py:76 | Python's `in` on strings: true exactly when the needle occurs at some position of the haystack |
| PhraseDetector.Volume | main.py:24-25 | LOW maps to volume 30 and HIGH to 70, and no other level maps to either |
| PhraseDetector.LowRequests | main.py:83-87 | the deactivation scan requests only LOW, at most once per phrase, and requests something exactly when some phrase matches some segment |
| PhraseDetector.DetectKeywords | main.py:66-89 | the result is true exactly when some activation phrase matches, and then the only request is HIGH; otherwise every request is LOW, and there is one exactly when some deactivation phrase matches |
| PhraseDetector.Apply | main.py:59-62 | the GainState after a batch of `set_volume` calls is the state before or one of the requested levels |
| PhraseDetector.CallsInTurnLastWins | main.py:79-87 | making the calls one after another, each overwriting the GainState, leaves the last requested level, or the state before when there is none |
| PhraseDetector.ChunkRequests | main.py:113-125 | the requests of successive chunks in order; `LastChunkWins` states that each chunk's requests follow those of the chunks before it |
| PhraseDetector.ThisActivatesShippedPhrases | main.py:27-36 | with the shipped lists, a segment containing "this" activates the detector, because "hi" occurs inside it |
| PhraseDetector.AnySegment | main.py:76 | the `any(...)` test is true exactly when the phrase occurs in the lower-cased text of some segment |
| PhraseDetector.FirstMatch | main.py:75-80 | the activation scan finds the smallest index of a matching phrase, and None exactly when no phrase matches |
| PhraseDetector.MatchedFromSpec | main.py:83-87 | the reference list of matching deactivation indices holds each matching index once, only matching ones, in increasing order |
| PhraseDetector.LowRequestsCount | main.py:83-87 | the deactivation scan issues exactly one LOW request per matching phrase and nothing else |
| PhraseDetector.ActivationWins | main.py:75-80 | if any activation phrase matches, the result is true with exactly one request, HIGH, and no LOW |
| PhraseDetector.NoActivationLowPerMatch | main.py:83-89 | with no activation match the result is false and the LOW requests number exactly the matching deactivation phrases |
| PhraseDetector.DeactivationGain | main.py:83-87 | after the deactivation scan the GainState is LOW if some phrase matched and unchanged otherwise |
| PhraseDetector.GainAfterDetection | main.py:74-89 | after one chunk the GainState is HIGH on an activation match, else LOW on a deactivation match, else unchanged |
| PhraseDetector.LastChunkWins | main.py:113-125 | each chunk's requests are appended after the earlier chunks', so the GainState after a chunk depends only on the state before it and that chunk |
| PhraseDetector.PriorityExample | main.py:75-87 | with activation [a1, a2] and deactivation [d1], a transcript matching a2 and d1 ends HIGH with a single request |
| DeviceSelection.IsVirtualDevice | main.py:147 | a name passes exactly when "soundflower" occurs in it as written or "blackhole" occurs in its lower-cased form |
| DeviceSelection.SelectDevice | main.py:144-149 | the chosen index is the smallest one whose name passes the soundflower/blackhole test, and None exactly when no name passes |
| DeviceSelection.StartListener | main.py:144-165 | startup refuses exactly when no virtual device exists; otherwise it listens on the first one and requests LOW |
| DeviceSelection.CapitalisedSoundflowerNotSelected | main.py:147 | "Soundflower (2ch)" fails the test, since "soundflower" is matched case-sensitively |
| DeviceSelection.BlackHoleSelectedInAnyCase | main.py:147 | "BlackHole 2ch" passes the test, since "blackhole" is matched after lower-casing |
| ChunkAssembler.Step | main.py:99-125 | one pass stops exactly on the sentinel, and then changes nothing; an emitted chunk is the old accumulator followed by the frame, at least the threshold long, and leaves the accumulator empty |
| ChunkAssembler.Run | main.py:97-128 | the loop takes every poll unless it stops, and it stops only after taking at least the sentinel's poll |
| ChunkAssembler.Transcripts | main.py:124 | the transcription engine is applied to every chunk, in order |
| ChunkAssembler.AudioProcessor | main.py:93-128 | the consumer loop computes exactly the fold `Run` of the step over the polls, runs detection on every chunk in order, keeps the accumulator below the threshold and emits only chunks of at least the threshold |
| ChunkAssembler.HandlePoll | main.py:99-125 | one pass of the loop body does exactly what one step of the fold does, and the detector runs on the emitted chunk and only then |
| ChunkAssembler.IsStale | main.py:105-107 | the staleness test; what it does to the accumulator is stated by `StaleFramePurges` |
| ChunkAssembler.StaleFramePurges | main.py:102-110 | a stale frame leaves the accumulator empty and emits nothing, whatever it held before and even at the threshold |
| ChunkAssembler.FullAccumulatorEmitted | main.py:113-125 | a fresh frame that reaches the threshold emits the whole accumulator with the frame, and leaves it empty with no carry-over |
| ChunkAssembler.PartialAccumulatorKept | main.py:102-116 | a fresh frame below the threshold is appended and nothing is emitted |
| ChunkAssembler.TimeoutAndSentinel | main.py:99-128 | a timeout (main.py:127-128) leaves the accumulator unchanged; the sentinel (main.py:99-101) stops the loop without emitting a chunk |
| ChunkAssembler.EmittedChunkBounds | main.py:102-125 | an emitted chunk is the previous accumulator followed by the whole frame, at least the threshold and shorter than the threshold plus the frame |
| ChunkAssembler.StepKeepsBound | main.py:102-125 | every step keeps the accumulator below the threshold |
| ChunkAssembler.RunKeepsBound | main.py:97-128 | between polls the accumulator stays below the threshold for the whole loop |
| ChunkAssembler.RunChunksReachThreshold | main.py:113-116 | every emitted chunk is at least the threshold long |
| ChunkAssembler.RunChunkBounds | main.py:102-125 | every emitted chunk is at least the threshold and shorter than the threshold plus the longest frame |
| ChunkAssembler.RunConservesBytes | main.py:102-125 | without stale frames the chunks laid end to end, then the accumulator, are exactly the frames' bytes in order |
| ChunkAssembler.RunStopsAtFirstSentinel | main.py:99-101 | the loop stops exactly when a sentinel arrives, right after the first one; without one it takes every poll |
| ChunkAssembler.NothingAfterSentinel | main.py:99-101 | polls that follow the sentinel change nothing |
| ChunkAssembler.TimeoutsChangeNothing | main.py:127-128 | removing the timeouts changes neither the chunks, nor the accumulator, nor whether the loop stopped |
| ChunkAssembler.UniformFramesFrom | main.py:102-125 | from m frames held, m + N = j*k + r frames of one size give j chunks of k frames and leave r frames |
| ChunkAssembler.UniformFramesChunkCount | main.py:102-125 | N fresh frames of one size give N / k chunks of k frames each and leave N % k frames, with k the frames needed to reach the threshold |
| ChunkAssembler.OneChunkBelowTwoThresholds | main.py:102-125 | fresh frames of any sizes, no sentinel, between one and two thresholds' worth of bytes: exactly one chunk, at least the threshold long, holding the bytes that arrived first, the rest waiting in the accumulator |
| ChunkAssembler.SeventyThousandBytesScenario | main.py:102-125 | 70000 bytes of fresh frames of any sizes against a 64000-byte threshold give one chunk of 64000 to 70000 bytes |
| ChunkAssembler.DefaultSettingsChunks | main.py:18-21 | the shipped threshold is 264600 bytes and the delay 10 s; N fresh buffers of 2048 bytes give N / 130 chunks of 266240 bytes |
| ChunkAssembler.SixtyFourThousandScenario | main.py:113-125 | with a 64000-byte threshold, 70 frames of 1000 bytes give one chunk of 64000 bytes and keep 6000 |

## Left out

- Opening, starting, stopping and closing the PyAudio stream, enumerating devices, and the sleep loop while the stream is active (main.py:141-185). These are I/O and lifecycle plumbing. Devices are a list of names.
- Loading Whisper and transcribing (main.py:55, 68). This is a foreign ML call, modelled as the function parameter `transcribe`. An exception raised by it would end the consumer thread in the program. That path is not modelled.
- Writing each chunk to a temporary WAV file (main.py:95, 118-122). This is filesystem I/O. The chunk is its byte sequence.
- Threads, the blocking `queue.get` with its one-second timeout, and `join` (main.py:168-182). The queue is a FIFO sequence. A timeout is the poll `Timeout`.
- The consumer loop runs forever until the sentinel. The model processes a finite sequence of polls (`AudioProcessor`, `Run`) and reports whether the sentinel was reached.
- `time.time()` and the floating-point threshold (main.py:105-106, 115, 133). Times are integers, and the threshold is the integer 3 * 44100 * 2 = 264600. That is exactly the float the program compares against.
- Logging (main.py:71-72, 77-78, 85-86, 108, 152, 164, 179).
- The body of `set_volume`, which does nothing (main.py:59-62). Each call is recorded as a requested level.
- Text.Lower: folds ASCII letters only. Python's `str.lower()` also folds non-ASCII letters, and some of them become ASCII: U+212A (KELVIN SIGN) becomes "k", and U+0130 becomes "i" followed by U+0307. So a segment such as "Hİ" contains "hi" after Python's lower-casing but not after the model's, and such texts can match a phrase in the program and not in the model.
- The phrase lists (main.py:27-48) are configuration data. They appear as the constant `PhraseDetector.KeyPhrases`. The lemmas hold for any lists, except `ThisActivatesShippedPhrases`, which is about the shipped ones.
- The size of each captured buffer is not set in main.py (main.py:155-162 passes no buffer size), so PyAudio's default decides it. Frames in the model have any size. `DefaultSettingsChunks` assumes buffers of 2048 bytes as an example.
