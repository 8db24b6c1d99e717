/**
  The producer side of the pipeline: raw audio frames, the FIFO queue that
  carries them to the consumer thread, and the audio callback that fills it.
 */
module Capture {

  /** One byte of 16-bit PCM audio as delivered by the capture device. */
  newtype byte = x: int | 0 <= x < 256

  /**
    An entry of the audio queue: a captured frame with the wall-clock time
    at which the callback saw it, or the `(None, None)` shutdown sentinel.
   */
  datatype Entry = Frame(data: seq<byte>, capturedAt: int) | Sentinel

  /**
    The outcome of one `audio_queue.get(timeout=...)` by the consumer:
    an entry together with the clock reading `now` taken right after it,
    or a timeout because the queue stayed empty.
   */
  datatype Poll = Got(entry: Entry, now: int) | Timeout

  /** The value the callback hands back to the audio subsystem: keep streaming. */
  datatype StreamFlag = Continue

  /** The unbounded FIFO queue shared by the producer and the consumer. */
  class FrameQueue {
    var entries: seq<Entry>

    constructor ()
      ensures entries == []
    {
      entries := [];
    }

    /** `put`: never blocks and never drops; the entry goes to the back. */
    method Put(e: Entry)
      modifies this
      ensures entries == old(entries) + [e]
    {
      entries := entries + [e];
    }

    /**
      `get` with a timeout, at clock reading `now`: the oldest entry when
      there is one, otherwise a timeout that leaves the queue as it was.
     */
    method Get(now: int) returns (p: Poll)
      modifies this
      ensures old(entries) == [] ==> p == Timeout && entries == []
      ensures old(entries) != [] ==> p == Got(old(entries)[0], now) && entries == old(entries)[1..]
    {
      if entries == [] {
        p := Timeout;
      } else {
        p := Got(entries[0], now);
        entries := entries[1..];
      }
    }
  }

  /**
    The consumer's successive `get` calls at clock readings `clock`: while
    entries remain each call returns the oldest one, in the order they were
    put, and once the queue is empty every call times out.
   */
  method Drain(q: FrameQueue, clock: seq<int>) returns (polls: seq<Poll>)
    modifies q
    ensures |polls| == |clock|
    ensures forall i :: 0 <= i < |clock| ==>
              polls[i] == if i < |old(q.entries)| then Got(old(q.entries)[i], clock[i]) else Timeout
    ensures q.entries == if |clock| <= |old(q.entries)| then old(q.entries)[|clock|..] else []
  {
    polls := [];
    var i := 0;
    while i < |clock|
      invariant 0 <= i <= |clock| && |polls| == i
      invariant forall j :: 0 <= j < i ==>
                  polls[j] == if j < |old(q.entries)| then Got(old(q.entries)[j], clock[j]) else Timeout
      invariant q.entries == if i <= |old(q.entries)| then old(q.entries)[i..] else []
    {
      var p := q.Get(clock[i]);
      polls := polls + [p];
      i := i + 1;
    }
  }

  /**
    The audio callback: stamps the incoming buffer with the current time,
    enqueues it and returns the buffer unchanged with the continue flag.
   */
  method Callback(q: FrameQueue, inData: seq<byte>, now: int) returns (outData: seq<byte>, flag: StreamFlag)
    modifies q
    ensures q.entries == old(q.entries) + [Frame(inData, now)]
    ensures outData == inData && flag == Continue
  {
    q.Put(Frame(inData, now));
    outData, flag := inData, Continue;
  }

  /** Shutdown: the sentinel is enqueued behind every frame already waiting. */
  method Shutdown(q: FrameQueue)
    modifies q
    ensures q.entries == old(q.entries) + [Sentinel]
  {
    q.Put(Sentinel);
  }
}
