/**
  The phrase detector: after a chunk has been transcribed into segment
  texts, scan the activation phrases and then the deactivation phrases and
  request a volume level for each decision. The volume actuator itself is a
  no-op, so each call is recorded as a requested level.
 */
module PhraseDetector {
  import opened Wrappers
  import opened Text

  /** The two output gain levels. */
  datatype Level = Low | High

  const VolumeLevelLow: int := 30
  const VolumeLevelHigh: int := 70

  /** The integer volume passed to the actuator for each level. */
  function Volume(l: Level): (v: int)
    ensures v == VolumeLevelLow <==> l == Low
    ensures v == VolumeLevelHigh <==> l == High
  {
    match l
    case Low => VolumeLevelLow
    case High => VolumeLevelHigh
  }

  /** The two ordered phrase lists the detector is configured with. */
  datatype Phrases = Phrases(activation: seq<string>, deactivation: seq<string>)

  /** The configuration the program ships with. */
  const KeyPhrases := Phrases(
    ["hello", "hi", "thank you for waiting", "thank you for holding",
     "are you still there", "are you there", "you hear me", "hear you"],
    ["did you know", "for more information", "if you need", "sorry",
     "unfortunately", "busy", "app", "website", "the"])

  /** `phrase` occurs in the lower-cased text of some segment. */
  ghost predicate Matches(phrase: string, segments: seq<string>)
  {
    exists i :: 0 <= i < |segments| && Contains(Lower(segments[i]), phrase)
  }

  /** Python's `any(phrase in s.lower() for s in segments)`. */
  function AnySegment(phrase: string, segments: seq<string>): (r: bool)
    ensures r <==> Matches(phrase, segments)
  {
    if |segments| == 0 then false
    else
      assert forall i :: 0 < i < |segments| ==> segments[1..][i - 1] == segments[i];
      Contains(Lower(segments[0]), phrase) || AnySegment(phrase, segments[1..])
  }

  /**
    The activation scan: the index of the first phrase, in list order, that
    matches some segment, or None when no phrase matches.
   */
  function FirstMatch(phrases: seq<string>, segments: seq<string>): (r: Option<nat>)
    ensures r.Some? ==> r.value < |phrases| && Matches(phrases[r.value], segments)
    ensures r.Some? ==> forall j :: 0 <= j < r.value ==> !Matches(phrases[j], segments)
    ensures r.None? <==> forall j :: 0 <= j < |phrases| ==> !Matches(phrases[j], segments)
  {
    if |phrases| == 0 then None
    else if AnySegment(phrases[0], segments) then Some(0)
    else
      assert forall j :: 0 < j < |phrases| ==> phrases[1..][j - 1] == phrases[j];
      match FirstMatch(phrases[1..], segments)
      case None => None
      case Some(k) => Some(k + 1)
  }

  /**
    The indices from `k` on of all phrases that match some segment, in
    increasing order: a reference description of which deactivation
    phrases fire.
   */
  function MatchedFrom(phrases: seq<string>, segments: seq<string>, k: nat): seq<nat>
    decreases |phrases| - k
  {
    if k >= |phrases| then []
    else (if AnySegment(phrases[k], segments) then [k] else []) + MatchedFrom(phrases, segments, k + 1)
  }

  /** All matching phrase indices, in increasing order. */
  function MatchedPhrases(phrases: seq<string>, segments: seq<string>): seq<nat>
  {
    MatchedFrom(phrases, segments, 0)
  }

  /** MatchedFrom lists exactly the matching indices from `k` on, each once and in increasing order. */
  lemma {:induction false} MatchedFromSpec(phrases: seq<string>, segments: seq<string>, k: nat)
    ensures forall i :: 0 <= i < |MatchedFrom(phrases, segments, k)| ==>
              k <= MatchedFrom(phrases, segments, k)[i] < |phrases| &&
              Matches(phrases[MatchedFrom(phrases, segments, k)[i]], segments)
    ensures forall j :: k <= j < |phrases| && Matches(phrases[j], segments) ==> j in MatchedFrom(phrases, segments, k)
    ensures forall i, j :: 0 <= i < j < |MatchedFrom(phrases, segments, k)| ==>
              MatchedFrom(phrases, segments, k)[i] < MatchedFrom(phrases, segments, k)[j]
    decreases |phrases| - k
  {
    if k < |phrases| {
      var rest := MatchedFrom(phrases, segments, k + 1);
      MatchedFromSpec(phrases, segments, k + 1);
      var head: seq<nat> := if AnySegment(phrases[k], segments) then [k] else [];
      assert MatchedFrom(phrases, segments, k) == head + rest;
      assert forall i :: 0 <= i < |rest| ==> k < rest[i];
    }
  }

  /**
    The deactivation scan as the program runs it: one LOW request for every
    phrase that matches, without stopping at the first match.
   */
  function LowRequests(phrases: seq<string>, segments: seq<string>): (r: seq<Level>)
    ensures |r| <= |phrases|
    ensures forall i :: 0 <= i < |r| ==> r[i] == Low
    ensures r != [] <==> exists k :: 0 <= k < |phrases| && Matches(phrases[k], segments)
  {
    if |phrases| == 0 then []
    else
      assert forall k :: 0 < k < |phrases| ==> phrases[1..][k - 1] == phrases[k];
      (if AnySegment(phrases[0], segments) then [Low] else []) + LowRequests(phrases[1..], segments)
  }

  /** What one call of the detector decides: its return value and the levels it requested. */
  datatype Detection = Detection(activated: bool, requests: seq<Level>)

  /**
    `detect_keywords` after transcription: the first matching activation
    phrase requests HIGH and returns true; otherwise every matching
    deactivation phrase requests LOW and the result is false.
   */
  function DetectKeywords(ph: Phrases, segments: seq<string>): (r: Detection)
    ensures r.activated <==> exists k :: 0 <= k < |ph.activation| && Matches(ph.activation[k], segments)
    ensures r.activated ==> r.requests == [High]
    ensures !r.activated ==> forall i :: 0 <= i < |r.requests| ==> r.requests[i] == Low
    ensures !r.activated ==>
              (r.requests != [] <==> exists k :: 0 <= k < |ph.deactivation| && Matches(ph.deactivation[k], segments))
  {
    if FirstMatch(ph.activation, segments).Some? then Detection(true, [High])
    else Detection(false, LowRequests(ph.deactivation, segments))
  }

  /** The GainState after a sequence of requests: the last one wins, none leaves it unchanged. */
  function Apply(g: Level, requests: seq<Level>): (r: Level)
    ensures r == g || r in requests
  {
    if requests == [] then g else requests[|requests| - 1]
  }

  /** The requests issued while processing a sequence of transcribed chunks, in order. */
  function ChunkRequests(ph: Phrases, transcripts: seq<seq<string>>): seq<Level>
  {
    if transcripts == [] then []
    else ChunkRequests(ph, transcripts[..|transcripts| - 1]) + DetectKeywords(ph, transcripts[|transcripts| - 1]).requests
  }

  /** Each deactivation phrase that matches issues exactly one LOW request, and nothing else is issued. */
  lemma LowRequestsCount(phrases: seq<string>, segments: seq<string>)
    ensures |LowRequests(phrases, segments)| == |MatchedPhrases(phrases, segments)|
    ensures forall i :: 0 <= i < |LowRequests(phrases, segments)| ==> LowRequests(phrases, segments)[i] == Low
  {
    LowRequestsFrom(phrases, segments, 0);
  }

  lemma {:induction false} LowRequestsFrom(phrases: seq<string>, segments: seq<string>, k: nat)
    requires k <= |phrases|
    ensures |LowRequests(phrases[k..], segments)| == |MatchedFrom(phrases, segments, k)|
    ensures forall i :: 0 <= i < |LowRequests(phrases[k..], segments)| ==> LowRequests(phrases[k..], segments)[i] == Low
    decreases |phrases| - k
  {
    if k < |phrases| {
      assert phrases[k..][1..] == phrases[k + 1..];
      LowRequestsFrom(phrases, segments, k + 1);
    }
  }

  /** An activation phrase that matches makes the result true with exactly one request, HIGH. */
  lemma ActivationWins(ph: Phrases, segments: seq<string>, k: nat)
    requires k < |ph.activation| && Matches(ph.activation[k], segments)
    ensures DetectKeywords(ph, segments) == Detection(true, [High])
  {
  }

  /**
    Without an activation match the result is false and the LOW requests
    number exactly the matching deactivation phrases; no HIGH is requested.
   */
  lemma NoActivationLowPerMatch(ph: Phrases, segments: seq<string>)
    requires forall j :: 0 <= j < |ph.activation| ==> !Matches(ph.activation[j], segments)
    ensures !DetectKeywords(ph, segments).activated
    ensures |DetectKeywords(ph, segments).requests| == |MatchedPhrases(ph.deactivation, segments)|
    ensures forall i :: 0 <= i < |DetectKeywords(ph, segments).requests| ==> DetectKeywords(ph, segments).requests[i] == Low
  {
    LowRequestsCount(ph.deactivation, segments);
  }

  /** The GainState after one chunk: HIGH on an activation match, else LOW on a deactivation match, else unchanged. */
  lemma GainAfterDetection(ph: Phrases, segments: seq<string>, g: Level)
    ensures Apply(g, DetectKeywords(ph, segments).requests) ==
            if exists k :: 0 <= k < |ph.activation| && Matches(ph.activation[k], segments) then High
            else if exists k :: 0 <= k < |ph.deactivation| && Matches(ph.deactivation[k], segments) then Low
            else g
  {
    if FirstMatch(ph.activation, segments).None? {
      DeactivationGain(ph.deactivation, segments, g);
    }
  }

  /** Apart from an activation, the deactivation scan leaves LOW exactly when some phrase matches. */
  lemma {:induction false} DeactivationGain(phrases: seq<string>, segments: seq<string>, g: Level)
    ensures Apply(g, LowRequests(phrases, segments)) ==
            if exists k :: 0 <= k < |phrases| && Matches(phrases[k], segments) then Low else g
  {
    if |phrases| > 0 {
      DeactivationGain(phrases[1..], segments, g);
      assert forall k :: 0 < k < |phrases| ==> phrases[1..][k - 1] == phrases[k];
      var rest := LowRequests(phrases[1..], segments);
      if AnySegment(phrases[0], segments) {
        assert LowRequests(phrases, segments) == [Low] + rest;
        assert rest == [] || rest[|rest| - 1] == Low by {
          LowRequestsCount(phrases[1..], segments);
        }
      }
    }
  }

  /**
    The GainState as the program changes it: each `set_volume` call
    overwrites it in turn, starting from `g`.
   */
  function Overwrite(g: Level, requests: seq<Level>): Level
    decreases |requests|
  {
    if requests == [] then g else Overwrite(requests[0], requests[1..])
  }

  /** Applying the requests one call after another leaves the last request, or `g` when there is none. */
  lemma {:induction false} CallsInTurnLastWins(g: Level, requests: seq<Level>)
    ensures Overwrite(g, requests) == Apply(g, requests)
    decreases |requests|
  {
    if requests != [] {
      CallsInTurnLastWins(requests[0], requests[1..]);
      if requests[1..] != [] {
        assert requests[1..][|requests[1..]| - 1] == requests[|requests| - 1];
      }
    }
  }

  /** Processing one more chunk: the chunks before it are summarised by the GainState they left. */
  lemma {:induction false} LastChunkWins(ph: Phrases, g: Level, transcripts: seq<seq<string>>, t: seq<string>)
    ensures ChunkRequests(ph, transcripts + [t]) == ChunkRequests(ph, transcripts) + DetectKeywords(ph, t).requests
    ensures Apply(g, ChunkRequests(ph, transcripts + [t])) ==
            Apply(Apply(g, ChunkRequests(ph, transcripts)), DetectKeywords(ph, t).requests)
  {
    assert (transcripts + [t])[..|transcripts|] == transcripts;
  }

  /** With activation [a1, a2] and deactivation [d1], a transcript matching a2 and d1 ends HIGH. */
  lemma PriorityExample(a1: string, a2: string, d1: string, segments: seq<string>, g: Level)
    requires Matches(a2, segments) && Matches(d1, segments)
    ensures DetectKeywords(Phrases([a1, a2], [d1]), segments) == Detection(true, [High])
    ensures Apply(g, DetectKeywords(Phrases([a1, a2], [d1]), segments).requests) == High
  {
    ActivationWins(Phrases([a1, a2], [d1]), segments, 1);
  }

  /**
    With the shipped phrases, "hi" occurs inside "this", so a segment whose
    lower-cased text contains "this" activates the detector.
   */
  lemma ThisActivatesShippedPhrases(segments: seq<string>, k: nat)
    requires k < |segments| && Contains(Lower(segments[k]), "this")
    ensures DetectKeywords(KeyPhrases, segments) == Detection(true, [High])
  {
    var text := Lower(segments[k]);
    var i: nat :| OccursAt(text, "this", i);
    assert text[i..i + 4] == "this";
    assert text[i + 1..i + 3] == text[i..i + 4][1..3];
    assert OccursAt(text, "hi", i + 1);
    assert Contains(text, "hi");
    assert KeyPhrases.activation[1] == "hi";
    ActivationWins(KeyPhrases, segments, 1);
  }
}
