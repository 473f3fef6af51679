/** The rate-limit gate and the voice choice of `speakText`
    (src/content/audio.ts). Synthesis itself is a call into the speech SDK
    and is not part of this model; an accepted call reports the voice it
    would use. */
module Audio {
  import opened Wrappers

  /** Minimum spacing, in milliseconds, between accepted calls. */
  const DebounceInterval := 300
  const JapaneseVoice := "ja-JP-NanamiNeural"
  const EnglishVoice := "en-US-JennyNeural"

  /** The call at `now` goes ahead unless it comes less than 300 ms after
      the last accepted one. */
  predicate Accepts(lastSpeakTime: int, now: int)
    ensures Accepts(lastSpeakTime, now) <==> lastSpeakTime + DebounceInterval <= now
  {
    !(now - lastSpeakTime < DebounceInterval)
  }

  /** The class of the `isJapanese` test: hiragana, katakana and Han up to
      U+9FAF. */
  predicate IsJapaneseChar(c: char) {
    var n := c as int;
    (0x3040 <= n <= 0x309F) || (0x30A0 <= n <= 0x30FF) || (0x4E00 <= n <= 0x9FAF)
  }

  /** `isJapanese.test(text)`. */
  function HasJapanese(text: string): (r: bool)
    ensures r <==> exists i :: 0 <= i < |text| && IsJapaneseChar(text[i])
  {
    if text == [] then false
    else if IsJapaneseChar(text[0]) then true
    else
      assert forall i :: 1 <= i < |text| ==> text[i] == text[1..][i - 1];
      HasJapanese(text[1..])
  }

  /** `options?.voicerName || voicerName`: a non-empty requested voice wins;
      otherwise the Japanese voice for text with kana or Han, the English
      voice for anything else. */
  function ChooseVoice(text: string, voicerName: Option<string>): (voice: string)
    ensures voicerName.Some? && voicerName.value != "" ==> voice == voicerName.value
    ensures (voicerName.None? || voicerName.value == "") ==>
      (voice == JapaneseVoice <==> exists i :: 0 <= i < |text| && IsJapaneseChar(text[i]))
    ensures (voicerName.None? || voicerName.value == "") ==> voice in {JapaneseVoice, EnglishVoice}
  {
    if voicerName.Some? && voicerName.value != "" then voicerName.value
    else if HasJapanese(text) then JapaneseVoice
    else EnglishVoice
  }

  /** Han characters past U+9FAF are outside the class, so on their own
      they get the English voice. */
  lemma LateHanGetsEnglishVoice()
    ensures ChooseVoice("龰", None) == EnglishVoice
  {
    assert !IsJapaneseChar("龰"[0]);
  }

  /** The times of the accepted calls among calls made at `times`, starting
      from `lastSpeakTime`. */
  function AcceptedCalls(lastSpeakTime: int, times: seq<int>): (accepted: seq<int>)
    ensures |accepted| <= |times|
    decreases |times|
  {
    if times == [] then []
    else if Accepts(lastSpeakTime, times[0]) then [times[0]] + AcceptedCalls(times[0], times[1..])
    else AcceptedCalls(lastSpeakTime, times[1..])
  }

  /** Accepted calls are at least 300 ms after the starting time and after
      each other; each is one of the calls made. The comparison is always
      with the last accepted call, so this holds for any clock. */
  lemma {:induction false} AcceptedCallsSpaced(lastSpeakTime: int, times: seq<int>)
    ensures var accepted := AcceptedCalls(lastSpeakTime, times);
      && (|accepted| > 0 ==> accepted[0] - lastSpeakTime >= DebounceInterval)
      && (forall k :: 0 <= k < |accepted| - 1 ==> accepted[k + 1] - accepted[k] >= DebounceInterval)
      && (forall k :: 0 <= k < |accepted| ==> accepted[k] in times)
    decreases |times|
  {
    if times != [] {
      AcceptedCallsSpaced(times[0], times[1..]);
      AcceptedCallsSpaced(lastSpeakTime, times[1..]);
      var accepted := AcceptedCalls(lastSpeakTime, times);
      forall k | 0 <= k < |accepted|
        ensures accepted[k] in times
      {
        assert times == [times[0]] + times[1..];
      }
    }
  }

  /** The accepted calls from the `i`-th call on: that call, when it goes
      ahead, followed by those after it. */
  lemma AcceptedCallsStep(lastSpeakTime: int, times: seq<int>, i: nat)
    requires i < |times|
    ensures AcceptedCalls(lastSpeakTime, times[i..])
         == if Accepts(lastSpeakTime, times[i]) then [times[i]] + AcceptedCalls(times[i], times[i + 1..])
            else AcceptedCalls(lastSpeakTime, times[i + 1..])
  {
    assert times[i..][1..] == times[i + 1..];
  }

  /** One more call in a run: an accepted call joins the accepted ones and
      becomes the time the rest are measured from; an ignored one changes
      nothing. */
  lemma SpeakEachStep(previous: seq<int>, last: int, start: int, times: seq<int>, i: nat)
    requires i < |times|
    requires previous + AcceptedCalls(last, times[i..]) == AcceptedCalls(start, times)
    ensures Accepts(last, times[i]) ==>
      (previous + [times[i]]) + AcceptedCalls(times[i], times[i + 1..]) == AcceptedCalls(start, times)
    ensures !Accepts(last, times[i]) ==>
      previous + AcceptedCalls(last, times[i + 1..]) == AcceptedCalls(start, times)
  {
    AcceptedCallsStep(last, times, i);
    if Accepts(last, times[i]) {
      assert previous + ([times[i]] + AcceptedCalls(times[i], times[i + 1..]))
          == (previous + [times[i]]) + AcceptedCalls(times[i], times[i + 1..]);
    }
  }

  /** `lastSpeakTime` and the gate in front of the synthesis. */
  class Speaker {
    var lastSpeakTime: int

    constructor ()
      ensures lastSpeakTime == 0
    {
      lastSpeakTime := 0;
    }

    /** `speakText` at time `now`: an ignored call changes nothing; an
        accepted one records `now` and speaks with the chosen voice. */
    method SpeakText(text: string, voicerName: Option<string>, now: int) returns (voice: Option<string>)
      modifies this
      ensures voice.Some? <==> Accepts(old(lastSpeakTime), now)
      ensures voice.Some? ==> lastSpeakTime == now && voice.value == ChooseVoice(text, voicerName)
      ensures voice.None? ==> lastSpeakTime == old(lastSpeakTime)
    {
      if now - lastSpeakTime < DebounceInterval {
        return None;
      }
      lastSpeakTime := now;
      var isJapanese := HasJapanese(text);
      var defaultVoice := if isJapanese then JapaneseVoice else EnglishVoice;
      voice := Some(if voicerName.Some? && voicerName.value != "" then voicerName.value else defaultVoice);
    }

    /** `speakText` called at each of `times`, oldest first: the calls that
        go ahead are exactly those `AcceptedCalls` picks, and
        `lastSpeakTime` ends at the last of them. */
    method SpeakEach(text: string, voicerName: Option<string>, times: seq<int>) returns (accepted: seq<int>)
      modifies this
      ensures accepted == AcceptedCalls(old(lastSpeakTime), times)
      ensures lastSpeakTime == if accepted == [] then old(lastSpeakTime) else accepted[|accepted| - 1]
    {
      ghost var start := lastSpeakTime;
      accepted := [];
      var i := 0;
      while i < |times|
        invariant 0 <= i <= |times|
        invariant accepted + AcceptedCalls(lastSpeakTime, times[i..]) == AcceptedCalls(start, times)
        invariant lastSpeakTime == if accepted == [] then start else accepted[|accepted| - 1]
      {
        SpeakEachStep(accepted, lastSpeakTime, start, times, i);
        var voice := SpeakText(text, voicerName, times[i]);
        if voice.Some? {
          accepted := accepted + [times[i]];
        }
        i := i + 1;
      }
      assert times[|times|..] == [];
    }
  }
}
