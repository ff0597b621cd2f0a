/**
 * The `WordCounter` class of script.js: the state the page keeps between
 * events and the handlers that change it. The speech recogniser is not
 * modelled; whether the browser offers one, and whether its `start` throws,
 * are parameters, and what it reports arrives as `SpeechEvent` values.
 */
module Counter {

  import opened Wrappers
  import opened JsText
  import opened TargetWords
  import opened Tally
  import opened Recognition
  import opened Listening

  const NotSupported := "Speech recognition not supported in this browser"
  const NotAvailable := "Speech recognition not available"
  const StartError := "Error starting speech recognition"
  const ListeningNow := "Listening... Speak now!"
  const Stopped := "Stopped listening"
  const ResetDone := "All counters reset"

  /** The results of `e` the loop has visited once its index has reached `i`. */
  ghost function Visited(e: SpeechEvent, i: nat): seq<SpeechResult> {
    if e.resultIndex <= i <= |e.results| then e.results[e.resultIndex..i] else []
  }

  class WordCounter {
    /** Whether the browser offers a speech recogniser (`this.recognition` is not null). */
    const speechSupported: bool
    var isListening: bool
    /** `this.wordCounts`. */
    var wordCounts: map<string, Tally>
    var targetWords: seq<string>
    var transcript: string
    /** The counter elements, keyed by their `data-word`. */
    var shown: map<string, Shown>
    /** The last confidence put in the confidence element, if any. */
    var confidence: Option<real>
    /** The text of the status line. */
    var status: string

    /**
     * The target words are what parsing yields, there is one counter element
     * per distinct target word, and the map holds no word without an element.
     */
    ghost predicate Valid()
      reads this`targetWords, this`shown, this`wordCounts
    {
      && (forall w :: w in targetWords ==> IsTargetWord(w))
      && shown.Keys == (set w | w in targetWords)
      && wordCounts.Keys <= shown.Keys
    }

    /** The map and the counter elements, as one value. */
    function Store(): Board
      reads this`wordCounts, this`shown
    {
      Board(wordCounts, shown)
    }

    /**
     * `new WordCounter()`: `initializeSpeechRecognition`, then `bindEvents`
     * (which parses the initial content of the word input), then
     * `initializeCounters` once more.
     */
    constructor (supported: bool, initialStatus: string, input: string)
      ensures Valid()
      ensures speechSupported == supported && !isListening
      ensures targetWords == ParseTargetWords(input)
      ensures wordCounts == Zeros(targetWords)
      ensures shown == ZeroShown(targetWords)
      ensures transcript == "" && confidence == None
      ensures status == if supported then initialStatus else NotSupported
    {
      speechSupported := supported;
      isListening := false;
      wordCounts := map[];
      targetWords := [];
      transcript := "";
      shown := map[];
      confidence := None;
      status := initialStatus;
      new;
      if !speechSupported {
        status := NotSupported;
      }
      UpdateTargetWords(input);
      InitializeCounters();
    }

    /** `updateTargetWords`: every earlier count is forgotten, every word starts at 0. */
    method UpdateTargetWords(input: string)
      modifies this`targetWords, this`wordCounts, this`shown
      ensures Valid()
      ensures targetWords == ParseTargetWords(input)
      ensures wordCounts == Zeros(targetWords)
      ensures shown == ZeroShown(targetWords)
    {
      targetWords := ParseTargetWords(input);
      InitializeCounters();
    }

    /** `initializeCounters`: the map and the elements are rebuilt from the target list. */
    method InitializeCounters()
      requires forall w :: w in targetWords ==> IsTargetWord(w)
      modifies this`wordCounts, this`shown
      ensures Valid()
      ensures wordCounts == Zeros(targetWords)
      ensures shown == ZeroShown(targetWords)
    {
      wordCounts := map[];
      shown := map[];
      var i := 0;
      while i < |targetWords|
        invariant 0 <= i <= |targetWords|
        invariant wordCounts == Zeros(targetWords[..i])
        invariant shown == ZeroShown(targetWords[..i])
        invariant targetWords == old(targetWords)
      {
        var w := targetWords[i];
        ZeroStep(targetWords, i);
        wordCounts := wordCounts[w := Num(0)];
        shown := shown[w := Confirmed(Num(0))];
        i := i + 1;
      }
      assert targetWords[..i] == targetWords;
    }

    /**
     * `resetAllCounters`: the map is emptied (and not filled with zeros
     * again), the transcript cleared, and every counter element emptied.
     */
    method ResetAllCounters()
      requires Valid()
      modifies this`wordCounts, this`transcript, this`shown, this`status
      ensures Valid()
      ensures wordCounts == map[] && transcript == ""
      ensures shown.Keys == old(shown.Keys) && forall w :: w in shown ==> shown[w] == Blank
      ensures status == ResetDone
    {
      wordCounts := map[];
      transcript := "";
      UpdateAllCounters();
      status := ResetDone;
    }

    /** `updateAllCounters`: `updateCounterDisplay(word, false)` for every target word. */
    method UpdateAllCounters()
      modifies this`shown
      ensures shown.Keys == old(shown.Keys)
      ensures forall w :: w in shown ==> shown[w] == if w in targetWords then Blank else old(shown)[w]
    {
      var i := 0;
      while i < |targetWords|
        invariant 0 <= i <= |targetWords|
        invariant shown.Keys == old(shown.Keys)
        invariant forall w :: w in shown ==> shown[w] == if w in targetWords[..i] then Blank else old(shown)[w]
      {
        assert targetWords[..i + 1] == targetWords[..i] + [targetWords[i]];
        UpdateCounterDisplay(targetWords[i], false, None);
        i := i + 1;
      }
      assert targetWords[..i] == targetWords;
    }

    /**
     * `updateCounterDisplay`: a preview shows the stored count (0 when it is
     * missing or NaN) plus the fragment's matches; otherwise the element shows
     * the given tally, or nothing when none is given. Nothing happens to a
     * word without an element.
     */
    method UpdateCounterDisplay(word: string, isInterim: bool, count: Option<Tally>)
      requires isInterim ==> count.Some? && count.value.Num?
      modifies this`shown
      ensures shown == Show(old(shown), word,
                            if isInterim then Provisional(Stored(wordCounts, word) + count.value.n)
                            else if count.Some? then Confirmed(count.value) else Blank)
    {
      if word in shown {
        if isInterim {
          shown := shown[word := Provisional(Stored(wordCounts, word) + count.value.n)];
        } else if count.Some? {
          shown := shown[word := Confirmed(count.value)];
        } else {
          shown := shown[word := Blank];
        }
      }
    }

    /** `processTranscript`: one fragment matched against every target word in turn. */
    method ProcessTranscript(fragment: string, isInterim: bool)
      requires Valid()
      modifies this`wordCounts, this`shown
      ensures Valid()
      ensures Store() == Process(old(Store()), targetWords, Words(fragment), isInterim)
    {
      ghost var start := Store();
      if |targetWords| == 0 {
        return;
      }
      var words := Words(fragment);
      var i := 0;
      while i < |targetWords|
        invariant 0 <= i <= |targetWords|
        invariant Store() == Process(start, targetWords[..i], words, isInterim)
      {
        ProcessStep(start, targetWords, i, words, isInterim);
        MatchTarget(targetWords[i], words, isInterim);
        i := i + 1;
      }
      assert targetWords[..i] == targetWords;
      KeepsValid(start, words, isInterim);
    }

    /** The callback of the `forEach` in `processTranscript`, for one target word. */
    method MatchTarget(targetWord: string, words: seq<string>, isInterim: bool)
      modifies this`wordCounts, this`shown
      ensures Store() == Match(old(Store()), targetWord, Count(words, targetWord), isInterim)
    {
      ghost var before := Store();
      var count := Count(words, targetWord);
      if count > 0 {
        if isInterim {
          UpdateCounterDisplay(targetWord, true, Some(Num(count)));
          assert shown == Show(before.shown, targetWord, Provisional(Stored(before.counts, targetWord) + count));
        } else {
          wordCounts := wordCounts[targetWord := Plus(Get(wordCounts, targetWord), count)];
          UpdateCounterDisplay(targetWord, false, Get(wordCounts, targetWord));
        }
      }
    }

    /** Processing a fragment keeps the counter elements and adds only target words to the map. */
    lemma KeepsValid(start: Board, words: seq<string>, isInterim: bool)
      requires start.shown.Keys == (set w | w in targetWords) && start.counts.Keys <= start.shown.Keys
      requires Store() == Process(start, targetWords, words, isInterim)
      ensures shown.Keys == start.shown.Keys && wordCounts.Keys <= shown.Keys
    {
      ProcessKeepsElements(start, targetWords, words, isInterim);
      forall w | w in wordCounts
        ensures w in shown
      {
        if isInterim {
          InterimKeepsCounts(start, targetWords, words);
        } else {
          FinalKeys(start, targetWords, words, w);
        }
      }
    }

    /**
     * `handleSpeechResult`: the results from `resultIndex` on, in order, go
     * to `processTranscript`; the transcript becomes the snapshot; the
     * confidence element takes every positive confidence.
     */
    method HandleSpeechResult(e: SpeechEvent)
      requires |e.results| > 0
      requires Valid()
      modifies this`wordCounts, this`shown, this`transcript, this`confidence
      ensures Valid()
      ensures Store() == FeedAll(old(Store()), targetWords, Pending(e))
      ensures transcript == Snapshot(e)
      ensures confidence == LatestConfidence(old(confidence), Pending(e))
    {
      ghost var start := Store();
      ghost var done: seq<SpeechResult> := [];
      var interimTranscript := "";
      var finalTranscript := "";
      var i := e.resultIndex;
      while i < |e.results|
        invariant e.resultIndex <= i && (i <= |e.results| || i == e.resultIndex)
        invariant done == Visited(e, i)
        invariant Valid()
        invariant Store() == FeedAll(start, targetWords, done)
        invariant finalTranscript == FinalText(done)
        invariant confidence == LatestConfidence(old(confidence), done)
      {
        var r := e.results[i];
        VisitStep(e, i);
        FeedAllSnoc(start, targetWords, done, r);
        FinalTextSnoc(done, r);
        LatestConfidenceSnoc(old(confidence), done, r);
        if r.isFinal {
          finalTranscript := finalTranscript + r.transcript;
        } else {
          interimTranscript := interimTranscript + r.transcript;
        }
        ProcessTranscript(r.transcript, !r.isFinal);
        if r.confidence > 0.0 {
          confidence := Some(r.confidence);
        }
        done := Visited(e, i + 1);
        i := i + 1;
      }
      assert Visited(e, i) == Pending(e);
      var latest := e.results[|e.results| - 1];
      if !latest.isFinal {
        transcript := finalTranscript + " " + latest.transcript;
      } else {
        transcript := finalTranscript;
      }
    }

    /** `recognition.onstart` (the recogniser's handlers exist only when the browser offers one). */
    method OnStart()
      requires speechSupported
      modifies this`isListening, this`status
      ensures isListening == Step(old(isListening), Started)
      ensures status == ListeningNow
    {
      isListening := true;
      status := ListeningNow;
    }

    /** `recognition.onend`: whether `recognition.start()` is called again. */
    method OnEnd() returns (restart: bool)
      requires speechSupported
      ensures restart == Restarts(isListening, Ended)
    {
      restart := isListening;
    }

    /** `stopListening`: whether `recognition.stop()` is called. */
    method StopListening() returns (stopCalled: bool)
      modifies this`isListening, this`status
      ensures isListening == Step(old(isListening), StopClicked)
      ensures stopCalled == speechSupported
      ensures status == Stopped
    {
      isListening := false;
      stopCalled := speechSupported;
      status := Stopped;
    }

    /**
     * `recognition.onerror`: the error is written to the status line and
     * `stopListening` then overwrites it at once.
     */
    method OnError(error: string)
      requires speechSupported
      modifies this`isListening, this`status
      ensures isListening == Step(old(isListening), Failed)
      ensures status == Stopped
    {
      status := "Error: " + error;
      var _ := StopListening();
    }

    /**
     * `startListening`: asks the recogniser to start, which it accepts
     * unless there is none or its `start` throws; the flag itself is left
     * to `onstart`.
     */
    method StartListening(startThrows: bool) returns (accepted: bool)
      modifies this`status
      ensures accepted == (speechSupported && !startThrows)
      ensures isListening == Step(old(isListening), StartClicked)
      ensures status == if !speechSupported then NotAvailable else if startThrows then StartError else old(status)
    {
      if !speechSupported {
        status := NotAvailable;
        return false;
      }
      if startThrows {
        status := StartError;
        return false;
      }
      return true;
    }
  }

  /** The map as `initializeCounters` leaves it: every target word at 0. */
  function Zeros(ws: seq<string>): (m: map<string, Tally>)
    ensures m.Keys == set w | w in ws
    ensures forall w :: w in m ==> m[w] == Num(0)
  {
    map w | w in ws :: Num(0)
  }

  /** The counter elements as `initializeCounters` creates them: every one shows 0. */
  function ZeroShown(ws: seq<string>): (m: map<string, Shown>)
    ensures m.Keys == set w | w in ws
    ensures forall w :: w in m ==> m[w] == Confirmed(Num(0))
  {
    map w | w in ws :: Confirmed(Num(0))
  }

  /** One more word in the rebuilt map and element set. */
  lemma ZeroStep(ws: seq<string>, i: nat)
    requires i < |ws|
    ensures Zeros(ws[..i + 1]) == Zeros(ws[..i])[ws[i] := Num(0)]
    ensures ZeroShown(ws[..i + 1]) == ZeroShown(ws[..i])[ws[i] := Confirmed(Num(0))]
  {
    assert ws[..i + 1] == ws[..i] + [ws[i]];
  }

  lemma ProcessStep(start: Board, ws: seq<string>, i: nat, words: seq<string>, interim: bool)
    requires i < |ws|
    ensures Process(start, ws[..i + 1], words, interim)
         == Match(Process(start, ws[..i], words, interim), ws[i], Count(words, ws[i]), interim)
  {
    assert ws[..i + 1][..i] == ws[..i];
  }

  lemma VisitStep(e: SpeechEvent, i: nat)
    requires e.resultIndex <= i < |e.results|
    ensures Visited(e, i + 1) == Visited(e, i) + [e.results[i]]
  {
  }
}
