/**
 * `handleSpeechResult` (script.js) on values: a recognition event carries the
 * list of results so far and the index of the first one that changed. Every
 * result from that index on is fed to `processTranscript` (final ones for
 * good, interim ones as a preview), the confidence element keeps the last
 * positive confidence, and the transcript becomes a snapshot of the final
 * texts followed by the last result's text when that one is still interim.
 */
module Recognition {

  import opened Wrappers
  import opened Tally

  /** `results[i][0].transcript`, `results[i][0].confidence` and `results[i].isFinal`. */
  datatype SpeechResult = SpeechResult(transcript: string, confidence: real, isFinal: bool)

  /** `event.resultIndex` and `event.results`. */
  datatype SpeechEvent = SpeechEvent(resultIndex: nat, results: seq<SpeechResult>)

  /** The results the loop visits: from `resultIndex` to the end, none if the index is past the end. */
  function Pending(e: SpeechEvent): seq<SpeechResult> {
    if e.resultIndex <= |e.results| then e.results[e.resultIndex..] else []
  }

  /** `finalTranscript` after visiting `rs`: the final texts, concatenated in order. */
  function FinalText(rs: seq<SpeechResult>): string {
    if rs == [] then ""
    else FinalText(rs[..|rs| - 1]) + (if rs[|rs| - 1].isFinal then rs[|rs| - 1].transcript else "")
  }

  /** The new `transcript` field (the access to the last result needs one to exist). */
  function Snapshot(e: SpeechEvent): string
    requires |e.results| > 0
  {
    var latest := e.results[|e.results| - 1];
    if !latest.isFinal then FinalText(Pending(e)) + " " + latest.transcript
    else FinalText(Pending(e))
  }

  /** One result fed to `processTranscript`. */
  function Feed(b: Board, targets: seq<string>, r: SpeechResult): Board {
    Process(b, targets, Words(r.transcript), !r.isFinal)
  }

  /** The results `rs` fed in order. */
  function FeedAll(b: Board, targets: seq<string>, rs: seq<SpeechResult>): Board {
    if rs == [] then b
    else Feed(FeedAll(b, targets, rs[..|rs| - 1]), targets, rs[|rs| - 1])
  }

  /** What the confidence element holds after `rs`: only a positive confidence replaces it. */
  function LatestConfidence(c: Option<real>, rs: seq<SpeechResult>): (r: Option<real>)
    ensures r != c ==> r.Some? && r.value > 0.0
  {
    if rs == [] then c
    else if rs[|rs| - 1].confidence > 0.0 then Some(rs[|rs| - 1].confidence)
    else LatestConfidence(c, rs[..|rs| - 1])
  }

  /** The matches of `w` in the final results of `rs`, independent of any store. */
  function FinalMatches(rs: seq<SpeechResult>, w: string): nat {
    if rs == [] then 0
    else FinalMatches(rs[..|rs| - 1], w) + (if rs[|rs| - 1].isFinal then Count(Words(rs[|rs| - 1].transcript), w) else 0)
  }

  lemma FeedAllSnoc(b: Board, targets: seq<string>, rs: seq<SpeechResult>, r: SpeechResult)
    ensures FeedAll(b, targets, rs + [r]) == Feed(FeedAll(b, targets, rs), targets, r)
  {
    assert (rs + [r])[..|rs|] == rs;
  }

  lemma FinalTextSnoc(rs: seq<SpeechResult>, r: SpeechResult)
    ensures r.isFinal ==> FinalText(rs + [r]) == FinalText(rs) + r.transcript
    ensures !r.isFinal ==> FinalText(rs + [r]) == FinalText(rs)
  {
    assert (rs + [r])[..|rs|] == rs;
  }

  lemma LatestConfidenceSnoc(c: Option<real>, rs: seq<SpeechResult>, r: SpeechResult)
    ensures LatestConfidence(c, rs + [r]) == if r.confidence > 0.0 then Some(r.confidence) else LatestConfidence(c, rs)
  {
    assert (rs + [r])[..|rs|] == rs;
  }

  // ----- the store across one event -----

  lemma Distribute(k: nat, f: nat, c: nat)
    ensures k * (f + c) == k * f + k * c
  {
  }

  lemma AddBatch(v: Option<Tally>, k: nat, f: nat, c: nat)
    ensures Added(Added(v, k * f), k * c) == Added(v, k * (f + c))
  {
    Distribute(k, f, c);
    AddedTwice(v, k * f, k * c);
  }

  /**
   * After an event, the entry of every word has grown by its number of
   * copies in the target list times its matches in the final results; the
   * interim results leave no trace in the store.
   */
  lemma {:induction false} EventAddsFinalMatches(b: Board, targets: seq<string>, rs: seq<SpeechResult>, w: string)
    ensures Get(FeedAll(b, targets, rs).counts, w) == Added(Get(b.counts, w), Count(targets, w) * FinalMatches(rs, w))
    decreases |rs|
  {
    if rs != [] {
      var init := rs[..|rs| - 1];
      var r := rs[|rs| - 1];
      var p := FeedAll(b, targets, init);
      EventAddsFinalMatches(b, targets, init, w);
      assert FeedAll(b, targets, rs) == Feed(p, targets, r);
      if r.isFinal {
        FinalAddsMatches(p, targets, Words(r.transcript), w);
        AddBatch(Get(b.counts, w), Count(targets, w), FinalMatches(init, w), Count(Words(r.transcript), w));
      } else {
        InterimKeepsCounts(p, targets, Words(r.transcript));
      }
    }
  }

  /** An event of interim results only leaves the store exactly as it was. */
  lemma {:induction false} InterimEventKeepsCounts(b: Board, targets: seq<string>, rs: seq<SpeechResult>)
    requires forall i :: 0 <= i < |rs| ==> !rs[i].isFinal
    ensures FeedAll(b, targets, rs).counts == b.counts
    decreases |rs|
  {
    if rs != [] {
      var init := rs[..|rs| - 1];
      InterimEventKeepsCounts(b, targets, init);
      InterimKeepsCounts(FeedAll(b, targets, init), targets, Words(rs[|rs| - 1].transcript));
    }
  }

  /** No entry decreases over an event. */
  lemma EventNeverDecreases(b: Board, targets: seq<string>, rs: seq<SpeechResult>, w: string)
    ensures Grows(Get(b.counts, w), Get(FeedAll(b, targets, rs).counts, w))
  {
    EventAddsFinalMatches(b, targets, rs, w);
    AddedGrows(Get(b.counts, w), Count(targets, w) * FinalMatches(rs, w));
  }

  /** An event never adds nor removes a counter element. */
  lemma {:induction false} EventKeepsElements(b: Board, targets: seq<string>, rs: seq<SpeechResult>)
    ensures FeedAll(b, targets, rs).shown.Keys == b.shown.Keys
    decreases |rs|
  {
    if rs != [] {
      var init := rs[..|rs| - 1];
      EventKeepsElements(b, targets, init);
      ProcessKeepsElements(FeedAll(b, targets, init), targets, Words(rs[|rs| - 1].transcript), !rs[|rs| - 1].isFinal);
    }
  }

  // ----- the snapshot -----

  lemma {:induction false} FinalTextAppend(xs: seq<SpeechResult>, ys: seq<SpeechResult>)
    ensures FinalText(xs + ys) == FinalText(xs) + FinalText(ys)
    decreases |ys|
  {
    if ys == [] {
      assert xs + ys == xs;
    } else {
      var init := ys[..|ys| - 1];
      assert (xs + ys)[..|xs + ys| - 1] == xs + init;
      FinalTextAppend(xs, init);
    }
  }

  /** Two lists of results that agree on which are final and on the final texts. */
  ghost predicate SameFinals(xs: seq<SpeechResult>, ys: seq<SpeechResult>) {
    && |xs| == |ys|
    && forall i :: 0 <= i < |xs| ==> xs[i].isFinal == ys[i].isFinal && (xs[i].isFinal ==> xs[i].transcript == ys[i].transcript)
  }

  lemma {:induction false} FinalTextOfSameFinals(xs: seq<SpeechResult>, ys: seq<SpeechResult>)
    requires SameFinals(xs, ys)
    ensures FinalText(xs) == FinalText(ys)
    decreases |xs|
  {
    if xs != [] {
      FinalTextOfSameFinals(xs[..|xs| - 1], ys[..|ys| - 1]);
    }
  }

  /**
   * The snapshot depends only on the final texts and the last result: the
   * texts of interim results before the last one never reach it.
   */
  lemma SnapshotIgnoresEarlierInterims(e1: SpeechEvent, e2: SpeechEvent)
    requires |e1.results| > 0 && e1.resultIndex == e2.resultIndex
    requires SameFinals(e1.results, e2.results)
    requires e1.results[|e1.results| - 1] == e2.results[|e2.results| - 1]
    ensures Snapshot(e1) == Snapshot(e2)
  {
    if e1.resultIndex <= |e1.results| {
      FinalTextOfSameFinals(Pending(e1), Pending(e2));
    }
  }

  /**
   * The snapshot starts with the final texts of the visited results, in
   * order, and ends with the last result's text exactly when that one is
   * interim.
   */
  lemma SnapshotShape(e: SpeechEvent, before: seq<SpeechResult>, latest: SpeechResult)
    requires e.results == before + [latest] && e.resultIndex <= |before|
    ensures Snapshot(e) == FinalText(before[e.resultIndex..]) + (if latest.isFinal then latest.transcript else " " + latest.transcript)
  {
    assert Pending(e) == before[e.resultIndex..] + [latest];
    assert Pending(e)[..|Pending(e)| - 1] == before[e.resultIndex..];
  }

  /** An event of one interim result shows only the previewed text. */
  lemma SingleInterim(text: string, confidence: real)
    ensures Snapshot(SpeechEvent(0, [SpeechResult(text, confidence, false)])) == " " + text
  {
    var rs := [SpeechResult(text, confidence, false)];
    assert rs[..0] == [];
    assert FinalText(rs) == "";
  }

  /** A final text and the interim text after it are separated by one space. */
  lemma FinalThenInterim(e: SpeechEvent)
    requires e == SpeechEvent(0, [SpeechResult("the cat sat", 0.9, true), SpeechResult("on the mat", 0.5, false)])
    ensures Snapshot(e) == "the cat sat on the mat"
  {
    SnapshotShape(e, [SpeechResult("the cat sat", 0.9, true)], SpeechResult("on the mat", 0.5, false));
    var one := [SpeechResult("the cat sat", 0.9, true)];
    assert one[0..] == one;
    assert one[..0] == [];
    assert FinalText(one) == "the cat sat";
  }

  // ----- the confidence element -----

  /** The confidence element keeps what it showed when no visited result has a positive confidence. */
  lemma {:induction false} ConfidenceKeptWithoutPositive(c: Option<real>, rs: seq<SpeechResult>)
    requires forall i :: 0 <= i < |rs| ==> rs[i].confidence <= 0.0
    ensures LatestConfidence(c, rs) == c
    decreases |rs|
  {
    if rs != [] {
      var init := rs[..|rs| - 1];
      assert forall i :: 0 <= i < |init| ==> init[i] == rs[i];
      ConfidenceKeptWithoutPositive(c, init);
    }
  }

  /** The confidence element shows the last positive confidence among the visited results. */
  lemma {:induction false} ConfidenceIsLatestPositive(c: Option<real>, rs: seq<SpeechResult>, i: nat)
    requires i < |rs| && rs[i].confidence > 0.0
    requires forall j :: i < j < |rs| ==> rs[j].confidence <= 0.0
    ensures LatestConfidence(c, rs) == Some(rs[i].confidence)
    decreases |rs|
  {
    if i < |rs| - 1 {
      var init := rs[..|rs| - 1];
      assert forall j :: i < j < |init| ==> init[j] == rs[j];
      ConfidenceIsLatestPositive(c, init, i);
    }
  }
}
