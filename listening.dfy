/**
 * The listening intent of the word counter (script.js): `isListening` records
 * whether the user wants the recogniser to run. The recogniser's `onstart`
 * sets it, `stopListening` (the stop button, or `onerror`) clears it, and
 * `onend` restarts the recogniser only while it holds. A click on the start
 * button only asks the recogniser to start; the flag waits for `onstart`.
 */
module Listening {

  /** What can happen to the listening intent. */
  datatype Signal =
    | StartClicked   // `startListening`
    | Started        // `recognition.onstart`
    | Ended          // `recognition.onend`
    | StopClicked    // `stopListening` from the stop button
    | Failed         // `recognition.onerror`, which calls `stopListening`

  /** The value of `isListening` after `s`. */
  function Step(listening: bool, s: Signal): (r: bool)
    ensures r != listening ==> s == Started || s == StopClicked || s == Failed
    ensures s == Started ==> r
  {
    match s
    case Started => true
    case StopClicked => false
    case Failed => false
    case StartClicked => listening
    case Ended => listening
  }

  /** Whether `s` makes the counter call `recognition.start()` again from `onend`. */
  predicate Restarts(listening: bool, s: Signal)
    ensures Restarts(listening, s) ==> Step(listening, s)
  {
    s == Ended && listening
  }

  /** `isListening` after a trace of signals. */
  function Run(listening: bool, trace: seq<Signal>): (r: bool)
    ensures trace != [] && trace[|trace| - 1] == Started ==> r
    ensures trace != [] && (trace[|trace| - 1] == StopClicked || trace[|trace| - 1] == Failed) ==> !r
  {
    if trace == [] then listening else Step(Run(listening, trace[..|trace| - 1]), trace[|trace| - 1])
  }

  /** How many times `onend` restarts the recogniser along a trace. */
  function Restarted(listening: bool, trace: seq<Signal>): nat {
    if trace == [] then 0
    else
      var init := trace[..|trace| - 1];
      Restarted(listening, init) + (if Restarts(Run(listening, init), trace[|trace| - 1]) then 1 else 0)
  }

  /** Only `onstart` sets the flag: without it, a trace never turns listening on. */
  lemma {:induction false} OnlyStartedSetsListening(trace: seq<Signal>)
    requires Started !in trace
    ensures !Run(false, trace)
    ensures Restarted(false, trace) == 0
    decreases |trace|
  {
    if trace != [] {
      var init := trace[..|trace| - 1];
      assert Started !in init by {
        assert forall s :: s in init ==> s in trace;
      }
      OnlyStartedSetsListening(init);
      assert trace[|trace| - 1] in trace;
    }
  }

  /** The start button alone does not change the flag. */
  lemma {:induction false} StartClicksChangeNothing(listening: bool, trace: seq<Signal>)
    requires forall i :: 0 <= i < |trace| ==> trace[i] == StartClicked
    ensures Run(listening, trace) == listening
    ensures Restarted(listening, trace) == 0
    decreases |trace|
  {
    if trace != [] {
      StartClicksChangeNothing(listening, trace[..|trace| - 1]);
    }
  }

  lemma {:induction false} RunAppend(listening: bool, xs: seq<Signal>, ys: seq<Signal>)
    ensures Run(listening, xs + ys) == Run(Run(listening, xs), ys)
    ensures Restarted(listening, xs + ys) == Restarted(listening, xs) + Restarted(Run(listening, xs), ys)
    decreases |ys|
  {
    if ys == [] {
      assert xs + ys == xs;
    } else {
      var init := ys[..|ys| - 1];
      assert (xs + ys)[..|xs + ys| - 1] == xs + init;
      assert (xs + ys)[|xs + ys| - 1] == ys[|ys| - 1];
      RunAppend(listening, xs, init);
    }
  }

  /**
   * Once `stopListening` has run, `onend` never restarts the recogniser and
   * the flag stays clear until the next `onstart`.
   */
  lemma QuietAfterStop(listening: bool, before: seq<Signal>, stop: Signal, after: seq<Signal>)
    requires stop == StopClicked || stop == Failed
    requires Started !in after
    ensures !Run(listening, before + [stop] + after)
    ensures Restarted(listening, before + [stop] + after) == Restarted(listening, before)
  {
    RunAppend(listening, before, [stop]);
    assert [stop][..0] == [];
    assert Run(listening, before + [stop]) == false;
    assert Restarted(listening, before + [stop]) == Restarted(listening, before);
    RunAppend(listening, before + [stop], after);
    OnlyStartedSetsListening(after);
  }

  /** While listening, every `onend` restarts the recogniser. */
  lemma EndWhileListeningRestarts(listening: bool, before: seq<Signal>)
    requires Run(listening, before)
    ensures Run(listening, before + [Ended])
    ensures Restarted(listening, before + [Ended]) == Restarted(listening, before) + 1
  {
    assert (before + [Ended])[..|before|] == before;
  }
}
