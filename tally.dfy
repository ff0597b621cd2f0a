/**
 * The tally store of the word counter and `processTranscript` (script.js):
 * one recognised fragment is lower-cased and split on white space, and every
 * target word, in list order, is looked for among the pieces. A final
 * fragment adds the number of matches to the word's stored count; an interim
 * fragment only puts a preview number on the word's counter element.
 */
module Tally {

  import opened Wrappers
  import opened JsText

  /**
   * A value held by the JavaScript `Map` of counts. `NaN` is what the map
   * holds once `undefined + count` has been stored (a word whose entry was
   * removed by a reset and is then matched by a final fragment); NaN plus
   * anything is NaN again.
   */
  datatype Tally = Num(n: nat) | NaN

  /**
   * What the counter element of a word shows: a stored tally (`NaN` prints
   * as "NaN"), a preview number, or nothing at all (`textContent` assigned
   * `undefined`, which the DOM turns into the empty text).
   */
  datatype Shown = Confirmed(t: Tally) | Provisional(n: nat) | Blank

  /** The map of counts together with the counter elements, keyed by word. */
  datatype Board = Board(counts: map<string, Tally>, shown: map<string, Shown>)

  /** `wordCounts.get(w)`: `None` stands for `undefined`. */
  function Get(m: map<string, Tally>, w: string): (v: Option<Tally>)
    ensures v.Some? <==> w in m
    ensures w in m ==> v == Some(m[w])
  {
    if w in m then Some(m[w]) else None
  }

  /** `wordCounts.get(w) + c`: `undefined + c` and `NaN + c` are both NaN. */
  function Plus(v: Option<Tally>, c: nat): (t: Tally)
    ensures t.Num? <==> v.Some? && v.value.Num?
    ensures t.Num? ==> t.n == v.value.n + c
  {
    match v
    case Some(Num(n)) => Num(n + c)
    case _ => NaN
  }

  /** `wordCounts.get(w) || 0`: `undefined`, `NaN` and `0` all read as 0. */
  function Stored(m: map<string, Tally>, w: string): nat {
    match Get(m, w)
    case Some(Num(n)) => n
    case _ => 0
  }

  /** `xs.filter(x => x === w).length`. */
  function Count(xs: seq<string>, w: string): nat {
    if xs == [] then 0
    else Count(xs[..|xs| - 1], w) + (if xs[|xs| - 1] == w then 1 else 0)
  }

  /** `fragment.toLowerCase().split(/\s+/)`. */
  function Words(fragment: string): seq<string> {
    Tokens(Lower(fragment))
  }

  /** `updateCounterDisplay` finds the element of `w` only if one was created. */
  function Show(shown: map<string, Shown>, w: string, v: Shown): map<string, Shown> {
    if w in shown then shown[w := v] else shown
  }

  /**
   * The body of the `forEach` of `processTranscript` for one target word `w`
   * that the fragment holds `c` times, together with the `updateCounterDisplay`
   * call it makes.
   */
  function Match(b: Board, w: string, c: nat, interim: bool): Board {
    if c == 0 then b
    else if interim then b.(shown := Show(b.shown, w, Provisional(Stored(b.counts, w) + c)))
    else
      var t := Plus(Get(b.counts, w), c);
      Board(b.counts[w := t], Show(b.shown, w, Confirmed(t)))
  }

  /** The `forEach` over the target words, in list order (the last one is applied last). */
  function Process(b: Board, targets: seq<string>, words: seq<string>, interim: bool): Board
    decreases |targets|
  {
    if targets == [] then b
    else
      var w := targets[|targets| - 1];
      Match(Process(b, targets[..|targets| - 1], words, interim), w, Count(words, w), interim)
  }

  /** The entry of a word after `k` more matches have been added to it one batch at a time. */
  function Added(v: Option<Tally>, k: nat): Option<Tally> {
    if k == 0 then v else Some(Plus(v, k))
  }

  /** Counts never go down: a number stays a number at least as large, NaN stays NaN. */
  ghost predicate Grows(before: Option<Tally>, after: Option<Tally>) {
    match before
    case Some(Num(n)) => after.Some? && after.value.Num? && after.value.n >= n
    case Some(NaN) => after == Some(NaN)
    case None => true
  }

  // ----- counting -----

  lemma {:induction false} CountPositive(xs: seq<string>, w: string)
    ensures Count(xs, w) > 0 <==> w in xs
    decreases |xs|
  {
    if xs != [] {
      var init := xs[..|xs| - 1];
      CountPositive(init, w);
      assert xs == init + [xs[|xs| - 1]];
    }
  }

  /** The count is the multiplicity of the word in the multiset of pieces. */
  lemma {:induction false} CountIsMultiplicity(xs: seq<string>, w: string)
    ensures Count(xs, w) == multiset(xs)[w]
    decreases |xs|
  {
    if xs != [] {
      var init := xs[..|xs| - 1];
      CountIsMultiplicity(init, w);
      assert xs == init + [xs[|xs| - 1]];
    }
  }

  lemma {:induction false} CountAppend(xs: seq<string>, ys: seq<string>, w: string)
    ensures Count(xs + ys, w) == Count(xs, w) + Count(ys, w)
    decreases |ys|
  {
    if ys == [] {
      assert xs + ys == xs;
    } else {
      var init := ys[..|ys| - 1];
      assert (xs + ys)[..|xs + ys| - 1] == xs + init;
      CountAppend(xs, init, w);
    }
  }

  /** A copy of `w` in the target list and a copy in the fragment are both needed for a match. */
  lemma MatchesNeedBoth(targets: seq<string>, words: seq<string>, w: string)
    ensures Count(targets, w) * Count(words, w) > 0 <==> w in targets && w in words
  {
    CountPositive(targets, w);
    CountPositive(words, w);
  }

  /** The pieces of the lower-cased fragment that equal `w` are the pieces whose lower case equals `w`. */
  function CountFolded(ts: seq<string>, w: string): nat {
    if ts == [] then 0
    else CountFolded(ts[..|ts| - 1], w) + (if Lower(ts[|ts| - 1]) == w then 1 else 0)
  }

  lemma {:induction false} CountLowerAll(ts: seq<string>, w: string)
    ensures Count(LowerAll(ts), w) == CountFolded(ts, w)
    decreases |ts|
  {
    if ts != [] {
      var init := ts[..|ts| - 1];
      assert LowerAll(ts)[..|ts| - 1] == LowerAll(init);
      CountLowerAll(init, w);
    }
  }

  /** Matching ignores the capitalisation of the fragment. */
  lemma MatchIgnoresCase(fragment: string, w: string)
    ensures Count(Words(fragment), w) == CountFolded(Tokens(fragment), w)
  {
    TokensOfLower(fragment);
    CountLowerAll(Tokens(fragment), w);
  }

  /**
   * A target word with white space inside ("ice cream") is never matched:
   * every piece of a split on white space is free of it.
   */
  lemma PhraseNeverMatches(fragment: string, w: string)
    requires exists i :: 0 <= i < |w| && IsSpace(w[i])
    ensures Count(Words(fragment), w) == 0
  {
    TokensHaveNoSpace(Lower(fragment));
    CountPositive(Words(fragment), w);
  }

  lemma FoldedExample(ps: seq<string>)
    requires ps == ["Cat", "cats", "CAT", "cat,"]
    ensures CountFolded(ps, "cat") == 2
  {
    assert Lower("Cat") == "cat" && Lower("CAT") == "cat";
    assert Lower("cats") != "cat" && Lower("cat,") != "cat" by {
      assert |Lower("cats")| != |"cat"| && |Lower("cat,")| != |"cat"|;
    }
    assert CountFolded(ps[..1], "cat") == 1 by { assert ps[..1][..0] == []; }
    assert CountFolded(ps[..2], "cat") == 1 by { assert ps[..2][..1] == ps[..1]; }
    assert CountFolded(ps[..3], "cat") == 2 by { assert ps[..3][..2] == ps[..2]; }
  }

  /**
   * Capitals are folded, but only whole pieces match: the fragment
   * "Cat cats CAT cat," holds "cat" twice, since "cats" and "cat," are
   * pieces of their own.
   */
  lemma WholeWordsOfFragment()
    ensures Count(Words(Join(["Cat", "cats", "CAT", "cat,"], ' ')), "cat") == 2
  {
    var ps := ["Cat", "cats", "CAT", "cat,"];
    JoinThenTokens(ps);
    MatchIgnoresCase(Join(ps, ' '), "cat");
    FoldedExample(ps);
  }

  // ----- the store -----

  lemma AddedTwice(v: Option<Tally>, a: nat, c: nat)
    ensures Added(Added(v, a), c) == Added(v, a + c)
  {
  }

  lemma AddedGrows(v: Option<Tally>, k: nat)
    ensures Grows(v, Added(v, k))
  {
  }

  lemma MulStep(n: nat, c: nat)
    ensures (n + 1) * c == n * c + c
  {
  }

  lemma AddStep(v: Option<Tally>, n: nat, c: nat)
    ensures Added(Added(v, n * c), c) == Added(v, (n + 1) * c)
  {
    MulStep(n, c);
    AddedTwice(v, n * c, c);
  }

  /** A final `Match` on `w` itself adds `c` to its entry and shows the result. */
  lemma MatchSame(b: Board, w: string, c: nat)
    ensures Get(Match(b, w, c, false).counts, w) == Added(Get(b.counts, w), c)
    ensures w in b.shown ==>
      && w in Match(b, w, c, false).shown
      && Match(b, w, c, false).shown[w] == if c > 0 then Confirmed(Plus(Get(b.counts, w), c)) else b.shown[w]
  {
  }

  /** `Match` on another word leaves the entry of `w` alone. */
  lemma MatchOther(b: Board, x: string, c: nat, interim: bool, w: string)
    requires x != w
    ensures Get(Match(b, x, c, interim).counts, w) == Get(b.counts, w)
    ensures w in b.shown ==> w in Match(b, x, c, interim).shown && Match(b, x, c, interim).shown[w] == b.shown[w]
    ensures Match(b, x, c, interim).shown.Keys == b.shown.Keys
  {
  }

  /** Processing never adds nor removes a counter element. */
  lemma {:induction false} ProcessKeepsElements(b: Board, targets: seq<string>, words: seq<string>, interim: bool)
    ensures Process(b, targets, words, interim).shown.Keys == b.shown.Keys
    decreases |targets|
  {
    if targets != [] {
      ProcessKeepsElements(b, targets[..|targets| - 1], words, interim);
    }
  }

  /** An interim fragment never changes the stored counts. */
  lemma {:induction false} InterimKeepsCounts(b: Board, targets: seq<string>, words: seq<string>)
    ensures Process(b, targets, words, true).counts == b.counts
    decreases |targets|
  {
    if targets != [] {
      InterimKeepsCounts(b, targets[..|targets| - 1], words);
    }
  }

  /**
   * A final fragment adds, to the entry of every word, the number of its
   * copies in the target list times the number of its matches in the
   * fragment: a duplicated target word is incremented once per copy, an
   * absent or NaN entry becomes NaN as soon as anything is added, and a word
   * without matches keeps its entry.
   */
  lemma {:induction false} FinalAddsMatches(b: Board, targets: seq<string>, words: seq<string>, w: string)
    ensures Get(Process(b, targets, words, false).counts, w)
         == Added(Get(b.counts, w), Count(targets, w) * Count(words, w))
    decreases |targets|
  {
    if targets != [] {
      var init := targets[..|targets| - 1];
      var x := targets[|targets| - 1];
      var p := Process(b, init, words, false);
      FinalAddsMatches(b, init, words, w);
      if x == w {
        MatchSame(p, w, Count(words, w));
        AddStep(Get(b.counts, w), Count(init, w), Count(words, w));
      } else {
        MatchOther(p, x, Count(words, x), false, w);
      }
    }
  }

  /** Stored counts never decrease; a number stays a number, NaN stays NaN. */
  lemma FinalNeverDecreases(b: Board, targets: seq<string>, words: seq<string>, w: string)
    ensures Grows(Get(b.counts, w), Get(Process(b, targets, words, false).counts, w))
  {
    FinalAddsMatches(b, targets, words, w);
    AddedGrows(Get(b.counts, w), Count(targets, w) * Count(words, w));
  }

  /** After a final fragment the map holds the old keys and the matched target words, no others. */
  lemma FinalKeys(b: Board, targets: seq<string>, words: seq<string>, w: string)
    ensures w in Process(b, targets, words, false).counts <==> w in b.counts || (w in targets && w in words)
  {
    FinalAddsMatches(b, targets, words, w);
    MatchesNeedBoth(targets, words, w);
  }

  /**
   * The counter element of a matched word shows its new stored tally after a
   * final fragment; the element of an unmatched word is left as it was.
   */
  lemma {:induction false} FinalShowsTally(b: Board, targets: seq<string>, words: seq<string>, w: string)
    requires w in b.shown
    ensures w in Process(b, targets, words, false).shown
    ensures Process(b, targets, words, false).shown[w]
         == if Count(targets, w) * Count(words, w) > 0
            then Confirmed(Plus(Get(b.counts, w), Count(targets, w) * Count(words, w)))
            else b.shown[w]
    decreases |targets|
  {
    ProcessKeepsElements(b, targets, words, false);
    if targets != [] {
      var init := targets[..|targets| - 1];
      var x := targets[|targets| - 1];
      var p := Process(b, init, words, false);
      ProcessKeepsElements(b, init, words, false);
      FinalShowsTally(b, init, words, w);
      if x == w {
        var c := Count(words, w);
        FinalAddsMatches(b, init, words, w);
        MatchSame(p, w, c);
        AddStep(Get(b.counts, w), Count(init, w), c);
        MulStep(Count(init, w), c);
      } else {
        MatchOther(p, x, Count(words, x), false, w);
      }
    }
  }

  /**
   * The counter element of a word matched by an interim fragment previews
   * its stored count (0 when absent or NaN) plus the matches in this fragment
   * alone; copies of the word in the target list do not add up, since the
   * stored count does not change.
   */
  lemma {:induction false} InterimPreview(b: Board, targets: seq<string>, words: seq<string>, w: string)
    requires w in b.shown
    ensures w in Process(b, targets, words, true).shown
    ensures Process(b, targets, words, true).shown[w]
         == if w in targets && Count(words, w) > 0
            then Provisional(Stored(b.counts, w) + Count(words, w))
            else b.shown[w]
    decreases |targets|
  {
    ProcessKeepsElements(b, targets, words, true);
    if targets != [] {
      var init := targets[..|targets| - 1];
      var x := targets[|targets| - 1];
      var p := Process(b, init, words, true);
      ProcessKeepsElements(b, init, words, true);
      InterimPreview(b, init, words, w);
      InterimKeepsCounts(b, init, words);
      InLast(targets, w);
      if x != w {
        MatchOther(p, x, Count(words, x), true, w);
      } else {
        MatchSamePreview(p, w, Count(words, w));
      }
    }
  }

  lemma InLast(xs: seq<string>, w: string)
    requires xs != []
    ensures w in xs <==> w in xs[..|xs| - 1] || w == xs[|xs| - 1]
  {
    assert xs == xs[..|xs| - 1] + [xs[|xs| - 1]];
  }

  /** An interim `Match` on `w` itself previews its stored count plus `c`. */
  lemma MatchSamePreview(b: Board, w: string, c: nat)
    requires w in b.shown
    ensures Match(b, w, c, true).counts == b.counts
    ensures w in Match(b, w, c, true).shown
    ensures Match(b, w, c, true).shown[w] == if c > 0 then Provisional(Stored(b.counts, w) + c) else b.shown[w]
  {
  }

  /**
   * After a reset has emptied the map, the first final match of a target
   * word stores NaN (`undefined + count`), and it stays NaN for good.
   */
  lemma FinalAfterResetIsNaN(shown: map<string, Shown>, targets: seq<string>, words: seq<string>, w: string)
    requires w in targets && w in words
    ensures Get(Process(Board(map[], shown), targets, words, false).counts, w) == Some(NaN)
  {
    FinalAddsMatches(Board(map[], shown), targets, words, w);
    MatchesNeedBoth(targets, words, w);
  }
}
