/**
 * `updateTargetWords` (script.js): the comma-separated text of the word input
 * becomes the list of target words — every piece trimmed and lower-cased,
 * empty pieces dropped, order and duplicates kept.
 */
module TargetWords {

  import opened JsText

  /** `word.trim().toLowerCase()`. */
  function Normalize(piece: string): string {
    Lower(Trim(piece))
  }

  /** `.map(normalize).filter(word => word.length > 0)`. */
  function KeepWords(pieces: seq<string>): seq<string> {
    if pieces == [] then []
    else (if Normalize(pieces[0]) != [] then [Normalize(pieces[0])] else []) + KeepWords(pieces[1..])
  }

  /** What every entry of the target list looks like. */
  ghost predicate IsTargetWord(w: string) {
    && w != []
    && ',' !in w
    && !IsSpace(w[0]) && !IsSpace(w[|w| - 1])
    && NoUpper(w)
  }

  /** `inputValue.split(',').map(...).filter(...)`. */
  function ParseTargetWords(input: string): (ws: seq<string>)
    ensures forall w :: w in ws ==> IsTargetWord(w)
  {
    var pieces := Split(input, ',');
    SplitPiecesFree(input, ',');
    KeepWordsAreTargetWords(pieces);
    KeepWords(pieces)
  }

  lemma NormalizeShape(piece: string)
    requires ',' !in piece
    ensures Normalize(piece) != [] ==> IsTargetWord(Normalize(piece))
  {
    var t := Trim(piece);
    var w := Normalize(piece);
    LowerIdempotent(t);
    if w != [] {
      assert w[0] == LowerChar(t[0]) && w[|w| - 1] == LowerChar(t[|t| - 1]);
      forall i | 0 <= i < |w|
        ensures w[i] != ','
      {
        assert t[i] == piece[LeadingSpaces(piece) + i];
      }
    }
  }

  lemma {:induction false} KeepWordsAreTargetWords(pieces: seq<string>)
    requires forall p :: p in pieces ==> ',' !in p
    ensures forall w :: w in KeepWords(pieces) ==> IsTargetWord(w)
    decreases |pieces|
  {
    if pieces != [] {
      NormalizeShape(pieces[0]);
      assert forall p :: p in pieces[1..] ==> p in pieces;
      KeepWordsAreTargetWords(pieces[1..]);
    }
  }

  lemma {:induction false} KeepWordsAppend(x: seq<string>, y: seq<string>)
    ensures KeepWords(x + y) == KeepWords(x) + KeepWords(y)
    decreases |x|
  {
    if x == [] {
      assert x + y == y;
    } else {
      assert (x + y)[0] == x[0];
      assert (x + y)[1..] == x[1..] + y;
      KeepWordsAppend(x[1..], y);
    }
  }

  /** A target word is its own normal form. */
  lemma NormalizeTargetWord(w: string)
    requires IsTargetWord(w)
    ensures Normalize(w) == w
  {
    assert LeadingSpaces(w) == 0;
    assert w[0..] == w;
    assert TrailingStart(w) == |w|;
    assert w[..|w|] == w;
  }

  /** A list of target words is kept as it is. */
  lemma {:induction false} KeepTargetWords(ws: seq<string>)
    requires forall w :: w in ws ==> IsTargetWord(w)
    ensures KeepWords(ws) == ws
    decreases |ws|
  {
    if ws != [] {
      NormalizeTargetWord(ws[0]);
      assert forall w :: w in ws[1..] ==> w in ws;
      KeepTargetWords(ws[1..]);
      assert ws == [ws[0]] + ws[1..];
    }
  }

  /** Text without a comma yields at most one word: the piece normalized. */
  lemma ParseSinglePiece(piece: string)
    requires ',' !in piece
    ensures ParseTargetWords(piece) == if Normalize(piece) == [] then [] else [Normalize(piece)]
  {
    IndexOfAbsent(piece, ',');
    assert Split(piece, ',') == [piece];
    assert [piece][1..] == [];
    var n := Normalize(piece);
    assert KeepWords([piece]) == (if n != [] then [n] else []) + KeepWords([]);
  }

  /** A comma separates the words on its left from those on its right. */
  lemma ParseAroundComma(a: string, b: string)
    ensures ParseTargetWords(a + [','] + b) == ParseTargetWords(a) + ParseTargetWords(b)
  {
    SplitAround(a, b, ',');
    KeepWordsAppend(Split(a, ','), Split(b, ','));
  }

  /**
   * Writing a parsed list back as comma-separated text and parsing it again
   * gives the same list: parsing is idempotent on its own output.
   */
  lemma ParseJoinRoundTrip(ws: seq<string>)
    requires ws != []
    requires forall w :: w in ws ==> IsTargetWord(w)
    ensures ParseTargetWords(Join(ws, ',')) == ws
  {
    JoinThenSplit(ws, ',');
    KeepTargetWords(ws);
  }
}
