/**
 * The parts of JavaScript's string library the word counter relies on:
 * the white-space class shared by the regular-expression escape `\s` and by
 * `String.prototype.trim`, `toLowerCase` (on ASCII letters only),
 * `trim`, `split` on a one-character separator and `split(/\s+/)`.
 */
module JsText {

  /** The WhiteSpace and LineTerminator code points of ECMAScript: what `\s` matches and `trim` removes. */
  const WhiteSpace: set<char> := {
    ' ', '\t', '\n', '\r', '\U{B}', '\U{C}', '\U{A0}', '\U{1680}',
    '\U{2000}', '\U{2001}', '\U{2002}', '\U{2003}', '\U{2004}', '\U{2005}',
    '\U{2006}', '\U{2007}', '\U{2008}', '\U{2009}', '\U{200A}',
    '\U{2028}', '\U{2029}', '\U{202F}', '\U{205F}', '\U{3000}', '\U{FEFF}'
  }

  predicate IsSpace(c: char) {
    c in WhiteSpace
  }

  ghost predicate AllSpace(s: string) {
    forall i :: 0 <= i < |s| ==> IsSpace(s[i])
  }

  ghost predicate NoSpace(s: string) {
    forall i :: 0 <= i < |s| ==> !IsSpace(s[i])
  }

  /** Printable ASCII, the blank excluded: the characters of a word typed on an English keyboard. */
  ghost predicate Visible(s: string) {
    forall i :: 0 <= i < |s| ==> '!' <= s[i] <= '~'
  }

  lemma VisibleNoSpace(s: string)
    requires Visible(s)
    ensures NoSpace(s)
  {
  }

  predicate IsUpper(c: char) {
    'A' <= c <= 'Z'
  }

  /** `toLowerCase` of one character, restricted to the ASCII letters. */
  function LowerChar(c: char): (d: char)
    ensures !IsUpper(d)
    ensures IsSpace(d) == IsSpace(c)
    ensures !IsUpper(c) ==> d == c
    ensures IsUpper(c) ==> d as int == c as int + 32
  {
    if IsUpper(c) then (c as int + 32) as char else c
  }

  /** `s.toLowerCase()`: character by character, length-preserving. */
  function Lower(s: string): (r: string)
    ensures |r| == |s|
    ensures forall i :: 0 <= i < |s| ==> r[i] == LowerChar(s[i])
  {
    seq(|s|, i requires 0 <= i < |s| => LowerChar(s[i]))
  }

  ghost predicate NoUpper(s: string) {
    forall i :: 0 <= i < |s| ==> !IsUpper(s[i])
  }

  /** Lower-casing twice is lower-casing once, and the result holds no capital letter. */
  lemma LowerIdempotent(s: string)
    ensures NoUpper(Lower(s))
    ensures Lower(Lower(s)) == Lower(s)
  {
  }

  /** The number of white-space characters `s` starts with. */
  function LeadingSpaces(s: string): (k: nat)
    ensures k <= |s| && AllSpace(s[..k])
    ensures k < |s| ==> !IsSpace(s[k])
  {
    if s != [] && IsSpace(s[0]) then 1 + LeadingSpaces(s[1..]) else 0
  }

  /** The index where the run of white space that `s` ends with begins. */
  function TrailingStart(s: string): (k: nat)
    ensures k <= |s| && AllSpace(s[k..])
    ensures 0 < k ==> !IsSpace(s[k - 1])
  {
    if s != [] && IsSpace(s[|s| - 1]) then TrailingStart(s[..|s| - 1]) else |s|
  }

  /**
   * `s.trim()`: `s` is some white space, then `r`, then some white space,
   * and `r` neither starts nor ends with white space.
   */
  function Trim(s: string): (r: string)
    ensures r == [] || (!IsSpace(r[0]) && !IsSpace(r[|r| - 1]))
    ensures LeadingSpaces(s) + |r| <= |s|
    ensures r == s[LeadingSpaces(s)..LeadingSpaces(s) + |r|]
    ensures AllSpace(s[LeadingSpaces(s) + |r|..])
  {
    var t := s[LeadingSpaces(s)..];
    assert forall i :: TrailingStart(t) <= i < |t| ==> t[i] == s[LeadingSpaces(s)..][i];
    t[..TrailingStart(t)]
  }

  /** The index of the first `c` in `s`, or `|s|` when there is none. */
  function IndexOf(s: string, c: char): (k: nat)
    ensures k <= |s|
    ensures forall i :: 0 <= i < k ==> s[i] != c
    ensures k < |s| ==> s[k] == c
  {
    if s == [] || s[0] == c then 0 else 1 + IndexOf(s[1..], c)
  }

  lemma IndexOfAbsent(s: string, c: char)
    requires c !in s
    ensures IndexOf(s, c) == |s|
  {
  }

  lemma {:induction false} IndexOfAround(a: string, b: string, c: char)
    ensures IndexOf(a + [c] + b, c) == if IndexOf(a, c) < |a| then IndexOf(a, c) else |a|
    decreases |a|
  {
    if a != [] {
      assert (a + [c] + b)[0] == a[0];
      assert (a + [c] + b)[1..] == a[1..] + [c] + b;
      IndexOfAround(a[1..], b, c);
    }
  }

  /** `s.split(sep)` for a one-character string separator: the pieces between separators, in order. */
  function Split(s: string, sep: char): (r: seq<string>)
    ensures |r| >= 1
    decreases |s|
  {
    var k := IndexOf(s, sep);
    if k == |s| then [s] else [s[..k]] + Split(s[k + 1..], sep)
  }

  lemma SplitCons(s: string, sep: char, head: string, tail: string)
    requires IndexOf(s, sep) < |s|
    requires head == s[..IndexOf(s, sep)] && tail == s[IndexOf(s, sep) + 1..]
    ensures Split(s, sep) == [head] + Split(tail, sep)
  {
  }

  /** No piece holds the separator. */
  lemma {:induction false} SplitPiecesFree(s: string, sep: char)
    ensures forall p :: p in Split(s, sep) ==> sep !in p
    decreases |s|
  {
    var k := IndexOf(s, sep);
    if k < |s| {
      SplitPiecesFree(s[k + 1..], sep);
      SplitCons(s, sep, s[..k], s[k + 1..]);
    }
  }

  /** `ps.join(sep)`. */
  function Join(ps: seq<string>, sep: char): string {
    if ps == [] then "" else if |ps| == 1 then ps[0] else ps[0] + [sep] + Join(ps[1..], sep)
  }

  lemma JoinCons(p: string, ps: seq<string>, sep: char)
    requires ps != []
    ensures Join([p] + ps, sep) == p + [sep] + Join(ps, sep)
  {
    assert ([p] + ps)[1..] == ps;
  }

  lemma Reassemble(s: string, sep: char, k: nat)
    requires k < |s| && s[k] == sep
    ensures s == s[..k] + [sep] + s[k + 1..]
  {
  }

  /** Joining the pieces back with the separator gives the original string. */
  lemma {:induction false} SplitThenJoin(s: string, sep: char)
    ensures Join(Split(s, sep), sep) == s
    decreases |s|
  {
    var k := IndexOf(s, sep);
    if k < |s| {
      var head, tail := s[..k], s[k + 1..];
      var rest := Split(tail, sep);
      SplitCons(s, sep, head, tail);
      SplitThenJoin(tail, sep);
      JoinCons(head, rest, sep);
      Reassemble(s, sep, k);
    } else {
      assert Split(s, sep) == [s];
    }
  }

  /** Pieces free of the separator are exactly what splitting their join gives back. */
  lemma {:induction false} JoinThenSplit(ps: seq<string>, sep: char)
    requires |ps| >= 1
    requires forall p :: p in ps ==> sep !in p
    ensures Split(Join(ps, sep), sep) == ps
    decreases |ps|
  {
    assert sep !in ps[0] by { assert ps[0] in ps; }
    IndexOfAbsent(ps[0], sep);
    if |ps| > 1 {
      var rest := Join(ps[1..], sep);
      var s := ps[0] + [sep] + rest;
      JoinCons(ps[0], ps[1..], sep);
      assert [ps[0]] + ps[1..] == ps;
      IndexOfAround(ps[0], rest, sep);
      assert s[..|ps[0]|] == ps[0] && s[|ps[0]| + 1..] == rest;
      SplitCons(s, sep, ps[0], rest);
      assert forall p :: p in ps[1..] ==> p in ps;
      JoinThenSplit(ps[1..], sep);
    }
  }

  lemma SlicesAround(a: string, b: string, sep: char, k: nat)
    requires k < |a|
    ensures (a + [sep] + b)[..k] == a[..k]
    ensures (a + [sep] + b)[k + 1..] == a[k + 1..] + [sep] + b
  {
  }

  lemma ConsAssociates(h: string, x: seq<string>, y: seq<string>, whole: seq<string>, left: seq<string>, right: seq<string>)
    requires whole == [h] + right && right == x + y && left == [h] + x
    ensures whole == left + y
  {
  }

  /** A separator splits the string in two independent halves. */
  lemma {:induction false} SplitAround(a: string, b: string, sep: char)
    ensures Split(a + [sep] + b, sep) == Split(a, sep) + Split(b, sep)
    decreases |a|
  {
    var s := a + [sep] + b;
    var k := IndexOf(a, sep);
    IndexOfAround(a, b, sep);
    if k == |a| {
      assert s[..|a|] == a && s[|a| + 1..] == b;
      SplitCons(s, sep, a, b);
    } else {
      var a', t := a[k + 1..], a[k + 1..] + [sep] + b;
      SlicesAround(a, b, sep, k);
      SplitCons(s, sep, a[..k], t);
      SplitCons(a, sep, a[..k], a');
      SplitAround(a', b, sep);
      ConsAssociates(a[..k], Split(a', sep), Split(b, sep), Split(s, sep), Split(a, sep), Split(t, sep));
    }
  }

  /**
   * `s.split(/\s+/)`: the pieces between maximal runs of white space. A run
   * at the start or at the end yields an empty first or last piece, and the
   * empty string gives one empty piece.
   */
  function Tokens(s: string): (r: seq<string>)
    ensures |r| >= 1
  {
    if s == [] then [""]
    else
      var r := Tokens(s[1..]);
      if !IsSpace(s[0]) then [[s[0]] + r[0]] + r[1..]
      else if s[1..] != [] && IsSpace(s[1]) then r
      else [""] + r
  }

  /** No piece holds white space. */
  lemma {:induction false} TokensHaveNoSpace(s: string)
    ensures forall t :: t in Tokens(s) ==> NoSpace(t)
    decreases |s|
  {
    if s != [] {
      TokensHaveNoSpace(s[1..]);
      var r := Tokens(s[1..]);
      if !IsSpace(s[0]) {
        assert r[0] in r;
        assert NoSpace([s[0]] + r[0]);
        assert forall t :: t in r[1..] ==> t in r;
      }
    }
  }

  /** A string without white space is one piece. */
  lemma {:induction false} TokensOfWord(x: string)
    requires NoSpace(x)
    ensures Tokens(x) == [x]
    decreases |x|
  {
    if x != [] {
      TokensOfWord(x[1..]);
      assert [x[0]] + x[1..] == x;
    }
  }

  /**
   * A single blank between a string that does not end with white space and
   * one that does not start with it splits the string in two independent halves.
   */
  lemma {:induction false} TokensAroundBlank(x: string, y: string)
    requires x == [] || !IsSpace(x[|x| - 1])
    requires y == [] || !IsSpace(y[0])
    ensures Tokens(x + [' '] + y) == Tokens(x) + Tokens(y)
    decreases |x|
  {
    var s := x + [' '] + y;
    if x == [] {
      assert s[1..] == y;
    } else {
      assert s[1..] == x[1..] + [' '] + y;
      TokensAroundBlank(x[1..], y);
    }
  }

  lemma JoinHead(ps: seq<string>, sep: char)
    requires ps != [] && ps[0] != []
    ensures Join(ps, sep) != [] && Join(ps, sep)[0] == ps[0][0]
  {
  }

  /**
   * Words of visible characters joined by single blanks are exactly what
   * splitting on white space gives back.
   */
  lemma {:induction false} JoinThenTokens(ps: seq<string>)
    requires ps != []
    requires forall p :: p in ps ==> p != [] && Visible(p)
    ensures Tokens(Join(ps, ' ')) == ps
    decreases |ps|
  {
    assert ps[0] in ps;
    VisibleNoSpace(ps[0]);
    if |ps| == 1 {
      TokensOfWord(ps[0]);
    } else {
      var rest := ps[1..];
      assert forall p :: p in rest ==> p in ps;
      assert rest[0] in ps;
      JoinHead(rest, ' ');
      TokensAroundBlank(ps[0], Join(rest, ' '));
      TokensOfWord(ps[0]);
      JoinThenTokens(rest);
      assert [ps[0]] + rest == ps;
    }
  }

  /** `s` with every maximal run of white space replaced by one blank. */
  function Squeeze(s: string): string {
    if s == [] then []
    else if !IsSpace(s[0]) then [s[0]] + Squeeze(s[1..])
    else if s[1..] != [] && IsSpace(s[1]) then Squeeze(s[1..])
    else [' '] + Squeeze(s[1..])
  }

  /** Splitting `[c] + x` where `c` is no separator glues `c` to the first piece of `x`. */
  lemma SplitConsChar(c: char, x: string, sep: char)
    requires c != sep
    ensures Split([c] + x, sep) == [[c] + Split(x, sep)[0]] + Split(x, sep)[1..]
  {
    var s := [c] + x;
    assert s[1..] == x;
    var k := IndexOf(x, sep);
    assert IndexOf(s, sep) == k + 1;
    if k < |x| {
      assert s[..k + 1] == [c] + x[..k];
      assert s[k + 2..] == x[k + 1..];
      SplitCons(s, sep, [c] + x[..k], x[k + 1..]);
      SplitCons(x, sep, x[..k], x[k + 1..]);
    }
  }

  /** Splitting `[sep] + x` gives an empty first piece and then the pieces of `x`. */
  lemma SplitConsSeparator(x: string, sep: char)
    ensures Split([sep] + x, sep) == [""] + Split(x, sep)
  {
    var s := [sep] + x;
    assert s[1..] == x;
    SplitCons(s, sep, "", x);
  }

  /**
   * Splitting on runs of white space is splitting on single blanks once every
   * run has been squeezed to one blank.
   */
  lemma {:induction false} TokensAreSqueezedPieces(s: string)
    ensures Tokens(s) == Split(Squeeze(s), ' ')
    decreases |s|
  {
    if s != [] {
      TokensAreSqueezedPieces(s[1..]);
      if !IsSpace(s[0]) {
        SplitConsChar(s[0], Squeeze(s[1..]), ' ');
      } else if !(s[1..] != [] && IsSpace(s[1])) {
        SplitConsSeparator(Squeeze(s[1..]), ' ');
      }
    }
  }

  /** Each piece lower-cased. */
  function LowerAll(ts: seq<string>): (r: seq<string>)
    ensures |r| == |ts|
    ensures forall i :: 0 <= i < |ts| ==> r[i] == Lower(ts[i])
  {
    if ts == [] then [] else [Lower(ts[0])] + LowerAll(ts[1..])
  }

  lemma LowerCons(c: char, t: string)
    ensures Lower([c] + t) == [LowerChar(c)] + Lower(t)
  {
  }

  lemma LowerAllCons(t: string, ts: seq<string>)
    ensures LowerAll([t] + ts) == [Lower(t)] + LowerAll(ts)
  {
    assert ([t] + ts)[1..] == ts;
  }

  /** Lower-casing and then splitting on white space is splitting and then lower-casing each piece. */
  lemma {:induction false} TokensOfLower(s: string)
    ensures Tokens(Lower(s)) == LowerAll(Tokens(s))
    decreases |s|
  {
    if s != [] {
      var ls := Lower(s);
      assert ls[1..] == Lower(s[1..]);
      TokensOfLower(s[1..]);
      var r := Tokens(s[1..]);
      if !IsSpace(s[0]) {
        LowerCons(s[0], r[0]);
        LowerAllCons([s[0]] + r[0], r[1..]);
        LowerAllCons(r[0], r[1..]);
        assert r == [r[0]] + r[1..];
      } else if !(s[1..] != [] && IsSpace(s[1])) {
        LowerAllCons("", r);
      }
    }
  }
}
