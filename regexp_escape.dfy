/**
 * `escapeRegExp` (script.js): the word counter puts a backslash before every
 * character that has a meaning in a JavaScript regular expression, so that a
 * target word can be embedded in a pattern and match only itself.
 */
module RegExpEscape {

  import opened Wrappers

  /** The characters of the class `[.*+?^${}()|[\]\\]`. */
  const Special: set<char> := {'.', '*', '+', '?', '^', '$', '{', '}', '(', ')', '|', '[', ']', '\\'}

  predicate IsSpecial(c: char) {
    c in Special
  }

  /** `string.replace(/[.*+?^${}()|[\]\\]/g, '\\$&')`. */
  function EscapeRegExp(s: string): (r: string)
    ensures |s| <= |r|
  {
    if s == [] then []
    else (if IsSpecial(s[0]) then ['\\', s[0]] else [s[0]]) + EscapeRegExp(s[1..])
  }

  /** How many characters of `s` are special. */
  function SpecialCount(s: string): nat {
    if s == [] then 0 else (if IsSpecial(s[0]) then 1 else 0) + SpecialCount(s[1..])
  }

  /**
   * Reads a pattern as a sequence of literal atoms: a backslash followed by a
   * special character stands for that character, any other non-special
   * character stands for itself. A special character standing alone, or a
   * backslash before anything else, is not a literal atom, and the pattern
   * is refused.
   */
  function LiteralText(p: string): Option<string> {
    if p == [] then Some([])
    else if p[0] == '\\' then
      if |p| >= 2 && IsSpecial(p[1]) then
        match LiteralText(p[2..])
        case Some(rest) => Some([p[1]] + rest)
        case None => None
      else None
    else if IsSpecial(p[0]) then None
    else
      match LiteralText(p[1..])
      case Some(rest) => Some([p[0]] + rest)
      case None => None
  }

  /** The escaped string is a pattern of literal atoms only, and they spell the input. */
  lemma {:induction false} EscapedIsLiteral(s: string)
    ensures LiteralText(EscapeRegExp(s)) == Some(s)
    decreases |s|
  {
    if s != [] {
      EscapedIsLiteral(s[1..]);
      var e := EscapeRegExp(s);
      var tail := EscapeRegExp(s[1..]);
      if IsSpecial(s[0]) {
        assert e == ['\\', s[0]] + tail;
        assert e[2..] == tail;
      } else {
        assert e == [s[0]] + tail;
        assert e[1..] == tail;
      }
      assert s == [s[0]] + s[1..];
    }
  }

  /** One backslash is added per special character, and nothing else. */
  lemma {:induction false} EscapeLength(s: string)
    ensures |EscapeRegExp(s)| == |s| + SpecialCount(s)
    decreases |s|
  {
    if s != [] {
      EscapeLength(s[1..]);
    }
  }

  /** Escaping works character by character: it distributes over concatenation. */
  lemma {:induction false} EscapeAppend(a: string, b: string)
    ensures EscapeRegExp(a + b) == EscapeRegExp(a) + EscapeRegExp(b)
    decreases |a|
  {
    if a == [] {
      assert a + b == b;
    } else {
      assert (a + b)[0] == a[0];
      assert (a + b)[1..] == a[1..] + b;
      EscapeAppend(a[1..], b);
    }
  }

  /** A string without special characters is left as it is. */
  lemma {:induction false} EscapeKeepsPlainText(s: string)
    requires forall i :: 0 <= i < |s| ==> !IsSpecial(s[i])
    ensures EscapeRegExp(s) == s
    decreases |s|
  {
    if s != [] {
      EscapeKeepsPlainText(s[1..]);
      assert s == [s[0]] + s[1..];
    }
  }
}
