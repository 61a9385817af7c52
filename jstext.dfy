/** `String.prototype.trim`, which `addTodo` applies to the typed task name. */
module JsText {

  /** The code points `trim` removes: ECMAScript's WhiteSpace (tab, vertical tab, form feed, the byte-order mark and every space separator) and LineTerminator characters. */
  const Whitespace: set<char> := {
    '\t', '\n', '\U{000B}', '\U{000C}', '\r', ' ', '\U{00A0}', '\U{1680}',
    '\U{2000}', '\U{2001}', '\U{2002}', '\U{2003}', '\U{2004}', '\U{2005}',
    '\U{2006}', '\U{2007}', '\U{2008}', '\U{2009}', '\U{200A}',
    '\U{2028}', '\U{2029}', '\U{202F}', '\U{205F}', '\U{3000}', '\U{FEFF}'
  }

  predicate IsWhitespace(c: char) {
    c in Whitespace
  }

  predicate AllWhitespace(s: string) {
    forall k :: 0 <= k < |s| ==> IsWhitespace(s[k])
  }

  /** How many whitespace characters `s` starts with. */
  function Leading(s: string): (n: nat)
    ensures n <= |s|
    ensures forall k :: 0 <= k < n ==> IsWhitespace(s[k])
    ensures n < |s| ==> !IsWhitespace(s[n])
    decreases |s|
  {
    if s != [] && IsWhitespace(s[0]) then 1 + Leading(s[1..]) else 0
  }

  /** How many whitespace characters `s` ends with. */
  function Trailing(s: string): (n: nat)
    ensures n <= |s|
    ensures forall k :: |s| - n <= k < |s| ==> IsWhitespace(s[k])
    ensures n < |s| ==> !IsWhitespace(s[|s| - 1 - n])
    decreases |s|
  {
    if s != [] && IsWhitespace(s[|s| - 1]) then 1 + Trailing(s[..|s| - 1]) else 0
  }

  /**
   * `s.trim()`: `s` with its leading whitespace and then its trailing
   * whitespace removed. The result is the slice of `s` between the two, it
   * neither starts nor ends with whitespace, and it is empty exactly when
   * `s` is whitespace only.
   */
  function Trim(s: string): (r: string)
    ensures exists i :: 0 <= i <= |s| - |r| && r == s[i..i + |r|] && AllWhitespace(s[..i]) && AllWhitespace(s[i + |r|..])
    ensures r != [] ==> !IsWhitespace(r[0]) && !IsWhitespace(r[|r| - 1])
    ensures r == [] <==> AllWhitespace(s)
  {
    var i := Leading(s);
    var n := Trailing(s[i..]);
    TrimSlice(s, i, n);
    s[i..|s| - n]
  }

  /** The slice between `i` leading and `n` trailing whitespace characters, when no more surround it, is the trimmed text. */
  lemma TrimSlice(s: string, i: nat, n: nat)
    requires i + n <= |s|
    requires forall k :: 0 <= k < i ==> IsWhitespace(s[k])
    requires i < |s| ==> !IsWhitespace(s[i])
    requires forall k :: |s| - n <= k < |s| ==> IsWhitespace(s[k])
    requires i + n < |s| ==> !IsWhitespace(s[|s| - 1 - n])
    ensures var r := s[i..|s| - n];
      && AllWhitespace(s[..i]) && AllWhitespace(s[i + |r|..])
      && (r != [] ==> !IsWhitespace(r[0]) && !IsWhitespace(r[|r| - 1]))
      && (r == [] <==> AllWhitespace(s))
  {
    var r := s[i..|s| - n];
    if r == [] {
      forall k | 0 <= k < |s| ensures IsWhitespace(s[k]) {
      }
    } else {
      assert r[0] == s[i] && r[|r| - 1] == s[|s| - 1 - n];
    }
  }

  /** A text that neither starts nor ends with whitespace is its own trim. */
  lemma TrimKeepsTrimmed(s: string)
    requires s != [] ==> !IsWhitespace(s[0]) && !IsWhitespace(s[|s| - 1])
    ensures Trim(s) == s
  {
    assert Leading(s) == 0;
    assert s[0..] == s;
  }

  /** Trimming twice is trimming once. */
  lemma TrimIdempotent(s: string)
    ensures Trim(Trim(s)) == Trim(s)
  {
    TrimKeepsTrimmed(Trim(s));
  }
}
