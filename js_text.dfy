/** The string trimming that Mongoose's `trim: true` schema option applies:
    JavaScript's String.prototype.trim, which removes white space and line
    terminators from both ends. */
module JsText {

  /** JavaScript's WhiteSpace and LineTerminator code points outside the
      range U+2000..U+200A (ECMAScript WhiteSpace is TAB, VT, FF, SP, NBSP,
      ZWNBSP and the Zs category; the line terminators are LF, CR, LS, PS). */
  const JsSpaceChars: set<char> :=
    {'\t', '\n', '\U{000B}', '\U{000C}', '\r', ' ', '\U{00A0}', '\U{1680}',
     '\U{2028}', '\U{2029}', '\U{202F}', '\U{205F}', '\U{3000}', '\U{FEFF}'}

  /** JavaScript's white space and line terminators: the characters
      String.prototype.trim removes. */
  predicate IsJsWhitespace(c: char) {
    c in JsSpaceChars || ('\U{2000}' <= c <= '\U{200A}')
  }

  /** Only white space, or empty. */
  predicate IsBlank(s: string) {
    forall i :: 0 <= i < |s| ==> IsJsWhitespace(s[i])
  }

  /** Neither end is white space. */
  predicate IsTrimmed(s: string) {
    s == [] || (!IsJsWhitespace(s[0]) && !IsJsWhitespace(s[|s| - 1]))
  }

  /** The suffix that is left once leading white space is dropped. */
  function TrimStart(s: string): (r: string)
    ensures |r| <= |s|
    ensures r == [] || !IsJsWhitespace(r[0])
    ensures r == [] <==> IsBlank(s)
  {
    if s != [] && IsJsWhitespace(s[0]) then TrimStart(s[1..]) else s
  }

  /** The prefix that is left once trailing white space is dropped. */
  function TrimEnd(s: string): (r: string)
    ensures |r| <= |s| && (r != [] ==> r[0] == s[0])
    ensures r == [] || !IsJsWhitespace(r[|r| - 1])
    ensures r == [] <==> IsBlank(s)
  {
    if s != [] && IsJsWhitespace(s[|s| - 1]) then TrimEnd(s[..|s| - 1]) else s
  }

  /** String.prototype.trim: a trimmed infix of `s` that drops only white space,
      that is empty exactly when `s` is blank, and that leaves a trimmed
      string as it is. */
  function Trim(s: string): (r: string)
    ensures IsTrimmed(r)
    ensures |r| <= |s|
    ensures r == [] <==> IsBlank(s)
    ensures IsTrimmed(s) ==> r == s
  {
    TrimEnd(TrimStart(s))
  }

  /** `r` occurs in `s` at position `i` with only white space before and
      after it. */
  predicate BlankAround(s: string, i: nat, r: string) {
    && i + |r| <= |s|
    && r == s[i..i + |r|]
    && IsBlank(s[..i]) && IsBlank(s[i + |r|..])
  }

  /** TrimStart drops a blank prefix and keeps the rest as it is. */
  lemma {:induction false} TrimStartDropsBlanks(s: string)
    ensures BlankAround(s, |s| - |TrimStart(s)|, TrimStart(s))
  {
    if s != [] && IsJsWhitespace(s[0]) {
      TrimStartDropsBlanks(s[1..]);
      var r := TrimStart(s);
      assert s[1..][|s| - 1 - |r|..] == s[|s| - |r|..];
      assert s[..|s| - |r|] == [s[0]] + s[1..][..|s| - 1 - |r|];
    }
  }

  /** TrimEnd drops a blank suffix and keeps the rest as it is. */
  lemma {:induction false} TrimEndDropsBlanks(s: string)
    ensures BlankAround(s, 0, TrimEnd(s))
  {
    if s != [] && IsJsWhitespace(s[|s| - 1]) {
      TrimEndDropsBlanks(s[..|s| - 1]);
      var r := TrimEnd(s);
      assert s[..|s| - 1][..|r|] == s[..|r|];
      assert s[|r|..] == s[..|s| - 1][|r|..] + [s[|s| - 1]];
    }
  }

  /** Trim removes white space from the two ends and nothing else: the result
      is the infix of `s` between a blank prefix and a blank suffix. */
  lemma TrimKeepsInfix(s: string)
    ensures BlankAround(s, |s| - |TrimStart(s)|, Trim(s))
  {
    var t := TrimStart(s);
    TrimStartDropsBlanks(s);
    TrimEndDropsBlanks(t);
    BlankAroundTwice(s, |s| - |t|, t, 0, TrimEnd(t));
  }

  /** White space around `t` in `s`, and around `r` in `t`, is white space
      around `r` in `s`. */
  lemma BlankAroundTwice(s: string, i: nat, t: string, j: nat, r: string)
    requires BlankAround(s, i, t) && BlankAround(t, j, r)
    ensures BlankAround(s, i + j, r)
  {
    forall k | 0 <= k < |r|
      ensures r[k] == s[i + j + k]
    {
      assert r[k] == t[j + k];
    }
    assert r == s[i + j..i + j + |r|];
    assert s[..i + j] == s[..i] + t[..j];
    BlankConcat(s[..i], t[..j]);
    assert t[j + |r|..] == s[i + j + |r|..i + |t|];
    assert s[i + j + |r|..] == s[i + j + |r|..i + |t|] + s[i + |t|..];
    BlankConcat(t[j + |r|..], s[i + |t|..]);
  }

  lemma BlankConcat(a: string, b: string)
    requires IsBlank(a) && IsBlank(b)
    ensures IsBlank(a + b)
  {
    forall k | 0 <= k < |a + b|
      ensures IsJsWhitespace((a + b)[k])
    {
      if k < |a| {
        assert (a + b)[k] == a[k];
      } else {
        assert (a + b)[k] == b[k - |a|];
      }
    }
  }

  /** Trimming twice is trimming once. */
  lemma TrimIdempotent(s: string)
    ensures Trim(Trim(s)) == Trim(s)
  {
  }
}
