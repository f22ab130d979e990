/**
  JavaScript's String.prototype.trim: drop every leading and trailing
  character that ECMA-262 classes as WhiteSpace or LineTerminator.
  Interior whitespace is kept.

  The trimming itself is written once for an arbitrary set of characters
  to drop (the `...By` members); `Trim` is that with ECMA-262's set.
 */
module JsTrim {

  /** The WhiteSpace and LineTerminator code points of ECMA-262: tab, line
      feed, vertical tab, form feed, carriage return, the byte order mark,
      the line and paragraph separators, and the space separators of
      Unicode category Zs. */
  const Whitespace: set<char> :=
    {'\t', '\n', '\U{000B}', '\U{000C}', '\r', ' ', '\U{00A0}', '\U{1680}',
     '\U{2000}', '\U{2001}', '\U{2002}', '\U{2003}', '\U{2004}', '\U{2005}',
     '\U{2006}', '\U{2007}', '\U{2008}', '\U{2009}', '\U{200A}',
     '\U{2028}', '\U{2029}', '\U{202F}', '\U{205F}', '\U{3000}', '\U{FEFF}'}

  predicate IsWhitespace(c: char) {
    c in Whitespace
  }

  // ---------------------------------------------------------------------
  // Trimming by an arbitrary set of characters

  /** Every character of s is in ws. */
  predicate AllIn(s: string, ws: set<char>) {
    forall i :: 0 <= i < |s| ==> s[i] in ws
  }

  /** Neither end of s is in ws. */
  predicate EndsOutside(s: string, ws: set<char>) {
    s == [] || (s[0] !in ws && s[|s| - 1] !in ws)
  }

  /** s without its leading characters from ws; what is left does not
      start with one of them. TrimStartBySuffix says what was dropped. */
  function TrimStartBy(s: string, ws: set<char>): (r: string)
    ensures |r| <= |s|
    ensures r != [] ==> r[0] !in ws
  {
    if s != [] && s[0] in ws then TrimStartBy(s[1..], ws) else s
  }

  /** TrimStartBy keeps a suffix of s and drops only characters of ws. */
  lemma {:induction false} TrimStartBySuffix(s: string, ws: set<char>)
    ensures var r := TrimStartBy(s, ws);
      r == s[|s| - |r|..] && forall i :: 0 <= i < |s| - |r| ==> s[i] in ws
  {
    if s != [] && s[0] in ws {
      TrimStartBySuffix(s[1..], ws);
      var r := TrimStartBy(s, ws);
      assert forall i :: 1 <= i < |s| - |r| ==> s[i] == s[1..][i - 1];
    }
  }

  /** s without its trailing characters from ws; what is left does not end
      with one of them. TrimEndByPrefix says what was dropped. */
  function TrimEndBy(s: string, ws: set<char>): (r: string)
    ensures |r| <= |s|
    ensures r != [] ==> r[|r| - 1] !in ws
  {
    if s != [] && s[|s| - 1] in ws then TrimEndBy(s[..|s| - 1], ws) else s
  }

  /** TrimEndBy keeps a prefix of s and drops only characters of ws. */
  lemma {:induction false} TrimEndByPrefix(s: string, ws: set<char>)
    ensures var r := TrimEndBy(s, ws);
      r == s[..|r|] && forall i :: |r| <= i < |s| ==> s[i] in ws
  {
    if s != [] && s[|s| - 1] in ws {
      TrimEndByPrefix(s[..|s| - 1], ws);
      var r := TrimEndBy(s, ws);
      assert forall i :: |r| <= i < |s| - 1 ==> s[i] == s[..|s| - 1][i];
    }
  }

  /** How many characters trimming drops at the front of s. */
  function LeadingBy(s: string, ws: set<char>): (n: nat)
    ensures n <= |s|
  {
    |s| - |TrimStartBy(s, ws)|
  }

  /** Both ends trimmed: neither end of the result is in ws. TrimByWindow
      says where in s it comes from. */
  function TrimBy(s: string, ws: set<char>): (r: string)
    ensures |r| <= |s|
    ensures EndsOutside(r, ws)
  {
    var m := TrimStartBy(s, ws);
    TrimEndByPrefix(m, ws);
    TrimEndBy(m, ws)
  }

  /** The result of TrimBy is the window of s starting at LeadingBy(s, ws),
      and everything outside that window is in ws. */
  lemma TrimByWindow(s: string, ws: set<char>)
    ensures var r, n := TrimBy(s, ws), LeadingBy(s, ws);
      && n + |r| <= |s|
      && r == s[n..n + |r|]
      && (forall i :: 0 <= i < n ==> s[i] in ws)
      && (forall i :: n + |r| <= i < |s| ==> s[i] in ws)
  {
    var m := TrimStartBy(s, ws);
    var r := TrimEndBy(m, ws);
    var n := |s| - |m|;
    TrimStartBySuffix(s, ws);
    TrimEndByPrefix(m, ws);
    assert r == s[n..n + |r|];
    forall i | n + |r| <= i < |s| ensures s[i] in ws {
      assert s[i] == m[i - n];
    }
  }

  lemma TrimByEmptyIff(s: string, ws: set<char>)
    ensures TrimBy(s, ws) == [] <==> AllIn(s, ws)
  {
    var r := TrimBy(s, ws);
    TrimByWindow(s, ws);
    if r != [] {
      assert s[LeadingBy(s, ws)] == r[0];
    }
  }

  lemma {:induction false} TrimByFixed(s: string, ws: set<char>)
    requires EndsOutside(s, ws)
    ensures TrimBy(s, ws) == s
  {
    assert TrimStartBy(s, ws) == s;
    assert TrimEndBy(s, ws) == s;
  }

  // ---------------------------------------------------------------------
  // String.prototype.trim

  /** Every character of s is whitespace. */
  predicate AllWhitespace(s: string) {
    AllIn(s, Whitespace)
  }

  /** s neither starts nor ends with whitespace. */
  predicate IsTrimmed(s: string) {
    EndsOutside(s, Whitespace)
  }

  /** String.prototype.trim: a string that neither starts nor ends with
      whitespace and is no longer than s. TrimWindow states where in s it
      comes from. */
  function Trim(s: string): (r: string)
    ensures |r| <= |s|
    ensures IsTrimmed(r)
  {
    TrimBy(s, Whitespace)
  }

  /** The trimmed string is the window of s that starts after its leading
      whitespace, and only whitespace lies outside that window. */
  lemma TrimWindow(s: string)
    ensures var n := LeadingBy(s, Whitespace);
      && n + |Trim(s)| <= |s|
      && Trim(s) == s[n..n + |Trim(s)|]
      && (forall i :: 0 <= i < n ==> IsWhitespace(s[i]))
      && (forall i :: n + |Trim(s)| <= i < |s| ==> IsWhitespace(s[i]))
  {
    TrimByWindow(s, Whitespace);
  }

  /** The guard `if (s.trim())`: the trimmed string is empty exactly when
      every character of s is whitespace. */
  lemma TrimEmptyIff(s: string)
    ensures Trim(s) == [] <==> AllWhitespace(s)
  {
    TrimByEmptyIff(s, Whitespace);
  }

  /** A string that is already trimmed is left as it is. */
  lemma TrimOfTrimmed(s: string)
    requires IsTrimmed(s)
    ensures Trim(s) == s
  {
    TrimByFixed(s, Whitespace);
  }

  /** Trimming twice is trimming once. */
  lemma TrimIdempotent(s: string)
    ensures Trim(Trim(s)) == Trim(s)
  {
    TrimOfTrimmed(Trim(s));
  }

  /** Being trimmed is being one's own trim. */
  lemma TrimmedIff(s: string)
    ensures IsTrimmed(s) <==> Trim(s) == s
  {
    if IsTrimmed(s) {
      TrimOfTrimmed(s);
    }
  }
}
