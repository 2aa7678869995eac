/**
 * The JavaScript string primitives the deals endpoint relies on: `trim`, `toLowerCase`,
 * `toUpperCase` and `includes`. Case mapping is given for ASCII and Latin-1; every other
 * character is left as it is.
 */
module Text {

  /** ECMAScript WhiteSpace and LineTerminator code points: what `String.prototype.trim` removes. */
  predicate IsWhitespace(c: char) {
    c == '\t' || c == '\n' || c == '\U{000B}' || c == '\U{000C}' || c == '\r' || c == ' '
    || c == '\U{00A0}' || c == '\U{1680}' || ('\U{2000}' <= c <= '\U{200A}')
    || c == '\U{2028}' || c == '\U{2029}' || c == '\U{202F}' || c == '\U{205F}'
    || c == '\U{3000}' || c == '\U{FEFF}'
  }

  /** Drops the leading whitespace. */
  function TrimStart(s: string): (r: string)
    ensures |r| <= |s| && r == s[|s| - |r|..]
    ensures r == [] || !IsWhitespace(r[0])
  {
    if s != [] && IsWhitespace(s[0]) then TrimStart(s[1..]) else s
  }

  /** Drops the trailing whitespace. */
  function TrimEnd(s: string): (r: string)
    ensures |r| <= |s| && r == s[..|r|]
    ensures r == [] || !IsWhitespace(r[|r| - 1])
  {
    if s != [] && IsWhitespace(s[|s| - 1]) then TrimEnd(s[..|s| - 1]) else s
  }

  /** `TrimStart` drops white space only, and leaves nothing exactly when there is nothing else. */
  lemma {:induction false} TrimStartDropsWhitespace(s: string)
    ensures forall i :: 0 <= i < |s| - |TrimStart(s)| ==> IsWhitespace(s[i])
    ensures TrimStart(s) == [] <==> forall i :: 0 <= i < |s| ==> IsWhitespace(s[i])
  {
    if s != [] && IsWhitespace(s[0]) {
      TrimStartDropsWhitespace(s[1..]);
      assert forall i :: 1 <= i < |s| ==> s[i] == s[1..][i - 1];
    }
  }

  /** `TrimEnd` drops white space only. */
  lemma {:induction false} TrimEndDropsWhitespace(s: string)
    ensures forall i :: |TrimEnd(s)| <= i < |s| ==> IsWhitespace(s[i])
  {
    if s != [] && IsWhitespace(s[|s| - 1]) {
      TrimEndDropsWhitespace(s[..|s| - 1]);
      assert forall i :: 0 <= i < |s| - 1 ==> s[i] == s[..|s| - 1][i];
    }
  }

  /** How many whitespace characters `TrimStart` removes from the front of `s`. */
  function LeadingWhitespace(s: string): (k: nat)
    ensures k <= |s| && TrimStart(s) == s[k..]
  {
    |s| - |TrimStart(s)|
  }

  /** `s` has no white space at either end. */
  predicate IsTrimmed(s: string) {
    s == [] || (!IsWhitespace(s[0]) && !IsWhitespace(s[|s| - 1]))
  }

  /** `s.trim()`: the slice of `s` left once whitespace is removed from both ends. */
  function Trim(s: string): (r: string)
    ensures LeadingWhitespace(s) + |r| <= |s|
    ensures r == s[LeadingWhitespace(s)..LeadingWhitespace(s) + |r|]
    ensures IsTrimmed(r)
  {
    var t := TrimStart(s);
    TrimEndKeepsFront(t);
    TrimEnd(t)
  }

  /** Trimming removes white space only. */
  lemma TrimDropsWhitespace(s: string)
    ensures forall i :: 0 <= i < LeadingWhitespace(s) ==> IsWhitespace(s[i])
    ensures forall i :: LeadingWhitespace(s) + |Trim(s)| <= i < |s| ==> IsWhitespace(s[i])
  {
    var t := TrimStart(s);
    var k := LeadingWhitespace(s);
    assert forall i :: 0 <= i < k ==> IsWhitespace(s[i]) by {
      TrimStartDropsWhitespace(s);
    }
    assert Trim(s) == TrimEnd(t);
    TrimEndDropsWhitespace(t);
    SuffixWhitespace(s, k, |Trim(s)|);
  }

  /** White space at the end of the suffix `s[k..]` is white space at the end of `s`. */
  lemma SuffixWhitespace(s: string, k: nat, m: nat)
    requires k + m <= |s|
    requires forall j :: m <= j < |s[k..]| ==> IsWhitespace(s[k..][j])
    ensures forall i :: k + m <= i < |s| ==> IsWhitespace(s[i])
  {
    forall i | k + m <= i < |s| ensures IsWhitespace(s[i]) {
      assert s[i] == s[k..][i - k];
    }
  }

  /** Trimming leaves nothing exactly when there is nothing but white space. */
  lemma TrimEmpty(s: string)
    ensures Trim(s) == [] <==> forall i :: 0 <= i < |s| ==> IsWhitespace(s[i])
  {
    TrimStartDropsWhitespace(s);
    TrimEndKeepsFront(TrimStart(s));
  }

  lemma TrimEndKeepsFront(t: string)
    requires t == [] || !IsWhitespace(t[0])
    ensures TrimEnd(t) == [] <==> t == []
    ensures TrimEnd(t) == [] || TrimEnd(t)[0] == t[0]
  {
  }

  /** `toLowerCase` on one character: ASCII and Latin-1 capitals map to their small letters. */
  function LowerChar(c: char): (r: char)
  {
    if 'A' <= c <= 'Z' || ('\U{00C0}' <= c <= '\U{00DE}' && c != '\U{00D7}')
    then (c as int + 32) as char
    else c
  }

  /**
   * `toUpperCase` on one character. Small ASCII and Latin-1 letters map to their capitals;
   * `ß` becomes "SS", `ÿ` becomes U+0178 and `µ` becomes U+039C, as in Unicode's case tables.
   */
  function UpperChar(c: char): (r: string)
  {
    if 'a' <= c <= 'z' || ('\U{00E0}' <= c <= '\U{00FE}' && c != '\U{00F7}') then [(c as int - 32) as char]
    else if c == '\U{00DF}' then "SS"
    else if c == '\U{00FF}' then ['\U{0178}']
    else if c == '\U{00B5}' then ['\U{039C}']
    else [c]
  }

  function ToLower(s: string): (r: string)
    ensures |r| == |s|
    ensures forall i :: 0 <= i < |s| ==> r[i] == LowerChar(s[i])
  {
    if s == [] then [] else [LowerChar(s[0])] + ToLower(s[1..])
  }

  /** Every character of `s` is its own upper case. */
  predicate IsUpperCase(s: string) {
    forall i :: 0 <= i < |s| ==> UpperChar(s[i]) == [s[i]]
  }

  function ToUpper(s: string): (r: string)
    ensures |r| >= |s|
    ensures IsUpperCase(r)
    ensures (forall i :: 0 <= i < |s| ==> s[i] != '\U{00DF}') ==>
      |r| == |s| && forall i :: 0 <= i < |s| ==> [r[i]] == UpperChar(s[i])
  {
    if s == [] then [] else UpperChar(s[0]) + ToUpper(s[1..])
  }

  /** `"straße".toUpperCase()` is `"STRASSE"`: the one Latin-1 letter whose upper case is two letters. */
  lemma ToUpperSharpS()
    ensures ToUpper("stra\U{00DF}e") == "STRASSE"
  {
    assert ToUpper("e") == "E";
    assert ToUpper("\U{00DF}e") == "SSE";
  }

  /** Upper-casing leaves an upper-case string as it is. */
  lemma {:induction false} ToUpperKeepsUpperCase(s: string)
    requires IsUpperCase(s)
    ensures ToUpper(s) == s
  {
    if s != [] {
      assert UpperChar(s[0]) == [s[0]];
      ToUpperKeepsUpperCase(s[1..]);
    }
  }

  /** Trimming keeps an upper-case string upper-case. */
  lemma TrimKeepsUpperCase(s: string)
    requires IsUpperCase(s)
    ensures IsUpperCase(Trim(s))
  {
    SliceKeepsUpperCase(s, LeadingWhitespace(s), |Trim(s)|);
  }

  lemma SliceKeepsUpperCase(s: string, k: nat, n: nat)
    requires k + n <= |s|
    requires IsUpperCase(s)
    ensures IsUpperCase(s[k..k + n])
  {
    var r := s[k..k + n];
    forall i | 0 <= i < n ensures UpperChar(r[i]) == [r[i]] {
      assert r[i] == s[k + i];
    }
  }

  /** `n` is a prefix of `h`. */
  predicate IsPrefix<T(==)>(n: seq<T>, h: seq<T>) {
    |n| <= |h| && h[..|n|] == n
  }

  /** `h.includes(n)`: `n` occurs in `h` at some position. */
  predicate Includes(h: string, n: string)
    ensures n == [] ==> Includes(h, n)
    ensures Includes(h, n) ==> |n| <= |h|
    decreases |h|
  {
    IsPrefix(n, h) || (h != [] && Includes(h[1..], n))
  }

  /** `n` occurs in `h` starting at position `i`. */
  predicate OccursAt(h: string, n: string, i: nat) {
    i + |n| <= |h| && h[i..i + |n|] == n
  }

  /** `Includes` agrees with the positional reading of substring containment. */
  lemma {:induction false} IncludesAt(h: string, n: string)
    ensures Includes(h, n) <==> exists i: nat :: OccursAt(h, n, i)
  {
    if h == [] {
      if n == [] {
        assert OccursAt(h, n, 0);
      }
    } else {
      IncludesAt(h[1..], n);
      if Includes(h, n) {
        if IsPrefix(n, h) {
          assert OccursAt(h, n, 0);
        } else {
          var i: nat :| OccursAt(h[1..], n, i);
          OccursAtTail(h, n, i + 1);
        }
      } else {
        forall i: nat | OccursAt(h, n, i) ensures false {
          if i > 0 {
            OccursAtTail(h, n, i);
          }
        }
      }
    }
  }

  lemma OccursAtTail(h: string, n: string, i: nat)
    requires 0 < i && h != []
    ensures OccursAt(h, n, i) <==> OccursAt(h[1..], n, i - 1)
  {
    if i + |n| <= |h| {
      assert h[i..i + |n|] == h[1..][i - 1..i - 1 + |n|];
    }
  }
}
