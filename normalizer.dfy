/**
 * The search-key canonicaliser shared by the reader and the writer: lower-case, fold
 * accents away, turn every run of characters outside `[a-z0-9]` into one space, trim.
 */
module Normalizer {
  import opened Wrappers
  import opened Text

  predicate IsAlnum(c: char) {
    'a' <= c <= 'z' || '0' <= c <= '9'
  }

  /**
   * Canonical decomposition (NFD) of one lower-case character followed by the removal of
   * the combining diacritical marks U+0300..U+036F. The Latin-1 letters that decompose keep
   * their base letter; a combining mark disappears; every other character is kept.
   */
  function FoldChar(c: char): (r: string)
    ensures |r| <= 1
    ensures r == [] <==> '\U{0300}' <= c <= '\U{036F}'
    ensures r != [] && r != [c] ==> '\U{00E0}' <= c <= '\U{00FF}' && 'a' <= r[0] <= 'z'
    ensures IsAlnum(c) ==> r == [c]
  {
    if '\U{0300}' <= c <= '\U{036F}' then ""
    else if '\U{00E0}' <= c <= '\U{00E5}' then "a"
    else if c == '\U{00E7}' then "c"
    else if '\U{00E8}' <= c <= '\U{00EB}' then "e"
    else if '\U{00EC}' <= c <= '\U{00EF}' then "i"
    else if c == '\U{00F1}' then "n"
    else if '\U{00F2}' <= c <= '\U{00F6}' then "o"
    else if '\U{00F9}' <= c <= '\U{00FC}' then "u"
    else if c == '\U{00FD}' || c == '\U{00FF}' then "y"
    else [c]
  }

  /** NFD decomposition, then every combining mark U+0300..U+036F removed, character by character. */
  function StripAccents(s: string): (r: string)
    ensures |r| <= |s|
    ensures forall i :: 0 <= i < |r| ==> !('\U{0300}' <= r[i] <= '\U{036F}')
  {
    if s == [] then [] else FoldChar(s[0]) + StripAccents(s[1..])
  }

  /** The leading run of characters outside `[a-z0-9]` removed. */
  function SkipSeparators(t: string): (r: string)
    ensures |r| <= |t|
    ensures r == [] || IsAlnum(r[0])
  {
    if t != [] && !IsAlnum(t[0]) then SkipSeparators(t[1..]) else t
  }

  /** `replace(/[^a-z0-9]+/g, " ")`: each maximal run of other characters becomes one space. */
  function Squash(t: string): (r: string)
    ensures Squashed(r)
    ensures t != [] && IsAlnum(t[0]) ==> r != [] && r[0] == t[0]
    decreases |t|
  {
    if t == [] then []
    else if IsAlnum(t[0]) then [t[0]] + Squash(t[1..])
    else [' '] + Squash(SkipSeparators(t[1..]))
  }

  /** Only `a`-`z`, `0`-`9` and spaces, never two spaces in a row. */
  ghost predicate Squashed(r: string) {
    && (forall i :: 0 <= i < |r| ==> IsAlnum(r[i]) || r[i] == ' ')
    && (forall i, j :: 0 <= i < j < |r| && j == i + 1 && r[i] == ' ' ==> r[j] != ' ')
  }

  /** The shape of every normalised string. */
  ghost predicate Canonical(r: string) {
    Squashed(r) && (r != [] ==> r[0] != ' ' && r[|r| - 1] != ' ')
  }

  /** `normalize(str)` on a string: only `a`-`z`, `0`-`9` and single inner spaces remain. */
  function Normalize(s: string): (r: string)
    ensures Canonical(r)
  {
    var u := Squash(StripAccents(ToLower(s)));
    TrimKeepsSquashed(u);
    Trim(u)
  }

  /** Trimming a squashed string leaves no space at either end and keeps the rest of its shape. */
  lemma TrimKeepsSquashed(u: string)
    requires Squashed(u)
    ensures Canonical(Trim(u))
  {
    SliceKeepsSquashed(u, LeadingWhitespace(u), |Trim(u)|);
  }

  /** Any slice of a squashed string is squashed. */
  lemma SliceKeepsSquashed(u: string, k: nat, n: nat)
    requires k + n <= |u|
    requires Squashed(u)
    ensures Squashed(u[k..k + n])
  {
    var r := u[k..k + n];
    forall i | 0 <= i < n ensures IsAlnum(r[i]) || r[i] == ' ' {
      assert r[i] == u[k + i];
    }
    forall i, j | 0 <= i < j < n && j == i + 1 && r[i] == ' ' ensures r[j] != ' ' {
      assert r[i] == u[k + i] && r[j] == u[k + j];
    }
  }

  /** `normalize(str)` on any value: `String(str || "")` makes a missing value the empty string. */
  function NormalizeField(v: Option<string>): (r: string)
    ensures Canonical(r)
    ensures v.None? ==> r == ""
  {
    Normalize(v.GetOr(""))
  }

  // ---- An independent description: the words of the folded text, joined by single spaces ----

  /** The longest prefix of `u` made of `[a-z0-9]` characters. */
  function AlnumRun(u: string): (w: string)
    ensures |w| <= |u| && w == u[..|w|]
    ensures forall i :: 0 <= i < |w| ==> IsAlnum(w[i])
    ensures |w| == |u| || !IsAlnum(u[|w|])
  {
    if u != [] && IsAlnum(u[0]) then [u[0]] + AlnumRun(u[1..]) else []
  }

  /** The maximal runs of `[a-z0-9]` characters of `t`, in order. */
  function Words(t: string): (ws: seq<string>)
    decreases |t|
  {
    var u := SkipSeparators(t);
    if u == [] then []
    else
      var w := AlnumRun(u);
      [w] + Words(u[|w|..])
  }

  /** The words separated by one space each. */
  function Join(ws: seq<string>): string {
    if ws == [] then []
    else if |ws| == 1 then ws[0]
    else ws[0] + " " + Join(ws[1..])
  }

  lemma {:induction false} LowerKeepsCanonicalChars(r: string)
    requires forall i :: 0 <= i < |r| ==> IsAlnum(r[i]) || r[i] == ' '
    ensures ToLower(r) == r
  {
  }

  lemma {:induction false} StripAccentsKeepsCanonicalChars(r: string)
    requires forall i :: 0 <= i < |r| ==> IsAlnum(r[i]) || r[i] == ' '
    ensures StripAccents(r) == r
  {
    if r != [] {
      StripAccentsKeepsCanonicalChars(r[1..]);
    }
  }

  lemma {:induction false} SquashKeepsSquashed(r: string)
    requires Squashed(r)
    ensures Squash(r) == r
    decreases |r|
  {
    if r != [] {
      if !IsAlnum(r[0]) {
        assert r[1..] == [] || IsAlnum(r[1]);
        assert SkipSeparators(r[1..]) == r[1..];
      }
      SquashKeepsSquashed(r[1..]);
    }
  }

  /** A canonical string is its own normal form. */
  lemma CanonicalIsNormal(r: string)
    requires Canonical(r)
    ensures Normalize(r) == r
  {
    LowerKeepsCanonicalChars(r);
    StripAccentsKeepsCanonicalChars(r);
    SquashKeepsSquashed(r);
    TrimKeepsCanonical(r);
  }

  /** A canonical string has no white space at either end. */
  lemma TrimKeepsCanonical(r: string)
    requires Canonical(r)
    ensures Trim(r) == r
  {
    if r != [] {
      AlnumIsNotWhitespace(r[0]);
      AlnumIsNotWhitespace(r[|r| - 1]);
      assert TrimStart(r) == r;
      assert TrimEnd(r) == r;
    }
  }

  lemma AlnumIsNotWhitespace(c: char)
    requires IsAlnum(c) || c == ' '
    requires c != ' '
    ensures !IsWhitespace(c)
  {
  }

  /** Normalising twice is normalising once. */
  lemma NormalizeIdempotent(s: string)
    ensures Normalize(Normalize(s)) == Normalize(s)
  {
    CanonicalIsNormal(Normalize(s));
  }

  lemma {:induction false} SkipSeparatorsAfterSeparators(p: string, y: string)
    requires forall i :: 0 <= i < |p| ==> !IsAlnum(p[i])
    ensures SkipSeparators(p + y) == SkipSeparators(y)
  {
    if p != [] {
      assert !IsAlnum(p[0]);
      assert (p + y)[0] == p[0] && (p + y)[1..] == p[1..] + y;
      assert SkipSeparators(p + y) == SkipSeparators(p[1..] + y);
      SkipSeparatorsAfterSeparators(p[1..], y);
    } else {
      assert p + y == y;
    }
  }

  lemma WordsAfterSeparators(p: string, y: string)
    requires forall i :: 0 <= i < |p| ==> !IsAlnum(p[i])
    ensures Words(p + y) == Words(y)
  {
    SkipSeparatorsAfterSeparators(p, y);
  }

  lemma {:induction false} SkipSeparatorsOnly(y: string, q: string)
    requires SkipSeparators(y) == []
    ensures SkipSeparators(y + q) == SkipSeparators(q)
  {
    if y != [] {
      assert (y + q)[0] == y[0] && (y + q)[1..] == y[1..] + q;
      SkipSeparatorsOnly(y[1..], q);
    } else {
      assert y + q == q;
    }
  }

  lemma {:induction false} SkipSeparatorsBeforeTail(y: string, q: string)
    requires SkipSeparators(y) != []
    ensures SkipSeparators(y + q) == SkipSeparators(y) + q
  {
    if !IsAlnum(y[0]) {
      assert (y + q)[1..] == y[1..] + q;
      SkipSeparatorsBeforeTail(y[1..], q);
    }
  }

  lemma {:induction false} AlnumRunBeforeTail(u: string, q: string)
    requires |AlnumRun(u)| < |u| || q == [] || !IsAlnum(q[0])
    ensures AlnumRun(u + q) == AlnumRun(u)
  {
    if u != [] && IsAlnum(u[0]) {
      assert (u + q)[1..] == u[1..] + q;
      AlnumRunBeforeTail(u[1..], q);
    }
  }

  /** Trailing separators add no word. */
  lemma {:induction false} WordsBeforeSeparators(y: string, q: string)
    requires forall i :: 0 <= i < |q| ==> !IsAlnum(q[i])
    ensures Words(y + q) == Words(y)
    decreases |y|
  {
    var u := SkipSeparators(y);
    if u == [] {
      SkipSeparatorsOnly(y, q);
      SkipSeparatorsAfterSeparators(q, []);
      assert q + [] == q;
    } else {
      SkipSeparatorsBeforeTail(y, q);
      var w := AlnumRun(u);
      AlnumRunBeforeTail(u, q);
      assert (u + q)[|w|..] == u[|w|..] + q;
      WordsBeforeSeparators(u[|w|..], q);
    }
  }

  lemma CanonicalSplit(c: string) returns (w: string, c': string)
    requires Canonical(c) && c != []
    requires |AlnumRun(c)| < |c|
    ensures w == AlnumRun(c) && c == w + " " + c'
    ensures Canonical(c') && c' != [] && |c'| < |c|
    ensures c[|w|..] == [' '] + c'
  {
    w := AlnumRun(c);
    assert c[|w|] == ' ';
    c' := c[|w| + 1..];
    assert c == w + " " + c';
    assert c' != [] by {
      assert c[|c| - 1] != ' ';
    }
    assert c'[0] != ' ' by {
      assert c[|w|] == ' ' && c[|w| + 1] == c'[0];
    }
    forall i, j | 0 <= i < j < |c'| && j == i + 1 && c'[i] == ' ' ensures c'[j] != ' ' {
      assert c[|w| + 1 + i] == c'[i] && c[|w| + 1 + j] == c'[j];
    }
  }

  /** A canonical string is the join of its own words. */
  lemma {:induction false} CanonicalIsJoinedWords(c: string)
    requires Canonical(c)
    ensures Join(Words(c)) == c
    decreases |c|
  {
    if c != [] {
      var w := AlnumRun(c);
      if |w| < |c| {
        var w', c' := CanonicalSplit(c);
        WordsOfCanonicalSplit(c, c');
        CanonicalIsJoinedWords(c');
        JoinCons(w, Words(c'));
      } else {
        WordsOfOneWord(c);
      }
    }
  }

  lemma WordsOfCanonicalSplit(c: string, c': string)
    requires Canonical(c) && c != [] && |AlnumRun(c)| < |c|
    requires Canonical(c') && c' != [] && c[|AlnumRun(c)|..] == [' '] + c'
    ensures Words(c) == [AlnumRun(c)] + Words(c') && Words(c') != []
  {
    assert SkipSeparators(c) == c;
    WordsAfterSeparators([' '], c');
    assert SkipSeparators(c') == c';
  }

  lemma WordsOfOneWord(c: string)
    requires Canonical(c) && c != [] && |AlnumRun(c)| == |c|
    ensures Words(c) == [c]
  {
    assert SkipSeparators(c) == c;
    assert AlnumRun(c) == c;
    assert c[|c|..] == [];
    assert Words(c[|c|..]) == [];
  }

  lemma JoinCons(w: string, ws: seq<string>)
    requires ws != []
    ensures Join([w] + ws) == w + " " + Join(ws)
  {
    assert ([w] + ws)[1..] == ws;
  }

  lemma {:induction false} SquashAlnumRun(t: string)
    requires t != [] && IsAlnum(t[0])
    ensures Squash(t) == AlnumRun(t) + Squash(t[|AlnumRun(t)|..])
    decreases |t|
  {
    assert Squash(t) == [t[0]] + Squash(t[1..]);
    assert AlnumRun(t) == [t[0]] + AlnumRun(t[1..]);
    if t[1..] != [] && IsAlnum(t[1]) {
      SquashAlnumRun(t[1..]);
      assert t[1..][|AlnumRun(t[1..])|..] == t[|AlnumRun(t)|..];
    } else {
      assert AlnumRun(t[1..]) == [];
      assert t[|AlnumRun(t)|..] == t[1..];
    }
  }

  /** Squashing separator runs keeps the words. */
  lemma {:induction false} SquashKeepsWords(t: string)
    ensures Words(Squash(t)) == Words(t)
    decreases |t|
  {
    var u := SkipSeparators(t);
    if t == [] {
    } else if !IsAlnum(t[0]) {
      assert SkipSeparators(t[1..]) == u;
      SquashKeepsWords(u);
      WordsAfterSeparators([' '], Squash(u));
      assert Squash(t) == [' '] + Squash(u);
      if u != [] {
        assert Words(u) == Words(t);
      }
    } else {
      var w := AlnumRun(t);
      var rest := t[|w|..];
      SquashAlnumRun(t);
      assert Squash(rest) == [] || Squash(rest)[0] == ' ';
      AlnumRunBeforeTail(w, Squash(rest));
      assert AlnumRun(w) == w;
      assert SkipSeparators(Squash(t)) == Squash(t);
      assert (w + Squash(rest))[|w|..] == Squash(rest);
      SquashKeepsWords(rest);
    }
  }

  lemma WhitespaceIsNotAlnum(c: char)
    requires IsWhitespace(c)
    ensures !IsAlnum(c)
  {
  }

  lemma TrimStartKeepsWords(x: string)
    ensures Words(TrimStart(x)) == Words(x)
  {
    var r := TrimStart(x);
    TrimStartDropsWhitespace(x);
    var pre := x[..|x| - |r|];
    assert x == pre + r;
    forall i | 0 <= i < |pre| ensures !IsAlnum(pre[i]) {
      WhitespaceIsNotAlnum(x[i]);
    }
    WordsAfterSeparators(pre, r);
  }

  lemma TrimEndKeepsWords(x: string)
    ensures Words(TrimEnd(x)) == Words(x)
  {
    var r := TrimEnd(x);
    TrimEndDropsWhitespace(x);
    var post := x[|r|..];
    assert x == r + post;
    forall i | 0 <= i < |post| ensures !IsAlnum(post[i]) {
      assert post[i] == x[|r| + i];
      WhitespaceIsNotAlnum(x[|r| + i]);
    }
    WordsBeforeSeparators(r, post);
  }

  /** Trimming whitespace keeps the words. */
  lemma TrimKeepsWords(x: string)
    ensures Words(Trim(x)) == Words(x)
  {
    assert Trim(x) == TrimEnd(TrimStart(x));
    TrimStartKeepsWords(x);
    TrimEndKeepsWords(TrimStart(x));
  }

  /**
   * What `normalize` computes, stated without regular expressions: the maximal `[a-z0-9]`
   * runs of the lower-cased, accent-stripped text, joined by single spaces.
   */
  lemma NormalizeIsJoinedWords(s: string)
    ensures Normalize(s) == Join(Words(StripAccents(ToLower(s))))
  {
    var t := StripAccents(ToLower(s));
    CanonicalIsJoinedWords(Normalize(s));
    TrimKeepsWords(Squash(t));
    SquashKeepsWords(t);
  }

  lemma {:induction false} StripAccentsAppend(a: string, b: string)
    ensures StripAccents(a + b) == StripAccents(a) + StripAccents(b)
  {
    if a == [] {
      assert a + b == b;
    } else {
      assert (a + b)[0] == a[0] && (a + b)[1..] == a[1..] + b;
      StripAccentsAppend(a[1..], b);
    }
  }

  /** Separator runs never cross a boundary that follows a letter or digit. */
  lemma {:induction false} SquashAppend(a: string, b: string)
    requires a != [] && IsAlnum(a[|a| - 1])
    ensures Squash(a + b) == Squash(a) + Squash(b)
    decreases |a|
  {
    assert (a + b)[0] == a[0] && (a + b)[1..] == a[1..] + b;
    if |a| == 1 {
      assert a[1..] + b == b;
    } else if IsAlnum(a[0]) {
      SquashAppend(a[1..], b);
    } else {
      var u := SkipSeparators(a[1..]);
      SkipSeparatorsBeforeTailOf(a[1..], b);
      assert u != [] && u[|u| - 1] == a[|a| - 1];
      SquashAppend(u, b);
    }
  }

  lemma {:induction false} SkipSeparatorsBeforeTailOf(y: string, q: string)
    requires y != [] && IsAlnum(y[|y| - 1])
    ensures SkipSeparators(y) != [] && SkipSeparators(y)[|SkipSeparators(y)| - 1] == y[|y| - 1]
    ensures SkipSeparators(y + q) == SkipSeparators(y) + q
  {
    if !IsAlnum(y[0]) {
      assert |y| > 1;
      assert (y + q)[0] == y[0] && (y + q)[1..] == y[1..] + q;
      SkipSeparatorsBeforeTailOf(y[1..], q);
    }
  }

  lemma {:induction false} ToLowerAppend(a: string, b: string)
    ensures ToLower(a + b) == ToLower(a) + ToLower(b)
  {
    if a == [] {
      assert a + b == b;
    } else {
      assert (a + b)[0] == a[0] && (a + b)[1..] == a[1..] + b;
      ToLowerAppend(a[1..], b);
    }
  }

  // The example "Café—Déjà Vu!!", worked through in pieces small enough to evaluate one by one.

  lemma ExampleLower1() ensures ToLower("Caf\U{00E9}\U{2014}D") == "caf\U{00E9}\U{2014}d" {}
  lemma ExampleLower2() ensures ToLower("\U{00E9}j\U{00E0}") == "\U{00E9}j\U{00E0}" {}
  lemma ExampleLower3() ensures ToLower(" Vu!!") == " vu!!" {}
  lemma ExampleStrip1() ensures StripAccents("caf\U{00E9}\U{2014}d") == "cafe\U{2014}d" {
    var front, back := "caf", "\U{00E9}\U{2014}d";
    assert front + back == "caf\U{00E9}\U{2014}d";
    StripAccentsAppend(front, back);
    ExampleStrip1a();
    ExampleStrip1b();
  }
  lemma ExampleStrip1a() ensures StripAccents("caf") == "caf" {}
  lemma ExampleStrip1b() ensures StripAccents("\U{00E9}\U{2014}d") == "e\U{2014}d" {
    assert StripAccents("d") == "d";
    assert StripAccents("\U{2014}d") == "\U{2014}d";
  }
  lemma ExampleStrip2() ensures StripAccents("\U{00E9}j\U{00E0}") == "eja" {}
  lemma ExampleStrip3() ensures StripAccents(" vu!!") == " vu!!" {}
  lemma ExampleSquash1() ensures Squash("cafe") == "cafe" {}
  lemma ExampleSquash2() ensures Squash("\U{2014}deja") == " deja" {
    assert Squash("a") == "a" && Squash("ja") == "ja" && Squash("eja") == "eja";
    assert Squash("deja") == "deja";
    assert SkipSeparators("deja") == "deja";
  }
  lemma ExampleSquash3() ensures Squash(" vu") == " vu" {
    assert Squash("u") == "u";
    assert Squash("vu") == "vu";
    assert SkipSeparators("vu") == "vu";
  }
  lemma ExampleSquash4() ensures Squash("!!") == " " {}

  lemma ExampleLower()
    ensures ToLower("Caf\U{00E9}\U{2014}D" + ("\U{00E9}j\U{00E0}" + " Vu!!")) == "caf\U{00E9}\U{2014}d" + ("\U{00E9}j\U{00E0}" + " vu!!")
  {
    ToLowerAppend("Caf\U{00E9}\U{2014}D", "\U{00E9}j\U{00E0}" + " Vu!!");
    ToLowerAppend("\U{00E9}j\U{00E0}", " Vu!!");
    ExampleLower1();
    ExampleLower2();
    ExampleLower3();
  }

  lemma ExampleStripAccents()
    ensures StripAccents("caf\U{00E9}\U{2014}d" + ("\U{00E9}j\U{00E0}" + " vu!!")) == "cafe\U{2014}d" + ("eja" + " vu!!")
  {
    StripAccentsAppend("caf\U{00E9}\U{2014}d", "\U{00E9}j\U{00E0}" + " vu!!");
    StripAccentsAppend("\U{00E9}j\U{00E0}", " vu!!");
    ExampleStrip1();
    ExampleStrip2();
    ExampleStrip3();
  }

  lemma ExampleSquash()
    ensures Squash("cafe" + ("\U{2014}deja" + (" vu" + "!!"))) == "cafe" + (" deja" + (" vu" + " "))
  {
    SquashAppend("cafe", "\U{2014}deja" + (" vu" + "!!"));
    SquashAppend("\U{2014}deja", " vu" + "!!");
    SquashAppend(" vu", "!!");
    ExampleSquash1();
    ExampleSquash2();
    ExampleSquash3();
    ExampleSquash4();
  }

  lemma ExampleTrim()
    ensures Trim("cafe deja vu ") == "cafe deja vu"
  {
    var s := "cafe deja vu ";
    assert TrimStart(s) == s;
    assert s[12] == ' ' && s[..12] == "cafe deja vu";
    assert TrimEnd(s[..12]) == s[..12];
    assert TrimEnd(s) == s[..12];
  }

  /** "Café—Déjà Vu!!" normalises to "cafe deja vu"; a missing value to the empty string. */
  lemma NormalizeExamples()
    ensures Normalize("Caf\U{00E9}\U{2014}D" + ("\U{00E9}j\U{00E0}" + " Vu!!")) == "cafe deja vu"
    ensures NormalizeField(None) == ""
  {
    ExampleLower();
    ExampleStripAccents();
    ExampleRegroup();
    ExampleSquash();
    ExampleTrim();
  }

  /** The pieces of one step's output regrouped as the next step's input. */
  lemma ExampleRegroup()
    ensures "cafe\U{2014}d" + ("eja" + " vu!!") == "cafe" + ("\U{2014}deja" + (" vu" + "!!"))
    ensures "cafe" + (" deja" + (" vu" + " ")) == "cafe deja vu "
  {
  }
}
