/**
 * `generateSlug`, shared by the resource form and the category form: lower-case
 * the text, replace each run of characters outside [a-z0-9] by a single "-",
 * then drop one leading and one trailing "-".
 * Lower-casing maps A-Z to a-z and the two non-ASCII characters whose lower
 * case holds an ASCII letter (the Kelvin sign and capital I with dot above);
 * every other character that is not [a-z0-9] is a separator whatever its
 * lower case, so a slug does not depend on it.
 */
module Slug {

  predicate IsLowerAlnum(c: char)
  {
    'a' <= c <= 'z' || '0' <= c <= '9'
  }

  predicate IsSlugChar(c: char)
  {
    IsLowerAlnum(c) || c == '-'
  }

  /** No two "-" stand next to each other in `s`. */
  predicate NoDoubleHyphen(s: string)
  {
    forall i :: 0 <= i < |s| - 1 ==> !(s[i] == '-' && s[i + 1] == '-')
  }

  /** The shape of a URL-safe slug: only [a-z0-9-], no "--", and no "-" at either end. */
  predicate IsSlug(s: string)
  {
    && (forall i :: 0 <= i < |s| ==> IsSlugChar(s[i]))
    && NoDoubleHyphen(s)
    && (|s| > 0 ==> s[0] != '-' && s[|s| - 1] != '-')
  }

  /** U+212A KELVIN SIGN: its lower case is the ASCII "k". */
  const KelvinSign: char := '\U{212A}'
  /** U+0130 LATIN CAPITAL LETTER I WITH DOT ABOVE: its lower case is "i" then U+0307. */
  const CapitalIWithDot: char := '\U{0130}'
  const CombiningDotAbove: char := '\U{0307}'

  /** The characters whose lower case holds a letter or digit of a slug. */
  predicate SlugSource(c: char)
  {
    'A' <= c <= 'Z' || IsLowerAlnum(c) || c == KelvinSign || c == CapitalIWithDot
  }

  /** `toLowerCase` of one character, for every character whose lower case a slug can tell apart. */
  function Lower(c: char): (d: string)
    ensures 'A' <= c <= 'Z' ==> |d| == 1 && 'a' <= d[0] <= 'z' && d[0] as int - 'a' as int == c as int - 'A' as int
    ensures c == KelvinSign ==> d == "k"
    ensures c == CapitalIWithDot ==> d == ['i', CombiningDotAbove]
    ensures !('A' <= c <= 'Z') && c != KelvinSign && c != CapitalIWithDot ==> d == [c]
  {
    if 'A' <= c <= 'Z' then [(c as int - 'A' as int + 'a' as int) as char]
    else if c == KelvinSign then "k"
    else if c == CapitalIWithDot then ['i', CombiningDotAbove]
    else [c]
  }

  /** `toLowerCase`: each character's lower case in turn; a text of [a-z0-9-] is its own lower case. */
  function ToLower(s: string): (r: string)
    ensures |r| >= |s|
    ensures (forall i :: 0 <= i < |s| ==> IsSlugChar(s[i])) ==> r == s
    ensures (forall i :: 0 <= i < |s| ==> s[i] != CapitalIWithDot) ==>
      |r| == |s| && forall i :: 0 <= i < |s| ==> [r[i]] == Lower(s[i])
  {
    if s == [] then [] else Lower(s[0]) + ToLower(s[1..])
  }

  /** What is left of `s` after its leading run of characters outside [a-z0-9]. */
  function SkipSeparators(s: string): (r: string)
    ensures |r| <= |s|
    ensures r == [] || IsLowerAlnum(r[0])
    ensures r != [] ==> r[|r| - 1] == s[|s| - 1]
    ensures forall i :: 0 <= i < |s| - |r| ==> !IsLowerAlnum(s[i])
  {
    if s == [] || IsLowerAlnum(s[0]) then s else SkipSeparators(s[1..])
  }

  /**
   * `replace(/[^a-z0-9]+/g, "-")`: every maximal run of separators becomes one
   * "-", so the text never grows, a non-empty text stays non-empty, and a text
   * that starts with a letter or digit still does.
   */
  function CollapseSeparators(s: string): (r: string)
    ensures |r| <= |s|
    ensures s != [] ==> r != []
    ensures s == [] || IsLowerAlnum(s[0]) ==> r == [] || IsLowerAlnum(r[0])
    decreases |s|
  {
    if s == [] then []
    else if IsLowerAlnum(s[0]) then [s[0]] + CollapseSeparators(s[1..])
    else "-" + CollapseSeparators(SkipSeparators(s[1..]))
  }

  /** `replace(/(^-|-$)/g, "")`: drops one "-" at the start and one at the end. */
  function TrimHyphens(s: string): (r: string)
    ensures s == "-" ==> r == ""
    ensures |s| > 1 && s[0] == '-' && s[|s| - 1] == '-' ==> r == s[1..|s| - 1]
    ensures |s| > 0 && s[0] == '-' && s[|s| - 1] != '-' ==> r == s[1..]
    ensures |s| > 0 && s[0] != '-' && s[|s| - 1] == '-' ==> r == s[..|s| - 1]
    ensures (|s| > 0 ==> s[0] != '-' && s[|s| - 1] != '-') ==> r == s
  {
    var a := if |s| > 0 && s[0] == '-' then s[1..] else s;
    if |a| > 0 && a[|a| - 1] == '-' then a[..|a| - 1] else a
  }

  /** `generateSlug`: always a URL-safe slug. */
  function GenerateSlug(title: string): (slug: string)
    ensures IsSlug(slug)
  {
    CollapseSeparatorsShape(ToLower(title));
    TrimHyphensShape(CollapseSeparators(ToLower(title)));
    TrimHyphens(CollapseSeparators(ToLower(title)))
  }

  /** The characters of `s` that are in [a-z0-9], in order. */
  function Alnums(s: string): (r: string)
  {
    if s == [] then []
    else if IsLowerAlnum(s[0]) then [s[0]] + Alnums(s[1..])
    else Alnums(s[1..])
  }

  /** No "--" in `s` and only [a-z0-9-]: the shape CollapseSeparators produces. */
  predicate Collapsed(s: string)
  {
    && (forall i :: 0 <= i < |s| ==> IsSlugChar(s[i]))
    && NoDoubleHyphen(s)
  }

  /** A letter or digit, or a "-" before a letter or digit, can go in front of a collapsed text. */
  lemma CollapsedPrepend(x: char, c: string)
    requires Collapsed(c) && IsSlugChar(x)
    requires x == '-' ==> c == [] || IsLowerAlnum(c[0])
    ensures Collapsed([x] + c)
  {
    var t := [x] + c;
    forall i | 0 <= i < |t| ensures IsSlugChar(t[i]) {
      if i > 0 { assert t[i] == c[i - 1]; }
    }
    forall i | 0 <= i < |t| - 1 ensures !(t[i] == '-' && t[i + 1] == '-') {
      if i > 0 { assert t[i] == c[i - 1] && t[i + 1] == c[i]; }
    }
  }

  /** After the replacement only [a-z0-9-] remain and no two "-" are adjacent. */
  lemma {:induction false} CollapseSeparatorsShape(s: string)
    ensures Collapsed(CollapseSeparators(s))
    decreases |s|
  {
    if s == [] {
    } else if IsLowerAlnum(s[0]) {
      CollapseSeparatorsShape(s[1..]);
      CollapsedPrepend(s[0], CollapseSeparators(s[1..]));
    } else {
      var t := SkipSeparators(s[1..]);
      CollapseSeparatorsShape(t);
      CollapsedPrepend('-', CollapseSeparators(t));
    }
  }

  lemma TrimHyphensShape(s: string)
    requires Collapsed(s)
    ensures IsSlug(TrimHyphens(s))
  {
    var a := if |s| > 0 && s[0] == '-' then s[1..] else s;
    assert Collapsed(a);
    if |a| > 1 && a[|a| - 1] == '-' {
      assert a[|a| - 2] != '-';
    }
  }

  lemma {:induction false} CollapseSeparatorsKeepsCollapsed(s: string)
    requires Collapsed(s)
    requires |s| > 0 ==> s[0] != '-' || |s| == 1 || s[1] != '-'
    ensures CollapseSeparators(s) == s
    decreases |s|
  {
    if s == [] {
    } else if IsLowerAlnum(s[0]) {
      CollapseSeparatorsKeepsCollapsed(s[1..]);
      assert s == [s[0]] + s[1..];
    } else {
      assert s[0] == '-';
      assert SkipSeparators(s[1..]) == s[1..];
      CollapseSeparatorsKeepsCollapsed(s[1..]);
      assert s == "-" + s[1..];
    }
  }

  /** A slug is its own slug: the transform leaves an already URL-safe slug alone. */
  lemma GenerateSlugFixesSlugs(s: string)
    requires IsSlug(s)
    ensures GenerateSlug(s) == s
  {
    assert ToLower(s) == s;
    CollapseSeparatorsKeepsCollapsed(s);
    assert |s| > 0 ==> s[0] != '-' && s[|s| - 1] != '-';
    assert TrimHyphens(s) == s;
  }

  /** Applying `generateSlug` twice gives the same as applying it once. */
  lemma GenerateSlugIdempotent(title: string)
    ensures GenerateSlug(GenerateSlug(title)) == GenerateSlug(title)
  {
    GenerateSlugFixesSlugs(GenerateSlug(title));
  }

  lemma {:induction false} AlnumsSkipSeparators(s: string)
    ensures Alnums(SkipSeparators(s)) == Alnums(s)
    decreases |s|
  {
    if s != [] && !IsLowerAlnum(s[0]) {
      AlnumsSkipSeparators(s[1..]);
    }
  }

  lemma {:induction false} AlnumsCollapseSeparators(s: string)
    ensures Alnums(CollapseSeparators(s)) == Alnums(s)
    decreases |s|
  {
    if s == [] {
    } else if IsLowerAlnum(s[0]) {
      AlnumsCollapseSeparators(s[1..]);
      assert ([s[0]] + CollapseSeparators(s[1..]))[1..] == CollapseSeparators(s[1..]);
    } else {
      var t := SkipSeparators(s[1..]);
      AlnumsCollapseSeparators(t);
      AlnumsSkipSeparators(s[1..]);
      assert ("-" + CollapseSeparators(t))[1..] == CollapseSeparators(t);
    }
  }

  lemma AlnumsDropHyphenFront(s: string)
    requires |s| > 0 && s[0] == '-'
    ensures Alnums(s[1..]) == Alnums(s)
  {
  }

  lemma {:induction false} AlnumsDropHyphenBack(s: string)
    requires |s| > 0 && s[|s| - 1] == '-'
    ensures Alnums(s[..|s| - 1]) == Alnums(s)
    decreases |s|
  {
    if |s| > 1 {
      AlnumsDropHyphenBack(s[1..]);
      assert s[1..][..|s[1..]| - 1] == s[..|s| - 1][1..];
    }
  }

  /**
   * No letter or digit is lost or invented: the letters and digits of the slug
   * are exactly those of the lower-cased title, in the same order.
   */
  lemma GenerateSlugKeepsAlnums(title: string)
    ensures Alnums(GenerateSlug(title)) == Alnums(ToLower(title))
  {
    AlnumsCollapseSeparators(ToLower(title));
    AlnumsTrimHyphens(CollapseSeparators(ToLower(title)));
  }

  lemma AlnumsTrimHyphens(c: string)
    ensures Alnums(TrimHyphens(c)) == Alnums(c)
  {
    var a := if |c| > 0 && c[0] == '-' then c[1..] else c;
    if |c| > 0 && c[0] == '-' {
      AlnumsDropHyphenFront(c);
    }
    if |a| > 0 && a[|a| - 1] == '-' {
      AlnumsDropHyphenBack(a);
    }
  }

  lemma {:induction false} AlnumsConcat(a: string, b: string)
    ensures Alnums(a + b) == Alnums(a) + Alnums(b)
    decreases |a|
  {
    if a == [] {
      assert a + b == b;
    } else {
      AlnumsConcat(a[1..], b);
      assert (a + b)[0] == a[0] && (a + b)[1..] == a[1..] + b;
    }
  }

  /** A character contributes a letter or digit to the lower-cased text exactly when it is a slug source. */
  lemma AlnumsOfLower(c: char)
    ensures Alnums(Lower(c)) == [] <==> !SlugSource(c)
  {
    if c == CapitalIWithDot {
      assert Alnums(Lower(c)) == "i" + Alnums([CombiningDotAbove]);
    }
  }

  lemma {:induction false} AlnumsOfToLowerEmpty(s: string)
    ensures Alnums(ToLower(s)) == [] <==> forall i :: 0 <= i < |s| ==> !SlugSource(s[i])
    decreases |s|
  {
    if s != [] {
      AlnumsConcat(Lower(s[0]), ToLower(s[1..]));
      AlnumsOfLower(s[0]);
      AlnumsOfToLowerEmpty(s[1..]);
      assert forall i :: 1 <= i < |s| ==> s[i] == s[1..][i - 1];
    }
  }

  /**
   * The slug is empty exactly when the title has no ASCII letter or digit, no
   * Kelvin sign and no capital I with dot above.
   */
  lemma GenerateSlugEmptyIff(title: string)
    ensures GenerateSlug(title) == "" <==> forall i :: 0 <= i < |title| ==> !SlugSource(title[i])
  {
    var slug := GenerateSlug(title);
    GenerateSlugKeepsAlnums(title);
    AlnumsOfToLowerEmpty(title);
    if slug != "" {
      assert Alnums(slug) == [slug[0]] + Alnums(slug[1..]);
    }
  }

  /** A word of a slug: a non-empty run of [a-z0-9]. */
  predicate IsWord(w: string)
  {
    |w| > 0 && forall i :: 0 <= i < |w| ==> IsLowerAlnum(w[i])
  }

  /**
   * The maximal runs of [a-z0-9] in `s`, in order: a letter or digit extends
   * the word that follows it when it stands right before that word, and starts
   * a word of its own otherwise; a separator belongs to no word.
   */
  function Words(s: string): (ws: seq<string>)
    ensures s != [] && IsLowerAlnum(s[0]) ==> ws != []
  {
    if s == [] then []
    else
      var ws := Words(s[1..]);
      if !IsLowerAlnum(s[0]) then ws
      else if |s| > 1 && IsLowerAlnum(s[1]) then [[s[0]] + ws[0]] + ws[1..]
      else [[s[0]]] + ws
  }

  /** Every word is a non-empty run of letters and digits. */
  lemma {:induction false} WordsAreWords(s: string)
    ensures forall k :: 0 <= k < |Words(s)| ==> IsWord(Words(s)[k])
    decreases |s|
  {
    if s != [] {
      var ws := Words(s[1..]);
      WordsAreWords(s[1..]);
      if IsLowerAlnum(s[0]) && |s| > 1 && IsLowerAlnum(s[1]) {
        var w := [s[0]] + ws[0];
        assert IsWord(ws[0]);
        assert IsWord(w);
      }
    }
  }

  /** Leading separators do not change the words. */
  lemma {:induction false} WordsSkipSeparators(s: string)
    ensures Words(SkipSeparators(s)) == Words(s)
    decreases |s|
  {
    if s != [] && !IsLowerAlnum(s[0]) {
      WordsSkipSeparators(s[1..]);
    }
  }

  /** Words joined by single "-". */
  function JoinWords(ws: seq<string>): (r: string)
  {
    if ws == [] then [] else if |ws| == 1 then ws[0] else ws[0] + "-" + JoinWords(ws[1..])
  }

  lemma {:induction false} JoinWordsEnds(ws: seq<string>)
    requires ws != [] && forall k :: 0 <= k < |ws| ==> IsWord(ws[k])
    ensures var j := JoinWords(ws); |j| > 0 && IsLowerAlnum(j[0]) && IsLowerAlnum(j[|j| - 1])
    decreases |ws|
  {
    assert IsWord(ws[0]);
    if |ws| > 1 {
      JoinWordsEnds(ws[1..]);
    }
  }

  lemma JoinWordsPrependToFirst(c: char, ws: seq<string>)
    requires ws != []
    ensures JoinWords([[c] + ws[0]] + ws[1..]) == [c] + JoinWords(ws)
  {
    if |ws| > 1 {
      assert ([[c] + ws[0]] + ws[1..])[1..] == ws[1..];
    }
  }

  lemma JoinWordsPrependWord(c: char, ws: seq<string>)
    ensures JoinWords([[c]] + ws) == if ws == [] then [c] else [c] + "-" + JoinWords(ws)
  {
    if ws != [] {
      assert ([[c]] + ws)[1..] == ws;
    }
  }

  lemma ConcatAssoc(a: string, b: string, c: string)
    ensures a + (b + c) == a + b + c
  {
  }

  /** "-" when `s` starts with a separator. */
  function LeadHyphen(s: string): (h: string)
  {
    if s != [] && !IsLowerAlnum(s[0]) then "-" else ""
  }

  /** "-" when `s` ends with a separator. */
  function TrailHyphen(s: string): (h: string)
  {
    if s != [] && !IsLowerAlnum(s[|s| - 1]) then "-" else ""
  }

  lemma TrailHyphenOfTail(s: string)
    requires |s| > 1
    ensures TrailHyphen(s) == TrailHyphen(s[1..])
  {
    assert s[1..][|s| - 2] == s[|s| - 1];
  }

  /**
   * What the replacement makes of `s`: the words of `s` joined by single "-",
   * with one more "-" in front when `s` starts with a separator and one at the
   * end when it ends with one; a text of separators only becomes one "-".
   */
  predicate CollapsesToWords(s: string)
  {
    && (Words(s) == [] ==> CollapseSeparators(s) == (if s == [] then "" else "-"))
    && (Words(s) != [] ==> CollapseSeparators(s) == LeadHyphen(s) + JoinWords(Words(s)) + TrailHyphen(s))
  }

  lemma CollapsesToWordsSeparator(s: string)
    requires s != [] && !IsLowerAlnum(s[0])
    requires CollapsesToWords(SkipSeparators(s[1..]))
    ensures CollapsesToWords(s)
  {
    var t := SkipSeparators(s[1..]);
    WordsSkipSeparators(s[1..]);
    assert Words(s) == Words(t);
    assert CollapseSeparators(s) == "-" + CollapseSeparators(t);
    if t == [] {
      assert CollapseSeparators(s) == "-";
    } else {
      var j := JoinWords(Words(t));
      assert LeadHyphen(t) == "";
      assert CollapseSeparators(t) == j + TrailHyphen(t);
      assert TrailHyphen(s) == TrailHyphen(t);
      ConcatAssoc("-", j, TrailHyphen(t));
    }
  }

  /** A letter or digit in front: it lengthens the first word, or is a word of its own. */
  lemma CollapsesToWordsAlnum(s: string)
    requires s != [] && IsLowerAlnum(s[0])
    requires CollapsesToWords(s[1..])
    ensures CollapsesToWords(s)
  {
    var c, s1 := s[0], s[1..];
    var ws1 := Words(s1);
    assert CollapseSeparators(s) == [c] + CollapseSeparators(s1);
    assert LeadHyphen(s) == "";
    if s1 == [] {
      assert Words(s) == [[c]];
    } else {
      TrailHyphenOfTail(s);
      var t := TrailHyphen(s1);
      if IsLowerAlnum(s1[0]) {
        var j1 := JoinWords(ws1);
        JoinWordsPrependToFirst(c, ws1);
        assert CollapseSeparators(s1) == j1 + t;
        ConcatAssoc([c], j1, t);
      } else if ws1 == [] {
        JoinWordsPrependWord(c, ws1);
        assert SkipSeparators(s1) == [];
        assert t == "-";
      } else {
        var j1 := JoinWords(ws1);
        JoinWordsPrependWord(c, ws1);
        assert CollapseSeparators(s1) == "-" + j1 + t;
        ConcatAssoc([c], "-" + j1, t);
        ConcatAssoc([c], "-", j1);
      }
    }
  }

  /** Where the hyphens go: each run of separators becomes exactly one "-" between the words. */
  lemma {:induction false} CollapseSeparatorsJoinsWords(s: string)
    ensures CollapsesToWords(s)
    decreases |s|
  {
    if s == [] {
    } else if !IsLowerAlnum(s[0]) {
      CollapseSeparatorsJoinsWords(SkipSeparators(s[1..]));
      CollapsesToWordsSeparator(s);
    } else {
      CollapseSeparatorsJoinsWords(s[1..]);
      CollapsesToWordsAlnum(s);
    }
  }

  /** Dropping the end hyphens around a text that starts and ends with a letter or digit leaves that text. */
  lemma TrimHyphensAroundWord(lead: string, j: string, trail: string)
    requires lead == "" || lead == "-"
    requires trail == "" || trail == "-"
    requires |j| > 0 && IsLowerAlnum(j[0]) && IsLowerAlnum(j[|j| - 1])
    ensures TrimHyphens(lead + j + trail) == j
  {
    var x := lead + j + trail;
    var a := if |x| > 0 && x[0] == '-' then x[1..] else x;
    if lead == "-" {
      assert x[1..] == j + trail;
    } else {
      assert x == j + trail;
    }
    assert a == j + trail;
    if trail == "-" {
      assert a[..|a| - 1] == j;
    } else {
      assert a == j;
    }
  }

  /**
   * The slug is the words of the lower-cased title joined by single "-":
   * "Hello, World!" gives "hello-world".
   */
  lemma GenerateSlugJoinsWords(title: string)
    ensures GenerateSlug(title) == JoinWords(Words(ToLower(title)))
  {
    var s := ToLower(title);
    CollapseSeparatorsJoinsWords(s);
    var ws := Words(s);
    if ws != [] {
      WordsAreWords(s);
      JoinWordsEnds(ws);
      TrimHyphensAroundWord(LeadHyphen(s), JoinWords(ws), TrailHyphen(s));
    } else {
      assert TrimHyphens("-") == "";
    }
  }

}
