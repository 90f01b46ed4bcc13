/** The struct-tag term splitter of the jsonschema reflector.

    A `jsonschema:"..."` tag is a list of terms separated by commas. A comma that a
    backslash immediately precedes does not separate terms: that backslash is dropped
    and the comma stays in the current term. Every other backslash is kept as it is.
    Characters are whole code points (Dafny's `char`), never bytes, and empty terms
    are kept.
 */
module TagSplit {

  // ---------------------------------------------------------------------------
  // The splitter
  // ---------------------------------------------------------------------------

  /** `parts` with the character `c` put in front of its first part. */
  function PrependChar(c: char, parts: seq<string>): seq<string>
    requires |parts| >= 1
  {
    [[c] + parts[0]] + parts[1..]
  }

  lemma PrependCharAt(c: char, parts: seq<string>, j: nat)
    requires j < |parts|
    ensures |PrependChar(c, parts)| == |parts|
    ensures PrependChar(c, parts)[j] == if j == 0 then [c] + parts[0] else parts[j]
  {
  }

  /** Splits a tag on its unescaped commas, reading it from the left one character
      (or one escape pair `\,`) at a time. */
  function SplitOnUnescapedCommas(s: string): (parts: seq<string>)
    ensures |parts| >= 1
    decreases |s|
  {
    if |s| == 0 then [""]
    else if |s| >= 2 && s[0] == '\\' && s[1] == ',' then PrependChar(',', SplitOnUnescapedCommas(s[2..]))
    else if s[0] == ',' then [""] + SplitOnUnescapedCommas(s[1..])
    else PrependChar(s[0], SplitOnUnescapedCommas(s[1..]))
  }

  /** No term is longer than the input it was split from. */
  lemma {:induction false} TermsNoLonger(s: string)
    ensures forall j :: 0 <= j < |SplitOnUnescapedCommas(s)| ==> |SplitOnUnescapedCommas(s)[j]| <= |s|
    decreases |s|
  {
    if |s| >= 2 && s[0] == '\\' && s[1] == ',' {
      TermsNoLonger(s[2..]);
    } else if |s| >= 1 {
      TermsNoLonger(s[1..]);
    }
  }

  /** A term found in the split is no longer than the input. */
  lemma TermNoLonger(s: string, t: string)
    requires t in SplitOnUnescapedCommas(s)
    ensures |t| <= |s|
  {
    TermsNoLonger(s);
  }

  /** A first term that starts with anything but a comma starts the input too. */
  lemma FirstTermHead(s: string)
    requires |SplitOnUnescapedCommas(s)[0]| >= 1 && SplitOnUnescapedCommas(s)[0][0] != ','
    ensures |s| >= 1 && s[0] == SplitOnUnescapedCommas(s)[0][0]
  {
  }

  // ---------------------------------------------------------------------------
  // Reference definitions, stated on positions of the whole input
  // ---------------------------------------------------------------------------

  /** The comma at `i` is escaped: the character just before it is a backslash. */
  predicate IsEscapedComma(s: string, i: int)
  {
    0 < i < |s| && s[i] == ',' && s[i - 1] == '\\'
  }

  /** The backslash at `i` escapes the comma right after it (and is dropped). */
  predicate IsEscapingBackslash(s: string, i: int)
  {
    0 <= i && i + 1 < |s| && s[i] == '\\' && s[i + 1] == ','
  }

  /** The comma at `i` separates two terms. */
  predicate IsSplitPoint(s: string, i: int)
  {
    0 <= i < |s| && s[i] == ',' && !IsEscapedComma(s, i)
  }

  /** The positions, from `k` on, of the commas that separate terms, in increasing order. */
  function SplitPointsFrom(s: string, k: nat): (ps: seq<nat>)
    requires k <= |s|
    ensures forall j :: 0 <= j < |ps| ==> k <= ps[j] < |s| && IsSplitPoint(s, ps[j])
    decreases |s| - k
  {
    if k == |s| then []
    else if IsSplitPoint(s, k) then [k] + SplitPointsFrom(s, k + 1)
    else SplitPointsFrom(s, k + 1)
  }

  lemma SplitPointsSkip(s: string, k: nat)
    requires k < |s| && !IsSplitPoint(s, k)
    ensures SplitPointsFrom(s, k) == SplitPointsFrom(s, k + 1)
  {
  }

  lemma SplitPointsTake(s: string, k: nat)
    requires k < |s| && IsSplitPoint(s, k)
    ensures SplitPointsFrom(s, k) == [k] + SplitPointsFrom(s, k + 1)
  {
  }

  /** `SplitPointsFrom` lists the separators in increasing order. */
  lemma {:induction false} SplitPointsFromSorted(s: string, k: nat)
    requires k <= |s|
    ensures forall j, j' :: 0 <= j < j' < |SplitPointsFrom(s, k)| ==>
      SplitPointsFrom(s, k)[j] < SplitPointsFrom(s, k)[j']
    decreases |s| - k
  {
    if k < |s| {
      SplitPointsFromSorted(s, k + 1);
    }
  }

  /** `SplitPointsFrom` misses no separator. */
  lemma {:induction false} SplitPointsFromComplete(s: string, k: nat, i: nat)
    requires k <= i < |s| && IsSplitPoint(s, i)
    ensures i in SplitPointsFrom(s, k)
    decreases i - k
  {
    if k < i {
      SplitPointsFromComplete(s, k + 1, i);
    }
  }

  /** The positions of all commas that separate terms. */
  function SplitPoints(s: string): seq<nat>
  {
    SplitPointsFrom(s, 0)
  }

  /** The positions, from `k` on, of the commas that separate terms, as a set. */
  function SplitPointSet(s: string, k: nat): set<int>
  {
    set i | k <= i < |s| && IsSplitPoint(s, i)
  }

  /** `SplitPointsFrom` lists each separator once: it has as many entries as there are
      separators. */
  lemma {:induction false} SplitPointsFromCount(s: string, k: nat)
    requires k <= |s|
    ensures |SplitPointsFrom(s, k)| == |SplitPointSet(s, k)|
    decreases |s| - k
  {
    if k == |s| {
      assert SplitPointSet(s, k) == {};
    } else {
      SplitPointsFromCount(s, k + 1);
      var rest := SplitPointSet(s, k + 1);
      assert k !in rest;
      if IsSplitPoint(s, k) {
        assert SplitPointSet(s, k) == {k} + rest;
      } else {
        assert SplitPointSet(s, k) == rest;
      }
    }
  }

  /** The characters of `s[a..b]` without the backslashes that escape a comma (the
      comma after `s[b - 1]` counts too, so the range is read in context); empty
      when `b <= a`. */
  function UnescapeRange(s: string, a: nat, b: nat): (t: string)
    requires b <= |s|
    decreases b - a
  {
    if b <= a then ""
    else (if IsEscapingBackslash(s, a) then "" else [s[a]]) + UnescapeRange(s, a + 1, b)
  }

  /** The input with the single backslash before each escaped comma deleted. */
  function Unescape(s: string): string
  {
    UnescapeRange(s, 0, |s|)
  }

  /** Where term `j` starts, when the terms are counted from position `k`. */
  function TermStart(s: string, k: nat, j: nat): (a: nat)
    requires k <= |s| && j <= |SplitPointsFrom(s, k)|
    ensures k <= a <= |s|
  {
    if j == 0 then k else SplitPointsFrom(s, k)[j - 1] + 1
  }

  /** Where term `j` ends (exclusive), when the terms are counted from position `k`. */
  function TermEnd(s: string, k: nat, j: nat): (b: nat)
    requires k <= |s| && j <= |SplitPointsFrom(s, k)|
    ensures k <= b <= |s|
  {
    var ps := SplitPointsFrom(s, k);
    if j < |ps| then ps[j] else |s|
  }

  /** The parts joined with "," between them. */
  function Join(parts: seq<string>): string
  {
    if |parts| == 0 then ""
    else if |parts| == 1 then parts[0]
    else parts[0] + "," + Join(parts[1..])
  }

  /** Glues two splits at a junction that is not a separator: the last part of `p`
      and the first part of `q` become one part. */
  function Glue(p: seq<string>, q: seq<string>): seq<string>
    requires |p| >= 1 && |q| >= 1
  {
    p[..|p| - 1] + [p[|p| - 1] + q[0]] + q[1..]
  }

  predicate EndsWithBackslash(t: string)
  {
    |t| > 0 && t[|t| - 1] == '\\'
  }

  /** Puts a backslash before every comma of `t`, so that it reads back as one term. */
  function Escape(t: string): (e: string)
    ensures |e| >= |t|
  {
    if |t| == 0 then ""
    else if t[0] == ',' then "\\," + Escape(t[1..])
    else [t[0]] + Escape(t[1..])
  }

  /** The tag that writes the given terms: each one escaped, joined with ",". */
  function EscapeAll(parts: seq<string>): (es: seq<string>)
    ensures |es| == |parts|
  {
    if |parts| == 0 then [] else [Escape(parts[0])] + EscapeAll(parts[1..])
  }

  // ---------------------------------------------------------------------------
  // Laws
  // ---------------------------------------------------------------------------

  /** The suffixes of `s` unfold like `s` itself: an escape pair at `k`. */
  lemma SuffixEscapePair(s: string, k: nat)
    requires IsEscapingBackslash(s, k)
    ensures SplitOnUnescapedCommas(s[k..]) == PrependChar(',', SplitOnUnescapedCommas(s[k + 2..]))
  {
    assert s[k..][2..] == s[k + 2..];
  }

  /** A separating comma at `k`. */
  lemma SuffixSeparator(s: string, k: nat)
    requires k < |s| && s[k] == ','
    ensures SplitOnUnescapedCommas(s[k..]) == [""] + SplitOnUnescapedCommas(s[k + 1..])
  {
    assert s[k..][1..] == s[k + 1..];
  }

  /** A character at `k` that is kept as it is. */
  lemma SuffixLiteral(s: string, k: nat)
    requires k < |s| && s[k] != ',' && !IsEscapingBackslash(s, k)
    ensures SplitOnUnescapedCommas(s[k..]) == PrependChar(s[k], SplitOnUnescapedCommas(s[k + 1..]))
  {
    assert s[k..][1..] == s[k + 1..];
  }

  /** Term `j` of the split is the text between separator `j - 1` and separator `j`,
      with the backslash of each escaped comma dropped; there is one term more than
      there are separators. Stated for the suffix that starts at a position `k` that
      is not the comma of an escape pair. */
  lemma {:induction false} TermsFrom(s: string, k: nat)
    requires k <= |s| && !IsEscapedComma(s, k)
    ensures TermsAgree(s, k)
    decreases |s| - k
  {
    if k == |s| {
      assert s[k..] == "";
    } else if IsEscapingBackslash(s, k) {
      TermsFrom(s, k + 2);
      TermsAfterEscapePair(s, k);
    } else if s[k] == ',' {
      TermsFrom(s, k + 1);
      TermsAfterSeparator(s, k);
    } else {
      TermsFrom(s, k + 1);
      TermsAfterLiteral(s, k);
    }
  }

  /** Term `j` of `s[k..]`, read off the positions of its separators. */
  function TermAt(s: string, k: nat, j: nat): string
    requires k <= |s| && j <= |SplitPointsFrom(s, k)|
  {
    UnescapeRange(s, TermStart(s, k, j), TermEnd(s, k, j))
  }

  /** The split of `s[k..]` agrees with the positions of its separators. */
  ghost predicate TermsAgree(s: string, k: nat)
    requires k <= |s|
  {
    var parts := SplitOnUnescapedCommas(s[k..]);
    |parts| == |SplitPointsFrom(s, k)| + 1 &&
    forall j :: 0 <= j < |parts| ==> parts[j] == TermAt(s, k, j)
  }

  /** After an escape pair, term 0 gains the comma. */
  lemma EscapePairFirst(s: string, k: nat)
    requires IsEscapingBackslash(s, k)
    requires SplitOnUnescapedCommas(s[k + 2..])[0] == TermAt(s, k + 2, 0)
    ensures SplitOnUnescapedCommas(s[k..])[0] == TermAt(s, k, 0)
  {
    SuffixEscapePair(s, k);
    SplitPointsSkip(s, k);
    SplitPointsSkip(s, k + 1);
    var e := TermEnd(s, k + 2, 0);
    assert TermEnd(s, k, 0) == e;
    assert UnescapeRange(s, k, e) == UnescapeRange(s, k + 1, e);
    assert UnescapeRange(s, k + 1, e) == [','] + UnescapeRange(s, k + 2, e);
  }

  /** After an escape pair, the later terms are unchanged. */
  lemma EscapePairLater(s: string, k: nat, j: nat)
    requires IsEscapingBackslash(s, k)
    requires 1 <= j < |SplitOnUnescapedCommas(s[k + 2..])| && j <= |SplitPointsFrom(s, k + 2)|
    requires SplitOnUnescapedCommas(s[k + 2..])[j] == TermAt(s, k + 2, j)
    ensures j <= |SplitPointsFrom(s, k)| && SplitOnUnescapedCommas(s[k..])[j] == TermAt(s, k, j)
  {
    SuffixEscapePair(s, k);
    SplitPointsSkip(s, k);
    SplitPointsSkip(s, k + 1);
    PrependCharAt(',', SplitOnUnescapedCommas(s[k + 2..]), j);
  }

  lemma TermsAfterEscapePair(s: string, k: nat)
    requires IsEscapingBackslash(s, k) && TermsAgree(s, k + 2)
    ensures TermsAgree(s, k)
  {
    SuffixEscapePair(s, k);
    SplitPointsSkip(s, k);
    SplitPointsSkip(s, k + 1);
    EscapePairFirst(s, k);
    forall j | 1 <= j < |SplitOnUnescapedCommas(s[k..])|
      ensures SplitOnUnescapedCommas(s[k..])[j] == TermAt(s, k, j)
    {
      EscapePairLater(s, k, j);
    }
  }

  /** After a separator, term 0 is empty. */
  lemma SeparatorFirst(s: string, k: nat)
    requires k < |s| && s[k] == ','
    ensures SplitOnUnescapedCommas(s[k..])[0] == ""
    ensures IsSplitPoint(s, k) ==> TermAt(s, k, 0) == ""
  {
    SuffixSeparator(s, k);
    if IsSplitPoint(s, k) {
      SplitPointsTake(s, k);
      assert TermEnd(s, k, 0) == k;
    }
  }

  /** After a separator, term `j` spans what term `j - 1` of the rest spans. */
  lemma SeparatorBounds(s: string, k: nat, j: nat)
    requires IsSplitPoint(s, k)
    requires 1 <= j <= |SplitPointsFrom(s, k + 1)| + 1
    ensures j <= |SplitPointsFrom(s, k)|
    ensures TermStart(s, k, j) == TermStart(s, k + 1, j - 1)
    ensures TermEnd(s, k, j) == TermEnd(s, k + 1, j - 1)
  {
    var ps' := SplitPointsFrom(s, k + 1);
    var ps := [k] + ps';
    SplitPointsTake(s, k);
    assert ps[j - 1] == if j == 1 then k else ps'[j - 2];
    assert j < |ps| ==> ps[j] == ps'[j - 1];
  }

  /** After a separator, term `j` is term `j - 1` of the rest. */
  lemma SeparatorLater(s: string, k: nat, j: nat)
    requires IsSplitPoint(s, k)
    requires 1 <= j <= |SplitOnUnescapedCommas(s[k + 1..])| && j <= |SplitPointsFrom(s, k + 1)| + 1
    requires SplitOnUnescapedCommas(s[k + 1..])[j - 1] == TermAt(s, k + 1, j - 1)
    ensures j <= |SplitPointsFrom(s, k)| && SplitOnUnescapedCommas(s[k..])[j] == TermAt(s, k, j)
  {
    SeparatorBounds(s, k, j);
    var rest := SplitOnUnescapedCommas(s[k + 1..]);
    assert SplitOnUnescapedCommas(s[k..])[j] == rest[j - 1] by {
      SuffixSeparator(s, k);
      assert ([""] + rest)[j] == rest[j - 1];
    }
  }

  lemma TermsAfterSeparator(s: string, k: nat)
    requires k < |s| && s[k] == ',' && !IsEscapedComma(s, k) && TermsAgree(s, k + 1)
    ensures TermsAgree(s, k)
  {
    SuffixSeparator(s, k);
    SplitPointsTake(s, k);
    SeparatorFirst(s, k);
    forall j | 1 <= j < |SplitOnUnescapedCommas(s[k..])|
      ensures SplitOnUnescapedCommas(s[k..])[j] == TermAt(s, k, j)
    {
      SeparatorLater(s, k, j);
    }
  }

  /** After a kept character, term 0 starts with it. */
  lemma LiteralFirst(s: string, k: nat)
    requires k < |s| && s[k] != ',' && !IsEscapingBackslash(s, k)
    requires SplitOnUnescapedCommas(s[k + 1..])[0] == TermAt(s, k + 1, 0)
    ensures SplitOnUnescapedCommas(s[k..])[0] == TermAt(s, k, 0)
  {
    SuffixLiteral(s, k);
    SplitPointsSkip(s, k);
    var e := TermEnd(s, k + 1, 0);
    assert TermEnd(s, k, 0) == e;
    assert UnescapeRange(s, k, e) == [s[k]] + UnescapeRange(s, k + 1, e);
  }

  /** After a kept character, the later terms are unchanged. */
  lemma LiteralLater(s: string, k: nat, j: nat)
    requires k < |s| && s[k] != ',' && !IsEscapingBackslash(s, k)
    requires 1 <= j < |SplitOnUnescapedCommas(s[k + 1..])| && j <= |SplitPointsFrom(s, k + 1)|
    requires SplitOnUnescapedCommas(s[k + 1..])[j] == TermAt(s, k + 1, j)
    ensures j <= |SplitPointsFrom(s, k)| && SplitOnUnescapedCommas(s[k..])[j] == TermAt(s, k, j)
  {
    SuffixLiteral(s, k);
    SplitPointsSkip(s, k);
    PrependCharAt(s[k], SplitOnUnescapedCommas(s[k + 1..]), j);
  }

  lemma TermsAfterLiteral(s: string, k: nat)
    requires k < |s| && s[k] != ',' && !IsEscapingBackslash(s, k) && TermsAgree(s, k + 1)
    ensures TermsAgree(s, k)
  {
    SuffixLiteral(s, k);
    SplitPointsSkip(s, k);
    LiteralFirst(s, k);
    forall j | 1 <= j < |SplitOnUnescapedCommas(s[k..])|
      ensures SplitOnUnescapedCommas(s[k..])[j] == TermAt(s, k, j)
    {
      LiteralLater(s, k, j);
    }
  }

  /** The whole characterization: the number of terms is one more than the number of
      commas not immediately preceded by a backslash, and each term is the text
      between two such commas with escaping backslashes dropped. */
  lemma Terms(s: string)
    ensures |SplitOnUnescapedCommas(s)| == |SplitPoints(s)| + 1
    ensures forall j :: 0 <= j < |SplitOnUnescapedCommas(s)| ==>
      SplitOnUnescapedCommas(s)[j] == UnescapeRange(s, TermStart(s, 0, j), TermEnd(s, 0, j))
  {
    assert s[0..] == s;
    TermsFrom(s, 0);
    assert TermsAgree(s, 0);
  }

  /** There is exactly one more term than there are commas not preceded by a backslash. */
  lemma SplitCount(s: string)
    ensures |SplitOnUnescapedCommas(s)| == |set i | 0 <= i < |s| && IsSplitPoint(s, i)| + 1
  {
    Terms(s);
    SplitPointsFromCount(s, 0);
    assert SplitPointSet(s, 0) == set i | 0 <= i < |s| && IsSplitPoint(s, i);
  }

  lemma {:induction false} JoinPrependChar(c: char, parts: seq<string>)
    requires |parts| >= 1
    ensures Join(PrependChar(c, parts)) == [c] + Join(parts)
  {
    var p := PrependChar(c, parts);
    if |parts| > 1 {
      assert p[1..] == parts[1..];
    }
  }

  lemma {:induction false} JoinFrom(s: string, k: nat)
    requires k <= |s|
    ensures Join(SplitOnUnescapedCommas(s[k..])) == UnescapeRange(s, k, |s|)
    decreases |s| - k
  {
    if k == |s| {
      assert s[k..] == "";
    } else if IsEscapingBackslash(s, k) {
      var rest := SplitOnUnescapedCommas(s[k + 2..]);
      JoinFrom(s, k + 2);
      assert Join(SplitOnUnescapedCommas(s[k..])) == [','] + Join(rest) by {
        SuffixEscapePair(s, k);
        JoinPrependChar(',', rest);
      }
      assert UnescapeRange(s, k, |s|) == [','] + UnescapeRange(s, k + 2, |s|) by {
        assert UnescapeRange(s, k, |s|) == UnescapeRange(s, k + 1, |s|);
      }
    } else if s[k] == ',' {
      var rest := SplitOnUnescapedCommas(s[k + 1..]);
      JoinFrom(s, k + 1);
      assert Join(SplitOnUnescapedCommas(s[k..])) == "," + Join(rest) by {
        SuffixSeparator(s, k);
        assert ([""] + rest)[1..] == rest;
      }
    } else {
      var rest := SplitOnUnescapedCommas(s[k + 1..]);
      JoinFrom(s, k + 1);
      assert Join(SplitOnUnescapedCommas(s[k..])) == [s[k]] + Join(rest) by {
        SuffixLiteral(s, k);
        JoinPrependChar(s[k], rest);
      }
    }
  }

  /** Joining the terms with "," gives back the input, less the backslash before each
      escaped comma. */
  lemma JoinSplit(s: string)
    ensures Join(SplitOnUnescapedCommas(s)) == Unescape(s)
  {
    assert s[0..] == s;
    JoinFrom(s, 0);
  }

  /** A string without commas is one term, equal to the input, backslashes included. */
  lemma {:induction false} NoCommas(s: string)
    requires ',' !in s
    ensures SplitOnUnescapedCommas(s) == [s]
  {
    if |s| > 0 {
      assert ',' !in s[1..];
      NoCommas(s[1..]);
      assert [s[0]] + s[1..] == s;
    }
  }

  lemma {:induction false} GluePrependChar(c: char, p: seq<string>, q: seq<string>)
    requires |p| >= 1 && |q| >= 1
    ensures Glue(PrependChar(c, p), q) == PrependChar(c, Glue(p, q))
  {
    var pp := PrependChar(c, p);
    var g := Glue(p, q);
    var lhs := Glue(pp, q);
    var rhs := PrependChar(c, g);
    assert |lhs| == |rhs|;
    forall j | 0 <= j < |lhs| ensures lhs[j] == rhs[j] {
      if j == 0 && |p| == 1 {
        assert lhs[0] == pp[0] + q[0] == ([c] + p[0]) + q[0];
        assert rhs[0] == [c] + g[0] == [c] + (p[0] + q[0]);
      }
    }
  }

  /** Splitting a concatenation splits each side and glues the two at the junction,
      unless the junction is itself an escape pair (a trailing backslash of `a`
      before a leading comma of `b`). */
  lemma {:induction false} SplitConcat(a: string, b: string)
    requires !(EndsWithBackslash(a) && |b| > 0 && b[0] == ',')
    ensures SplitOnUnescapedCommas(a + b) == Glue(SplitOnUnescapedCommas(a), SplitOnUnescapedCommas(b))
    decreases |a|
  {
    var q := SplitOnUnescapedCommas(b);
    if |a| == 0 {
      assert a + b == b;
      assert "" + q[0] == q[0];
      assert [q[0]] + q[1..] == q;
    } else {
      var n := if |a| >= 2 && a[0] == '\\' && a[1] == ',' then 2 else 1;
      var a' := a[n..];
      assert |a'| > 0 ==> EndsWithBackslash(a') == EndsWithBackslash(a);
      SplitConcat(a', b);
      if n == 2 {
        SplitConcatEscapePair(a, b);
      } else if a[0] == ',' {
        SplitConcatSeparator(a, b);
      } else {
        SplitConcatLiteral(a, b);
      }
    }
  }

  /** How the splitter takes the first character, or escape pair, of its input. */
  lemma SplitUnfold(s: string)
    requires |s| > 0
    ensures |s| >= 2 && s[0] == '\\' && s[1] == ',' ==>
      SplitOnUnescapedCommas(s) == PrependChar(',', SplitOnUnescapedCommas(s[2..]))
    ensures s[0] == ',' ==> SplitOnUnescapedCommas(s) == [""] + SplitOnUnescapedCommas(s[1..])
    ensures s[0] != ',' && !(|s| >= 2 && s[0] == '\\' && s[1] == ',') ==>
      SplitOnUnescapedCommas(s) == PrependChar(s[0], SplitOnUnescapedCommas(s[1..]))
  {
  }

  /** One step of `SplitConcat`: `a` starts with an escape pair. */
  lemma SplitConcatEscapePair(a: string, b: string)
    requires |a| >= 2 && a[0] == '\\' && a[1] == ','
    requires SplitOnUnescapedCommas(a[2..] + b)
          == Glue(SplitOnUnescapedCommas(a[2..]), SplitOnUnescapedCommas(b))
    ensures SplitOnUnescapedCommas(a + b) == Glue(SplitOnUnescapedCommas(a), SplitOnUnescapedCommas(b))
  {
    var ab := a + b;
    DropFromConcat(a, b, 2);
    assert ab[0] == '\\' && ab[1] == ',';
    SplitUnfold(a);
    SplitUnfold(ab);
    GluePrependChar(',', SplitOnUnescapedCommas(a[2..]), SplitOnUnescapedCommas(b));
  }

  /** One step of `SplitConcat`: `a` starts with a separating comma. */
  lemma SplitConcatSeparator(a: string, b: string)
    requires |a| >= 1 && a[0] == ','
    requires SplitOnUnescapedCommas(a[1..] + b)
          == Glue(SplitOnUnescapedCommas(a[1..]), SplitOnUnescapedCommas(b))
    ensures SplitOnUnescapedCommas(a + b) == Glue(SplitOnUnescapedCommas(a), SplitOnUnescapedCommas(b))
  {
    var ab := a + b;
    DropFromConcat(a, b, 1);
    assert ab[0] == ',';
    SplitUnfold(a);
    SplitUnfold(ab);
    GlueEmptyFirst(SplitOnUnescapedCommas(a[1..]), SplitOnUnescapedCommas(b));
  }

  /** A character of `a` that is not the start of an escape pair stays so in `a + b`,
      unless the junction is an escape pair. */
  lemma LiteralStaysLiteral(a: string, b: string)
    requires !(EndsWithBackslash(a) && |b| > 0 && b[0] == ',')
    requires |a| >= 1 && !(|a| >= 2 && a[0] == '\\' && a[1] == ',')
    ensures (a + b)[0] == a[0]
    ensures !(|a + b| >= 2 && (a + b)[0] == '\\' && (a + b)[1] == ',')
  {
    var ab := a + b;
    if |a| == 1 && |b| > 0 {
      assert ab[1] == b[0];
    } else if |a| >= 2 {
      assert ab[1] == a[1];
    }
  }

  /** One step of `SplitConcat`: `a` starts with a character kept as it is. */
  lemma SplitConcatLiteral(a: string, b: string)
    requires !(EndsWithBackslash(a) && |b| > 0 && b[0] == ',')
    requires |a| >= 1 && a[0] != ',' && !(|a| >= 2 && a[0] == '\\' && a[1] == ',')
    requires SplitOnUnescapedCommas(a[1..] + b)
          == Glue(SplitOnUnescapedCommas(a[1..]), SplitOnUnescapedCommas(b))
    ensures SplitOnUnescapedCommas(a + b) == Glue(SplitOnUnescapedCommas(a), SplitOnUnescapedCommas(b))
  {
    var ab := a + b;
    DropFromConcat(a, b, 1);
    LiteralStaysLiteral(a, b);
    SplitUnfold(a);
    SplitUnfold(ab);
    GluePrependChar(a[0], SplitOnUnescapedCommas(a[1..]), SplitOnUnescapedCommas(b));
  }

  lemma DropFromConcat(a: string, b: string, n: nat)
    requires n <= |a|
    ensures (a + b)[n..] == a[n..] + b
  {
  }

  lemma GlueEmptyFirst(p: seq<string>, q: seq<string>)
    requires |p| >= 1 && |q| >= 1
    ensures Glue([""] + p, q) == [""] + Glue(p, q)
  {
    assert ([""] + p)[..|p|] == [""] + p[..|p| - 1];
  }

  /** A comma that no backslash precedes separates: the two sides split on their own. */
  lemma SplitAtSeparator(a: string, b: string)
    requires !EndsWithBackslash(a)
    ensures SplitOnUnescapedCommas(a + "," + b) == SplitOnUnescapedCommas(a) + SplitOnUnescapedCommas(b)
  {
    var cb := "," + b;
    assert a + "," + b == a + cb;
    SplitConcat(a, cb);
    SplitSeparatorFront(b);
    GlueSeparator(SplitOnUnescapedCommas(a), SplitOnUnescapedCommas(b));
  }

  /** A tag that starts with a comma starts with an empty term. */
  lemma SplitSeparatorFront(b: string)
    ensures SplitOnUnescapedCommas("," + b) == [""] + SplitOnUnescapedCommas(b)
  {
    assert ("," + b)[1..] == b;
  }

  /** Gluing onto a split whose first term is empty just concatenates. */
  lemma GlueSeparator(p: seq<string>, q: seq<string>)
    requires |p| >= 1 && |q| >= 1
    ensures Glue(p, [""] + q) == p + q
  {
    assert ([""] + q)[0] == "" && ([""] + q)[1..] == q;
    assert p[|p| - 1] + "" == p[|p| - 1];
    assert p[..|p| - 1] + [p[|p| - 1]] == p;
  }

  /** An escape pair `\,` puts a literal comma between the last term of the text
      before it and the first term of the text after it. */
  lemma SplitAtEscapedComma(a: string, b: string)
    ensures var p, q := SplitOnUnescapedCommas(a), SplitOnUnescapedCommas(b);
      SplitOnUnescapedCommas(a + "\\," + b) == p[..|p| - 1] + [p[|p| - 1] + "," + q[0]] + q[1..]
  {
    var eb := "\\," + b;
    assert a + "\\," + b == a + eb;
    SplitConcat(a, eb);
    SplitEscapePairFront(b);
    GlueEscapedComma(SplitOnUnescapedCommas(a), SplitOnUnescapedCommas(b));
  }

  /** A tag that starts with an escape pair starts its first term with a comma. */
  lemma SplitEscapePairFront(b: string)
    ensures SplitOnUnescapedCommas("\\," + b) == PrependChar(',', SplitOnUnescapedCommas(b))
  {
    assert ("\\," + b)[2..] == b;
  }

  /** Gluing onto a split whose first term starts with a comma puts that comma between
      the two terms that meet. */
  lemma GlueEscapedComma(p: seq<string>, q: seq<string>)
    requires |p| >= 1 && |q| >= 1
    ensures Glue(p, PrependChar(',', q)) == p[..|p| - 1] + [p[|p| - 1] + "," + q[0]] + q[1..]
  {
    var pq := PrependChar(',', q);
    assert p[|p| - 1] + pq[0] == p[|p| - 1] + "," + q[0];
    assert pq[1..] == q[1..];
  }

  /** A backslash that no comma follows is kept: it lands between the last term of the
      text before it and the first term of the text after it. */
  lemma BackslashKept(a: string, b: string)
    requires |b| == 0 || b[0] != ','
    ensures SplitOnUnescapedCommas(a + "\\" + b)
         == Glue(SplitOnUnescapedCommas(a), PrependChar('\\', SplitOnUnescapedCommas(b)))
  {
    var bb := "\\" + b;
    assert a + "\\" + b == a + bb;
    SplitConcat(a, bb);
    SplitUnfold(bb);
    assert bb[1..] == b;
  }

  /** A term without commas or trailing backslash, then a separator. */
  lemma SplitTermThenSeparator(t: string, b: string)
    requires ',' !in t && !EndsWithBackslash(t)
    ensures SplitOnUnescapedCommas(t + "," + b) == [t] + SplitOnUnescapedCommas(b)
  {
    NoCommas(t);
    SplitAtSeparator(t, b);
  }

  /** A term without commas, then an escape pair: the comma joins it to the next term. */
  lemma SplitTermThenEscapedComma(t: string, b: string)
    requires ',' !in t
    ensures SplitOnUnescapedCommas(t + "\\," + b)
         == [t + "," + SplitOnUnescapedCommas(b)[0]] + SplitOnUnescapedCommas(b)[1..]
  {
    NoCommas(t);
    SplitAtEscapedComma(t, b);
  }

  lemma {:induction false} EscapeEnd(t: string)
    ensures EndsWithBackslash(Escape(t)) == EndsWithBackslash(t)
  {
    if |t| > 1 {
      EscapeEnd(t[1..]);
      assert EndsWithBackslash(t[1..]) == EndsWithBackslash(t);
    }
  }

  /** An escaped term reads back as that one term. */
  lemma {:induction false} SplitEscape(t: string)
    ensures SplitOnUnescapedCommas(Escape(t)) == [t]
  {
    if |t| > 0 {
      SplitEscape(t[1..]);
      var e := Escape(t[1..]);
      if t[0] == ',' {
        assert ("\\," + e)[2..] == e;
      } else {
        assert ([t[0]] + e)[1..] == e;
        if t[0] == '\\' && |e| > 0 {
          // e starts with t[1], or with the backslash added before a comma
          assert e[0] != ',';
        }
      }
      assert [t[0]] + t[1..] == t;
    }
  }

  /** Writing terms with `EscapeAll` and `Join` and splitting again gives the terms
      back, provided no term but the last ends with a backslash (such a backslash
      would escape the separator after it). */
  lemma {:induction false} SplitJoinEscaped(parts: seq<string>)
    requires |parts| >= 1
    requires forall j :: 0 <= j < |parts| - 1 ==> !EndsWithBackslash(parts[j])
    ensures SplitOnUnescapedCommas(Join(EscapeAll(parts))) == parts
  {
    SplitEscape(parts[0]);
    if |parts| > 1 {
      var es := EscapeAll(parts);
      assert es[1..] == EscapeAll(parts[1..]);
      SplitJoinEscaped(parts[1..]);
      EscapeEnd(parts[0]);
      SplitAtSeparator(Escape(parts[0]), Join(es[1..]));
      assert [parts[0]] + parts[1..] == parts;
    }
  }

  // ---------------------------------------------------------------------------
  // The loop form: one pass that accumulates the terms
  // ---------------------------------------------------------------------------

  /** What the scan has read so far and what the rest of the input splits into make up
      the whole split: the finished terms, the current term continued by the first term
      of the rest, and the other terms of the rest. */
  ghost predicate ScanAgrees(s: string, i: nat, parts: seq<string>, cur: string)
    requires i <= |s|
  {
    var rest := SplitOnUnescapedCommas(s[i..]);
    parts + [cur + rest[0]] + rest[1..] == SplitOnUnescapedCommas(s)
  }

  /** The bookkeeping of one scan step, on the split values alone: the character read
      moves from the head of the rest to the current term, or a separator moves the
      current term to the finished ones. */
  lemma ShiftOne(parts: seq<string>, cur: string, c: char, rest: seq<string>, all: seq<string>)
    requires |rest| >= 1
    requires parts + [cur + PrependChar(c, rest)[0]] + PrependChar(c, rest)[1..] == all
    ensures parts + [(cur + [c]) + rest[0]] + rest[1..] == all
  {
    assert cur + ([c] + rest[0]) == (cur + [c]) + rest[0];
  }

  lemma ShiftTerm(parts: seq<string>, cur: string, rest: seq<string>, all: seq<string>)
    requires |rest| >= 1
    requires parts + [cur + ([""] + rest)[0]] + ([""] + rest)[1..] == all
    ensures (parts + [cur]) + ["" + rest[0]] + rest[1..] == all
  {
    assert ([""] + rest)[0] == "" && ([""] + rest)[1..] == rest;
    assert cur + "" == cur;
    assert "" + rest[0] == rest[0];
    assert [rest[0]] + rest[1..] == rest;
  }

  lemma ScanEscapePair(s: string, i: nat, parts: seq<string>, cur: string)
    requires IsEscapingBackslash(s, i) && ScanAgrees(s, i, parts, cur)
    ensures ScanAgrees(s, i + 2, parts, cur + [','])
  {
    SuffixEscapePair(s, i);
    ShiftOne(parts, cur, ',', SplitOnUnescapedCommas(s[i + 2..]), SplitOnUnescapedCommas(s));
  }

  lemma ScanSeparator(s: string, i: nat, parts: seq<string>, cur: string)
    requires i < |s| && s[i] == ',' && ScanAgrees(s, i, parts, cur)
    ensures ScanAgrees(s, i + 1, parts + [cur], "")
  {
    SuffixSeparator(s, i);
    ShiftTerm(parts, cur, SplitOnUnescapedCommas(s[i + 1..]), SplitOnUnescapedCommas(s));
  }

  lemma ScanLiteral(s: string, i: nat, parts: seq<string>, cur: string)
    requires i < |s| && s[i] != ',' && !IsEscapingBackslash(s, i) && ScanAgrees(s, i, parts, cur)
    ensures ScanAgrees(s, i + 1, parts, cur + [s[i]])
  {
    SuffixLiteral(s, i);
    ShiftOne(parts, cur, s[i], SplitOnUnescapedCommas(s[i + 1..]), SplitOnUnescapedCommas(s));
  }

  /** Scans the tag once, keeping the finished terms and the term being read. */
  method ScanTerms(s: string) returns (parts: seq<string>)
    ensures parts == SplitOnUnescapedCommas(s)
  {
    parts := [];
    var cur := "";
    var i := 0;
    assert ScanAgrees(s, 0, parts, cur) by {
      var all := SplitOnUnescapedCommas(s);
      assert s[0..] == s;
      assert cur + all[0] == all[0];
      assert [all[0]] + all[1..] == all;
    }
    while i < |s|
      invariant 0 <= i <= |s|
      invariant ScanAgrees(s, i, parts, cur)
      decreases |s| - i
    {
      if i + 1 < |s| && s[i] == '\\' && s[i + 1] == ',' {
        ScanEscapePair(s, i, parts, cur);
        cur := cur + [','];
        i := i + 2;
      } else if s[i] == ',' {
        ScanSeparator(s, i, parts, cur);
        parts := parts + [cur];
        cur := "";
        i := i + 1;
      } else {
        ScanLiteral(s, i, parts, cur);
        cur := cur + [s[i]];
        i := i + 1;
      }
    }
    assert s[i..] == "";
    assert cur + "" == cur;
    parts := parts + [cur];
  }
}
