/** The rows of the splitter's table-driven test, each proved from the general laws
    of `TagSplit` one delimiter at a time from the right. Each tag is a parameter fixed
    by a precondition. How its literal falls apart (a first term, a delimiter, the
    rest, and the parts that result) is checked in a lemma of its own, apart from any
    fact about the splitter, so that each step only has to match facts it is given. */
module SplitTable {
  import opened TagSplit

  /** A term without commas or a final backslash, a separator, then a tag whose split
      is known: the term is a part of its own. */
  lemma SeparatorOnto(s: string, t: string, r: string, p: seq<string>, res: seq<string>)
    requires s == t + "," + r
    requires ',' !in t && !EndsWithBackslash(t)
    requires SplitOnUnescapedCommas(r) == p
    requires res == [t] + p
    ensures SplitOnUnescapedCommas(s) == res
  {
    SplitTermThenSeparator(t, r);
  }

  /** A term without commas, an escape pair, then a tag whose split is known: the term,
      a comma and the first part of the rest make one part. */
  lemma EscapeOnto(s: string, t: string, r: string, p: seq<string>, res: seq<string>)
    requires s == t + "\\," + r
    requires ',' !in t
    requires SplitOnUnescapedCommas(r) == p
    requires |p| >= 1 && res == [t + "," + p[0]] + p[1..]
    ensures SplitOnUnescapedCommas(s) == res
  {
    SplitTermThenEscapedComma(t, r);
  }

  // Row 1: `Hello,this,is\,a\,string,haha`

  lemma Row1Suffix4Input(s: string)
    requires s == "string,haha"
    ensures s == "string" + "," + "haha"
    ensures ',' !in "string" && !EndsWithBackslash("string")
    ensures ["string", "haha"] == ["string"] + ["haha"]
    ensures ',' !in "haha"
  {
  }

  lemma Row1Suffix4(s: string)
    requires s == "string,haha"
    ensures SplitOnUnescapedCommas(s) == ["string", "haha"]
  {
    Row1Suffix4Input(s);
    NoCommas("haha");
    SeparatorOnto(s, "string", "haha", ["haha"], ["string", "haha"]);
  }

  lemma Row1Suffix3Input(s: string)
    requires s == "a\\,string,haha"
    ensures s == "a" + "\\," + "string,haha"
    ensures ',' !in "a"
    ensures ["a,string", "haha"] == ["a" + "," + ["string", "haha"][0]] + ["string", "haha"][1..]
  {
    assert "a" + "," + "string" == "a,string";
    assert ["string", "haha"][1..] == ["haha"];
  }

  lemma Row1Suffix3(s: string)
    requires s == "a\\,string,haha"
    ensures SplitOnUnescapedCommas(s) == ["a,string", "haha"]
  {
    Row1Suffix3Input(s);
    Row1Suffix4("string,haha");
    EscapeOnto(s, "a", "string,haha", ["string", "haha"], ["a,string", "haha"]);
  }

  lemma Row1Suffix2Input(s: string)
    requires s == "is\\,a\\,string,haha"
    ensures s == "is" + "\\," + "a\\,string,haha"
    ensures ',' !in "is"
    ensures ["is,a,string", "haha"] == ["is" + "," + ["a,string", "haha"][0]] + ["a,string", "haha"][1..]
  {
    assert "is" + "," + "a,string" == "is,a,string";
    assert ["a,string", "haha"][1..] == ["haha"];
  }

  lemma Row1Suffix2(s: string)
    requires s == "is\\,a\\,string,haha"
    ensures SplitOnUnescapedCommas(s) == ["is,a,string", "haha"]
  {
    Row1Suffix2Input(s);
    Row1Suffix3("a\\,string,haha");
    EscapeOnto(s, "is", "a\\,string,haha", ["a,string", "haha"], ["is,a,string", "haha"]);
  }

  lemma Row1Suffix1Input(s: string)
    requires s == "this,is\\,a\\,string,haha"
    ensures s == "this" + "," + "is\\,a\\,string,haha"
    ensures ',' !in "this" && !EndsWithBackslash("this")
    ensures ["this", "is,a,string", "haha"] == ["this"] + ["is,a,string", "haha"]
  {
  }

  lemma Row1Suffix1(s: string)
    requires s == "this,is\\,a\\,string,haha"
    ensures SplitOnUnescapedCommas(s) == ["this", "is,a,string", "haha"]
  {
    Row1Suffix1Input(s);
    Row1Suffix2("is\\,a\\,string,haha");
    SeparatorOnto(s, "this", "is\\,a\\,string,haha", ["is,a,string", "haha"], ["this", "is,a,string", "haha"]);
  }

  lemma EscapedCommasStayInTermInput(s: string)
    requires s == "Hello,this,is\\,a\\,string,haha"
    ensures s == "Hello" + "," + "this,is\\,a\\,string,haha"
    ensures ',' !in "Hello" && !EndsWithBackslash("Hello")
    ensures ["Hello", "this", "is,a,string", "haha"] == ["Hello"] + ["this", "is,a,string", "haha"]
  {
  }

  /** Escaped commas stay inside their term and lose their backslash. */
  lemma EscapedCommasStayInTerm(s: string)
    requires s == "Hello,this,is\\,a\\,string,haha"
    ensures SplitOnUnescapedCommas(s) == ["Hello", "this", "is,a,string", "haha"]
  {
    EscapedCommasStayInTermInput(s);
    Row1Suffix1("this,is\\,a\\,string,haha");
    SeparatorOnto(s, "Hello", "this,is\\,a\\,string,haha", ["this", "is,a,string", "haha"], ["Hello", "this", "is,a,string", "haha"]);
  }

  // Row 2: `hello,no\\,split`

  lemma Row2Suffix1Input(s: string)
    requires s == "no\\\\,split"
    ensures s == "no\\" + "\\," + "split"
    ensures ',' !in "no\\"
    ensures ["no\\,split"] == ["no\\" + "," + ["split"][0]] + ["split"][1..]
    ensures ',' !in "split"
  {
    assert "no\\" + "," + "split" == "no\\,split";
    assert ["split"][1..] == [];
  }

  lemma Row2Suffix1(s: string)
    requires s == "no\\\\,split"
    ensures SplitOnUnescapedCommas(s) == ["no\\,split"]
  {
    Row2Suffix1Input(s);
    NoCommas("split");
    EscapeOnto(s, "no\\", "split", ["split"], ["no\\,split"]);
  }

  lemma DoubleBackslashKeepsOneInput(s: string)
    requires s == "hello,no\\\\,split"
    ensures s == "hello" + "," + "no\\\\,split"
    ensures ',' !in "hello" && !EndsWithBackslash("hello")
    ensures ["hello", "no\\,split"] == ["hello"] + ["no\\,split"]
  {
  }

  /** In `no\\,split` the second backslash escapes the comma and the first one is kept. */
  lemma DoubleBackslashKeepsOne(s: string)
    requires s == "hello,no\\\\,split"
    ensures SplitOnUnescapedCommas(s) == ["hello", "no\\,split"]
  {
    DoubleBackslashKeepsOneInput(s);
    Row2Suffix1("no\\\\,split");
    SeparatorOnto(s, "hello", "no\\\\,split", ["no\\,split"], ["hello", "no\\,split"]);
  }

  // Row 3: `string without commas`

  /** A tag without commas is one term. */
  lemma NoCommaIsOneTerm(s: string)
    requires s == "string without commas"
    ensures SplitOnUnescapedCommas(s) == ["string without commas"]
  {
    NoCommas(s);
  }

  // Row 4: `ünicode,𐂄,Ж\,П,ᠳ`

  lemma Row4Suffix3Input(s: string)
    requires s == "П,ᠳ"
    ensures s == "П" + "," + "ᠳ"
    ensures ',' !in "П" && !EndsWithBackslash("П")
    ensures ["П", "ᠳ"] == ["П"] + ["ᠳ"]
    ensures ',' !in "ᠳ"
  {
  }

  lemma Row4Suffix3(s: string)
    requires s == "П,ᠳ"
    ensures SplitOnUnescapedCommas(s) == ["П", "ᠳ"]
  {
    Row4Suffix3Input(s);
    NoCommas("ᠳ");
    SeparatorOnto(s, "П", "ᠳ", ["ᠳ"], ["П", "ᠳ"]);
  }

  lemma Row4Suffix2Input(s: string)
    requires s == "Ж\\,П,ᠳ"
    ensures s == "Ж" + "\\," + "П,ᠳ"
    ensures ',' !in "Ж"
    ensures ["Ж,П", "ᠳ"] == ["Ж" + "," + ["П", "ᠳ"][0]] + ["П", "ᠳ"][1..]
  {
    assert "Ж" + "," + "П" == "Ж,П";
    assert ["П", "ᠳ"][1..] == ["ᠳ"];
  }

  lemma Row4Suffix2(s: string)
    requires s == "Ж\\,П,ᠳ"
    ensures SplitOnUnescapedCommas(s) == ["Ж,П", "ᠳ"]
  {
    Row4Suffix2Input(s);
    Row4Suffix3("П,ᠳ");
    EscapeOnto(s, "Ж", "П,ᠳ", ["П", "ᠳ"], ["Ж,П", "ᠳ"]);
  }

  lemma Row4Suffix1Input(s: string)
    requires s == "𐂄,Ж\\,П,ᠳ"
    ensures s == "𐂄" + "," + "Ж\\,П,ᠳ"
    ensures ',' !in "𐂄" && !EndsWithBackslash("𐂄")
    ensures ["𐂄", "Ж,П", "ᠳ"] == ["𐂄"] + ["Ж,П", "ᠳ"]
  {
  }

  lemma Row4Suffix1(s: string)
    requires s == "𐂄,Ж\\,П,ᠳ"
    ensures SplitOnUnescapedCommas(s) == ["𐂄", "Ж,П", "ᠳ"]
  {
    Row4Suffix1Input(s);
    Row4Suffix2("Ж\\,П,ᠳ");
    SeparatorOnto(s, "𐂄", "Ж\\,П,ᠳ", ["Ж,П", "ᠳ"], ["𐂄", "Ж,П", "ᠳ"]);
  }

  lemma MultibyteCharactersSurviveInput(s: string)
    requires s == "ünicode,𐂄,Ж\\,П,ᠳ"
    ensures s == "ünicode" + "," + "𐂄,Ж\\,П,ᠳ"
    ensures ',' !in "ünicode" && !EndsWithBackslash("ünicode")
    ensures ["ünicode", "𐂄", "Ж,П", "ᠳ"] == ["ünicode"] + ["𐂄", "Ж,П", "ᠳ"]
  {
  }

  /** Characters beyond ASCII, one outside the Basic Multilingual Plane included, are
      single characters: they survive whole, and an escape next to them works. */
  lemma MultibyteCharactersSurvive(s: string)
    requires s == "ünicode,𐂄,Ж\\,П,ᠳ"
    ensures |"𐂄"| == 1
    ensures SplitOnUnescapedCommas(s) == ["ünicode", "𐂄", "Ж,П", "ᠳ"]
  {
    MultibyteCharactersSurviveInput(s);
    Row4Suffix1("𐂄,Ж\\,П,ᠳ");
    SeparatorOnto(s, "ünicode", "𐂄,Ж\\,П,ᠳ", ["𐂄", "Ж,П", "ᠳ"], ["ünicode", "𐂄", "Ж,П", "ᠳ"]);
  }

  // Row 5: `empty,,tag`

  lemma Row5Suffix1Input(s: string)
    requires s == ",tag"
    ensures s == "" + "," + "tag"
    ensures ',' !in "" && !EndsWithBackslash("")
    ensures ["", "tag"] == [""] + ["tag"]
    ensures ',' !in "tag"
  {
  }

  lemma Row5Suffix1(s: string)
    requires s == ",tag"
    ensures SplitOnUnescapedCommas(s) == ["", "tag"]
  {
    Row5Suffix1Input(s);
    NoCommas("tag");
    SeparatorOnto(s, "", "tag", ["tag"], ["", "tag"]);
  }

  lemma EmptyTermsKeptInput(s: string)
    requires s == "empty,,tag"
    ensures s == "empty" + "," + ",tag"
    ensures ',' !in "empty" && !EndsWithBackslash("empty")
    ensures ["empty", "", "tag"] == ["empty"] + ["", "tag"]
  {
  }

  /** Two adjacent separators give an empty term. */
  lemma EmptyTermsKept(s: string)
    requires s == "empty,,tag"
    ensures SplitOnUnescapedCommas(s) == ["empty", "", "tag"]
  {
    EmptyTermsKeptInput(s);
    Row5Suffix1(",tag");
    SeparatorOnto(s, "empty", ",tag", ["", "tag"], ["empty", "", "tag"]);
  }

  /** The test table: each tag with the terms it must split into. */
  function Table(): (rows: seq<(string, seq<string>)>)
    ensures |rows| == 5
    ensures forall k :: 0 <= k < |rows| ==> |rows[k].1| >= 1
  {
    [("Hello,this,is\\,a\\,string,haha", ["Hello", "this", "is,a,string", "haha"]),
     ("hello,no\\\\,split", ["hello", "no\\,split"]),
     ("string without commas", ["string without commas"]),
     ("ünicode,𐂄,Ж\\,П,ᠳ", ["ünicode", "𐂄", "Ж,П", "ᠳ"]),
     ("empty,,tag", ["empty", "", "tag"])]
  }

  /** Every row of the table holds. */
  lemma TableRow(k: nat)
    requires k < |Table()|
    ensures SplitOnUnescapedCommas(Table()[k].0) == Table()[k].1
  {
    var row := Table()[k];
    if k == 0 {
      EscapedCommasStayInTerm(row.0);
    } else if k == 1 {
      DoubleBackslashKeepsOne(row.0);
    } else if k == 2 {
      NoCommaIsOneTerm(row.0);
    } else if k == 3 {
      MultibyteCharactersSurvive(row.0);
    } else {
      EmptyTermsKept(row.0);
    }
  }

  /** The table-driven test: runs the one-pass scanner on every tag of the table, in
      order, and each result is the expected list of terms. */
  method ScanTable() returns (rows: seq<seq<string>>)
    ensures |rows| == |Table()|
    ensures forall k :: 0 <= k < |rows| ==> rows[k] == Table()[k].1
  {
    var table := Table();
    rows := [];
    var i := 0;
    while i < |table|
      invariant 0 <= i <= |table|
      invariant |rows| == i
      invariant forall k :: 0 <= k < i ==> rows[k] == table[k].1
    {
      TableRow(i);
      var actual := ScanTerms(table[i].0);
      rows := rows + [actual];
      i := i + 1;
    }
  }
}
