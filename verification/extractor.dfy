/** extract_title of src/extractor.py: the page title is the text of the first
    line once its whitespace, one leading '#' and the whitespace after that are
    removed. Each way of failing raises its own ValueError, modelled as an
    error value. */
module Extractor {
  import opened Prelude
  import opened PyStrings

  datatype TitleError =
    | EmptyMarkdown  // "Markdown is empty. Expecting a title '# Title'"
    | NoTitleSymbol  // "Title symbol not found in markdown string."
    | NoTitleText    // "Title text not found in markdown string."

  /** No line boundary anywhere in `s`. */
  predicate OneLine(s: string) {
    forall i :: 0 <= i < |s| ==> !IsLineBreak(s[i])
  }

  /** Whitespace that does not end a line. */
  predicate InlineSpace(s: string) {
    AllSpace(s) && OneLine(s)
  }

  /** The first line of the markdown with the whitespace around it removed:
      the only place a title is looked for. */
  function TitleLine(md: string): string {
    Strip(FirstLine(md))
  }

  /** extract_title. The checks come in the order of the code: an empty
      document, then a first line that does not start with '#' once
      stripped, then nothing but whitespace after that '#'. Any other first
      line gives a title with no whitespace at either end. */
  function ExtractTitle(md: string): (r: Result<string, TitleError>)
    ensures r == Err(EmptyMarkdown) <==> md == []
    ensures r.Ok? ==> r.value != [] && IsStripped(r.value)
  {
    if |md| == 0 then Err(EmptyMarkdown) else TitleOf(FirstLine(md))
  }

  /** What extract_title does with the first line once it knows the document
      is not empty. */
  function TitleOf(line: string): (r: Result<string, TitleError>)
    ensures r != Err(EmptyMarkdown)
    ensures r.Ok? ==> r.value != [] && IsStripped(r.value)
  {
    var title := Strip(line);
    if !("#" <= title) then Err(NoTitleSymbol)
    else
      var t := Strip(title[1..]);
      if t == [] then Err(NoTitleText) else Ok(t)
  }

  /** The title symbol is missing exactly when the first line is blank or its
      first non-blank character is not '#'. */
  lemma NoTitleSymbolWhen(md: string)
    ensures ExtractTitle(md) == Err(NoTitleSymbol) <==>
      md != [] && (TitleLine(md) == [] || TitleLine(md)[0] != '#')
  {
  }

  /** The title text is missing exactly when the first line, stripped, is a
      lone '#'. */
  lemma NoTitleTextWhen(md: string)
    ensures ExtractTitle(md) == Err(NoTitleText) <==> md != [] && TitleLine(md) == "#"
  {
    if md != [] && "#" <= TitleLine(md) {
      var title := TitleLine(md);
      if |title| > 1 {
        assert title[|title| - 1] == title[1..][|title| - 2];
      }
    }
  }

  lemma OneLineConcat(x: string, y: string)
    requires OneLine(x) && OneLine(y)
    ensures OneLine(x + y)
  {
    forall i | 0 <= i < |x + y| ensures !IsLineBreak((x + y)[i]) {
      if i >= |x| {
        assert (x + y)[i] == y[i - |x|];
      }
    }
  }

  /** A line of the shape `#  title`, with whitespace allowed around the '#'
      and after the title, gives exactly that title. */
  lemma TitleOfShape(a: string, b: string, t: string, c: string)
    requires AllSpace(a) && AllSpace(b) && AllSpace(c)
    requires t != [] && IsStripped(t)
    ensures TitleOf(a + ("#" + (b + t)) + c) == Ok(t)
  {
    var title := "#" + (b + t);
    assert title[|title| - 1] == t[|t| - 1];
    StripPadded(a, title, c);
    assert Strip(a + title + c) == title;
    assert "#" <= title;
    TitleTail(b, t);
    StripPadded(b, t, []);
  }

  /** Every first line of that shape gives its title, whatever the lines
      after it hold. */
  lemma ExtractTitleOf(a: string, b: string, t: string, c: string, rest: string)
    requires InlineSpace(a) && InlineSpace(b) && InlineSpace(c)
    requires t != [] && IsStripped(t) && OneLine(t)
    requires rest == [] || IsLineBreak(rest[0])
    ensures ExtractTitle(a + "#" + b + t + c + rest) == Ok(t)
  {
    var line := a + ("#" + (b + t)) + c;
    assert a + "#" + b + t + c + rest == line + rest;
    OneLineConcat(b, t);
    assert OneLine("#");
    OneLineConcat("#", b + t);
    OneLineConcat(a, "#" + (b + t));
    OneLineConcat(a + ("#" + (b + t)), c);
    FirstLineOf(line, rest);
    TitleOfShape(a, b, t, c);
  }

  lemma TitleTail(b: string, t: string)
    ensures ("#" + (b + t))[1..] == b + t + []
  {
  }

  lemma Regroup(a: string, b: string, t: string, d: string, e: string)
    ensures a + ("#" + (b + t + d)) + e == a + "#" + b + t + (d + e)
  {
  }

  /** Every piece of a string without line boundaries is without line
      boundaries. */
  lemma OneLineParts(a: string, b: string, t: string, c: string)
    requires OneLine(a + "#" + b + t + c)
    ensures OneLine(a) && OneLine(b) && OneLine(t) && OneLine(c)
  {
    var s := a + "#" + b + t + c;
    forall k | 0 <= k < |a| ensures !IsLineBreak(a[k]) {
      assert s[k] == a[k];
    }
    forall k | 0 <= k < |b| ensures !IsLineBreak(b[k]) {
      assert s[|a| + 1 + k] == b[k];
    }
    forall k | 0 <= k < |t| ensures !IsLineBreak(t[k]) {
      assert s[|a| + 1 + |b| + k] == t[k];
    }
    forall k | 0 <= k < |c| ensures !IsLineBreak(c[k]) {
      assert s[|a| + 1 + |b| + |t| + k] == c[k];
    }
  }

  /** Conversely, a line gives a title only when it has that shape. */
  lemma TitleOfOk(line: string) returns (a: string, b: string, c: string)
    requires TitleOf(line).Ok?
    ensures line == a + "#" + b + TitleOf(line).value + c
    ensures AllSpace(a) && AllSpace(b) && AllSpace(c)
  {
    var title := Strip(line);
    var u := title[1..];
    var t := Strip(u);
    assert TitleOf(line) == Ok(t);
    var e, d;
    a, e := StripShape(line);
    b, d := StripShape(u);
    HeadTail(title);
    assert line == a + ("#" + (b + t + d)) + e;
    c := d + e;
    AllSpaceConcat(d, e);
    Regroup(a, b, t, d, e);
  }

  /** Conversely, a title is only ever found on a first line of that shape:
      the title comes from the first line and never spans two lines. */
  lemma ExtractTitleOk(md: string) returns (a: string, b: string, c: string, rest: string)
    requires ExtractTitle(md).Ok?
    ensures md == a + "#" + b + ExtractTitle(md).value + c + rest
    ensures InlineSpace(a) && InlineSpace(b) && InlineSpace(c)
    ensures OneLine(ExtractTitle(md).value)
    ensures rest == [] || IsLineBreak(rest[0])
  {
    var line := FirstLine(md);
    assert ExtractTitle(md) == TitleOf(line);
    a, b, c := TitleOfOk(line);
    OneLineParts(a, b, TitleOf(line).value, c);
    rest := md[|line|..];
    PrefixRest(md, line);
  }

  /** Only the first line is looked at: what follows its line boundary does
      not change the outcome. */
  lemma OnlyFirstLineMatters(line: string, rest1: string, rest2: string)
    requires line != [] && OneLine(line)
    requires rest1 == [] || IsLineBreak(rest1[0])
    requires rest2 == [] || IsLineBreak(rest2[0])
    ensures ExtractTitle(line + rest1) == ExtractTitle(line + rest2)
  {
    FirstLineOf(line, rest1);
    FirstLineOf(line, rest2);
  }

  /** A first line whose first non-blank character is not '#' has no
      title, whatever follows it. */
  lemma NoSymbolLine(line: string, rest: string)
    requires line != [] && OneLine(line) && IsStripped(line) && line[0] != '#'
    requires rest == [] || IsLineBreak(rest[0])
    ensures ExtractTitle(line + rest) == Err(NoTitleSymbol)
  {
    FirstLineOf(line, rest);
    StripStripped(line);
  }

  /** A second-level heading is accepted as a title: only one '#' is
      removed, so the title keeps the others. */
  lemma DeeperHeadingKeepsHashes(t: string)
    requires t != [] && IsStripped(t) && OneLine(t)
    ensures ExtractTitle("#" + ("# " + t)) == Ok("# " + t)
  {
    HashSpaceThen(t);
    ExtractTitleOf("", "", "# " + t, "", "");
    OnlyHash("# " + t);
  }

  lemma HashSpaceThen(t: string)
    requires t != [] && IsStripped(t) && OneLine(t)
    ensures IsStripped("# " + t) && OneLine("# " + t)
  {
    assert ("# " + t)[|"# " + t| - 1] == t[|t| - 1];
    OneLineConcat("# ", t);
  }

  lemma OnlyHash(x: string)
    ensures "" + "#" + "" + x + "" + "" == "#" + x
  {
  }

  // ---------------------------------------------------------------------------
  // The cases of the test suite

  lemma TitleExample()
    ensures ExtractTitle("#" + " " + "Main Title") == Ok("Main Title")
  {
    var none: string := [];
    ExtractTitleOf(none, " ", "Main Title", none, none);
    assert none + "#" == "#";
    assert "#" + " " + "Main Title" + none == "#" + " " + "Main Title";
  }

  lemma LeadingWhitespaceExample()
    ensures ExtractTitle("   " + "#" + " " + "Main Title") == Ok("Main Title")
  {
    var none: string := [];
    ExtractTitleOf("   ", " ", "Main Title", none, none);
    assert "   " + "#" + " " + "Main Title" + none == "   " + "#" + " " + "Main Title";
  }

  lemma NoHashExample()
    ensures ExtractTitle("Main Title") == Err(NoTitleSymbol)
  {
    var none: string := [];
    NoSymbolLine("Main Title", none);
    assert "Main Title" + none == "Main Title";
  }

  lemma EmptyExample()
    ensures ExtractTitle("") == Err(EmptyMarkdown)
  {
  }

  lemma LoneHashExample()
    ensures ExtractTitle("#") == Err(NoTitleText)
  {
    FirstLineOf("#", []);
    assert "#" + [] == "#";
    StripStripped("#");
  }
}
