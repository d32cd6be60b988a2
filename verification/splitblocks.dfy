/** The block layer of src/splitblocks.py: cutting a document into blocks at
    blank lines, and telling what kind of block a block is from the way it
    starts. */
module SplitBlocks {
  import opened PyStrings

  /** The six kinds of block. */
  datatype BlockType = Paragraph | Heading | Code | Quote | UnorderedList | OrderedList {
    /** The enum member's string value. */
    function Value(): string {
      match this
      case Paragraph => "paragraph"
      case Heading => "heading"
      case Code => "code"
      case Quote => "quote"
      case UnorderedList => "unordered_list"
      case OrderedList => "ordered_list"
    }
  }

  // ---------------------------------------------------------------------------
  // what the five anchored patterns mean

  /** The regex class \d, restricted to ASCII. */
  predicate IsDigit(c: char) {
    '0' <= c <= '9'
  }

  /** `b` starts with `k` (one to six) `#` and then a whitespace character:
      ^(#{1,6})\s+ matches with its group taking `k` hashes. */
  predicate HashesThenSpace(b: string, k: nat) {
    && 1 <= k <= 6 && k < |b|
    && (forall i :: 0 <= i < k ==> b[i] == '#')
    && IsSpace(b[k])
  }

  ghost predicate IsHeading(b: string) {
    exists k :: HashesThenSpace(b, k)
  }

  /** ```\n(.*?)\n``` with DOTALL, tried at the start: an opening fence and
      newline, then anywhere later a newline and a closing fence. The text in
      between may hold newlines, and the closing fence need not end the
      block. */
  ghost predicate IsCode(b: string) {
    OccursAt(b, "```\n", 0) && exists j :: 4 <= j && OccursAt(b, "\n```", j)
  }

  /** ^>\s+ and ^-\s+: the marker character and then a whitespace
      character. */
  predicate MarkerThenSpace(b: string, c: char) {
    |b| >= 2 && b[0] == c && IsSpace(b[1])
  }

  /** `b` starts with `d` digits, a dot and a whitespace character:
      ^\d+\.\s+ matches with \d+ taking `d` digits. */
  predicate DigitsDotSpace(b: string, d: nat) {
    && 1 <= d && d + 1 < |b|
    && (forall i :: 0 <= i < d ==> IsDigit(b[i]))
    && b[d] == '.' && IsSpace(b[d + 1])
  }

  ghost predicate IsOrdered(b: string) {
    exists d :: DigitsDotSpace(b, d)
  }

  // ---------------------------------------------------------------------------
  // how the matches are decided

  /** The number of `#` at the start of `b`. */
  function HashRun(b: string): (k: nat)
    ensures k <= |b|
    ensures forall i :: 0 <= i < k ==> b[i] == '#'
    ensures k == |b| || b[k] != '#'
  {
    if b != [] && b[0] == '#' then 1 + HashRun(b[1..]) else 0
  }

  /** The number of digits at the start of `b`. */
  function DigitRun(b: string): (d: nat)
    ensures d <= |b|
    ensures forall i :: 0 <= i < d ==> IsDigit(b[i])
    ensures d == |b| || !IsDigit(b[d])
  {
    if b != [] && IsDigit(b[0]) then 1 + DigitRun(b[1..]) else 0
  }

  /** re.match of the heading pattern. `#{1,6}` is greedy and gives back
      hashes on failure, but a shorter run of hashes is always followed by a
      hash, which is not whitespace; so only the whole run can be followed by
      the whitespace, and the run must be one to six long. */
  function MatchHeading(b: string): (r: bool)
    ensures r <==> IsHeading(b)
  {
    var k := HashRun(b);
    if 1 <= k <= 6 && k < |b| && IsSpace(b[k]) then
      assert HashesThenSpace(b, k);
      true
    else
      assert forall j :: !HashesThenSpace(b, j) by {
        forall j: nat | j < k ensures !HashesThenSpace(b, j) {
          assert b[j] == '#';
        }
      }
      false
  }

  /** Whether `\n```` occurs in `b` at `i` or later. */
  function FenceFrom(b: string, i: nat): (r: bool)
    requires i <= |b|
    ensures r <==> exists j :: i <= j && OccursAt(b, "\n```", j)
    decreases |b| - i
  {
    if i == |b| then
      assert forall j :: i <= j && OccursAt(b, "\n```", j) ==> j == |b|;
      false
    else if OccursAt(b, "\n```", i) then true
    else FenceFrom(b, i + 1)
  }

  /** re.match of the code pattern: the lazy group lets the closing fence be
      any later occurrence, so the pattern matches as soon as one exists. */
  function MatchCode(b: string): (r: bool)
    ensures r <==> IsCode(b)
  {
    OccursAt(b, "```\n", 0) && FenceFrom(b, 4)
  }

  /** re.match of the ordered-list pattern. As with the heading, `\d+` can
      only succeed with the whole run of digits, since a shorter run is
      followed by a digit and not by the dot. */
  function MatchOrdered(b: string): (r: bool)
    ensures r <==> IsOrdered(b)
  {
    var d := DigitRun(b);
    if d >= 1 && d + 1 < |b| && b[d] == '.' && IsSpace(b[d + 1]) then
      assert DigitsDotSpace(b, d);
      true
    else
      assert forall j :: !DigitsDotSpace(b, j) by {
        forall j: nat | j < d ensures !DigitsDotSpace(b, j) {
          assert IsDigit(b[j]);
        }
      }
      false
  }

  /** block_to_block_type: the first pattern that matches at the start of the
      block decides, in the order heading, code, quote, unordered list,
      ordered list; a block that none matches is a paragraph. */
  function BlockToBlockType(b: string): (r: BlockType)
    ensures r == Heading <==> IsHeading(b)
    ensures r == Code <==> !IsHeading(b) && IsCode(b)
    ensures r == Quote <==> !IsHeading(b) && !IsCode(b) && MarkerThenSpace(b, '>')
    ensures r == UnorderedList <==>
      !IsHeading(b) && !IsCode(b) && !MarkerThenSpace(b, '>') && MarkerThenSpace(b, '-')
    ensures r == OrderedList <==>
      !IsHeading(b) && !IsCode(b) && !MarkerThenSpace(b, '>') && !MarkerThenSpace(b, '-') && IsOrdered(b)
    ensures r == Paragraph <==>
      !IsHeading(b) && !IsCode(b) && !MarkerThenSpace(b, '>') && !MarkerThenSpace(b, '-') && !IsOrdered(b)
  {
    if MatchHeading(b) then Heading
    else if MatchCode(b) then Code
    else if MarkerThenSpace(b, '>') then Quote
    else if MarkerThenSpace(b, '-') then UnorderedList
    else if MatchOrdered(b) then OrderedList
    else Paragraph
  }

  // ---------------------------------------------------------------------------
  // properties of the classifier

  /** Seven hashes in a row never make a heading, whatever follows. */
  lemma SevenHashesNotHeading(b: string)
    requires |b| >= 7 && forall i :: 0 <= i < 7 ==> b[i] == '#'
    ensures BlockToBlockType(b) != Heading
  {
    forall k: nat ensures !HashesThenSpace(b, k) {
      if 1 <= k <= 6 {
        assert b[k] == '#';
      }
    }
  }

  /** One to six hashes followed by any whitespace, a newline included, make
      a heading whatever comes after. */
  lemma HashesMakeHeading(k: nat, w: char, rest: string)
    requires 1 <= k <= 6 && IsSpace(w)
    ensures BlockToBlockType(Repeat('#', k) + [w] + rest) == Heading
  {
    var b := Repeat('#', k) + [w] + rest;
    assert forall i :: 0 <= i < k ==> b[i] == Repeat('#', k)[i];
    assert HashesThenSpace(b, k);
  }

  /** `n` copies of `c`. */
  function Repeat(c: char, n: nat): (r: string)
    ensures |r| == n && forall i :: 0 <= i < n ==> r[i] == c
  {
    seq(n, _ => c)
  }

  /** A quote is decided by its first two characters: nothing after them is
      looked at, so later lines need not start with `>`. */
  lemma QuoteDecidedByStart(w: char, rest: string)
    requires IsSpace(w)
    ensures BlockToBlockType(['>', w] + rest) == Quote
  {
    var b := ['>', w] + rest;
    assert !HashesThenSpace(b, HashRun(b));
    assert !OccursAt(b, "```\n", 0) by {
      assert b[0] != '`';
    }
  }

  /** An unordered list is decided by its first two characters: later lines
      need not start with `-`. */
  lemma UnorderedDecidedByStart(w: char, rest: string)
    requires IsSpace(w)
    ensures BlockToBlockType(['-', w] + rest) == UnorderedList
  {
    var b := ['-', w] + rest;
    assert !HashesThenSpace(b, HashRun(b));
    assert !OccursAt(b, "```\n", 0) by {
      assert b[0] != '`';
    }
  }

  /** An ordered list is decided by its first number, dot and whitespace:
      the number need not be 1 and later lines are not looked at, so their
      numbering is never checked. */
  lemma OrderedDecidedByStart(digits: string, w: char, rest: string)
    requires digits != [] && forall i :: 0 <= i < |digits| ==> IsDigit(digits[i])
    requires IsSpace(w)
    ensures BlockToBlockType(digits + ['.', w] + rest) == OrderedList
  {
    var b := digits + ['.', w] + rest;
    assert b[0] == digits[0] && IsDigit(b[0]);
    assert !HashesThenSpace(b, HashRun(b));
    assert !OccursAt(b, "```\n", 0) by {
      assert b[0] != '`';
    }
    assert DigitsDotSpace(b, |digits|) by {
      assert forall i :: 0 <= i < |digits| ==> b[i] == digits[i];
      assert b[|digits|] == '.' && b[|digits| + 1] == w;
    }
  }

  /** The closing fence of a code block need not end the block: text after
      it leaves the block a code block. */
  lemma CodeFenceNeedNotEnd(body: string, after: string)
    ensures BlockToBlockType("```\n" + body + "\n```" + after) == Code
  {
    var b := "```\n" + body + "\n```" + after;
    var j := 4 + |body|;
    assert b[..4] == "```\n";
    assert b[j..][..4] == "\n```";
    assert OccursAt(b, "\n```", j);
    assert HashRun(b) == 0;
  }

  /** The heading of the test suite. */
  lemma HeadingExample()
    ensures BlockToBlockType("# This is a heading") == Heading
  {
    assert HashesThenSpace("# This is a heading", 1);
  }

  /** The code block of the test suite. */
  lemma CodeExample()
    ensures BlockToBlockType("```\nprint('Hello, World!')\n```") == Code
  {
    var b := "```\nprint('Hello, World!')\n```";
    assert b[..4] == "```\n";
    assert b[26..] == "\n```";
    assert OccursAt(b, "\n```", 26);
  }

  /** The quote of the test suite. */
  lemma QuoteExample()
    ensures BlockToBlockType("> This is a quote") == Quote
  {
    var b := "> This is a quote";
    assert HashRun(b) == 0;
    assert b[0] != '`';
  }

  /** The unordered list of the test suite, whose second line is not looked
      at. */
  lemma UnorderedExample()
    ensures BlockToBlockType("- " + "This is an unordered list item\n- This is another unordered list item")
      == UnorderedList
  {
    UnorderedDecidedByStart(' ', "This is an unordered list item\n- This is another unordered list item");
  }

  /** The ordered list of the test suite, whose second line is not looked
      at. */
  lemma OrderedExample()
    ensures BlockToBlockType("1" + ". " + "This is an ordered list item\n2. This is another ordered list item")
      == OrderedList
  {
    OrderedDecidedByStart("1", ' ', "This is an ordered list item\n2. This is another ordered list item");
  }

  // ---------------------------------------------------------------------------
  // markdown_to_blocks

  /** [block.strip() for block in blocks] */
  function StripEach(blocks: seq<string>): (r: seq<string>)
    ensures |r| == |blocks|
    ensures forall i :: 0 <= i < |r| ==> r[i] == Strip(blocks[i])
  {
    if blocks == [] then [] else [Strip(blocks[0])] + StripEach(blocks[1..])
  }

  /** [block for block in blocks if block] */
  function DropEmpty(blocks: seq<string>): (r: seq<string>)
    ensures |r| <= |blocks|
    ensures forall i :: 0 <= i < |r| ==> r[i] != [] && r[i] in blocks
  {
    if blocks == [] then []
    else if blocks[0] == [] then DropEmpty(blocks[1..])
    else [blocks[0]] + DropEmpty(blocks[1..])
  }

  /** markdown_to_blocks: split at every "\n\n", strip every piece and drop
      the pieces that are left empty. Every block returned is non-empty and
      has no whitespace at either end, and there are no more blocks than
      pieces. */
  function MarkdownToBlocks(md: string): (r: seq<string>)
    ensures forall i :: 0 <= i < |r| ==> r[i] != [] && IsStripped(r[i])
    ensures |r| <= Occurrences(md, "\n\n") + 1
  {
    var pieces := Split(md, "\n\n");
    SplitCount(md, "\n\n");
    DropEmpty(StripEach(pieces))
  }

  // ---------------------------------------------------------------------------
  // properties of the splitter

  /** The blocks of one piece: its stripped text, unless nothing is left. */
  function PieceBlocks(piece: string): seq<string> {
    if Strip(piece) == [] then [] else [Strip(piece)]
  }

  lemma StripEachCons(piece: string, rest: seq<string>)
    ensures DropEmpty(StripEach([piece] + rest)) == PieceBlocks(piece) + DropEmpty(StripEach(rest))
  {
    assert ([piece] + rest)[1..] == rest;
  }

  /** No "\n\n" in `a + "\n\n" + b` starts inside `a` when `a` holds none and
      does not end with a newline. */
  lemma FirstSeparator(a: string, b: string)
    requires !Contains(a, "\n\n") && (a == [] || a[|a| - 1] != '\n')
    ensures forall i :: 0 <= i < |a| ==> !OccursAt(a + "\n\n" + b, "\n\n", i)
  {
    var s := a + "\n\n" + b;
    forall i | 0 <= i < |a| ensures !OccursAt(s, "\n\n", i) {
      if i + 1 < |a| {
        assert s[i..][..2] == a[i..][..2];
        assert !OccursAt(a, "\n\n", i);
      } else {
        assert s[i] == a[|a| - 1];
      }
    }
  }

  /** Blocks come out in document order: a first part without a blank line,
      then "\n\n", gives that part's block followed by the blocks of the
      rest. */
  lemma BlocksInOrder(a: string, b: string)
    requires !Contains(a, "\n\n") && (a == [] || a[|a| - 1] != '\n')
    ensures MarkdownToBlocks(a + "\n\n" + b) == PieceBlocks(a) + MarkdownToBlocks(b)
  {
    FirstSeparator(a, b);
    SplitAt(a, "\n\n", b);
    StripEachCons(a, Split(b, "\n\n"));
  }

  /** A part without a blank line is one block: it is only stripped at its
      two ends, so its single newlines and the indentation of its inner lines
      are kept. */
  lemma SingleBlock(a: string)
    requires !Contains(a, "\n\n")
    ensures MarkdownToBlocks(a) == PieceBlocks(a)
  {
    SplitWithout(a, "\n\n");
    StripEachCons(a, []);
  }

  /** Blank lines before a part are dropped, however many there are. */
  lemma {:induction false} LeadingNewlinesVanish(n: nat, b: string)
    requires !Contains(b, "\n\n") && (b == [] || b[0] != '\n')
    ensures MarkdownToBlocks(Repeat('\n', n) + b) == PieceBlocks(b)
    decreases n
  {
    if n >= 2 {
      var rest := Repeat('\n', n - 2) + b;
      assert Repeat('\n', n) + b == [] + "\n\n" + rest by {
        assert Repeat('\n', n) == "\n\n" + Repeat('\n', n - 2);
      }
      BlocksInOrder([], rest);
      assert Strip([]) == [];
      LeadingNewlinesVanish(n - 2, b);
    } else {
      var s := Repeat('\n', n) + b;
      NoBlankLineAfterNewline(n, b);
      SingleBlock(s);
      StripSpacePrefix(Repeat('\n', n), b);
    }
  }

  /** At most one newline in front of a part without a blank line, which
      does not start with a newline, makes no blank line. */
  lemma NoBlankLineAfterNewline(n: nat, b: string)
    requires n < 2 && !Contains(b, "\n\n") && (b == [] || b[0] != '\n')
    ensures !Contains(Repeat('\n', n) + b, "\n\n")
  {
    var s := Repeat('\n', n) + b;
    forall i | 0 <= i <= |s| ensures !OccursAt(s, "\n\n", i) {
      if i >= n {
        assert s[i..] == b[i - n..];
        assert !OccursAt(b, "\n\n", i - n);
      } else if i + 1 < |s| {
        assert s[i + 1] == b[0];
      }
    }
  }

  /** Runs of three or more newlines make no extra blocks: two parts with
      any run of at least two newlines between them give exactly their two
      blocks. */
  lemma BlankRunsVanish(a: string, n: nat, b: string)
    requires a != [] && b != [] && IsStripped(a) && IsStripped(b)
    requires !Contains(a, "\n\n") && !Contains(b, "\n\n")
    requires n >= 2
    ensures MarkdownToBlocks(a + Repeat('\n', n) + b) == [a, b]
  {
    var rest := Repeat('\n', n - 2) + b;
    assert a + Repeat('\n', n) + b == a + "\n\n" + rest by {
      assert Repeat('\n', n) == "\n\n" + Repeat('\n', n - 2);
    }
    BlocksInOrder(a, rest);
    LeadingNewlinesVanish(n - 2, b);
    StripStripped(a);
    StripStripped(b);
    assert PieceBlocks(a) == [a] && PieceBlocks(b) == [b];
  }
}
