# Static site generator core, in Dafny

This project models the Markdown front end of a small Python static site
generator and proves properties of the model. The front end has six parts:

- **HTML nodes** (`src/htmlnode.py`). A base node keeps a tag, a value,
  children and an attribute dict, and it cannot render itself. A leaf node
  checks its arguments when it is built. It renders as one element, or as bare
  text when it has no tag.
- **Text nodes** (`src/textnode.py`). A text node is a piece of inline text
  with one of six kinds: NORMAL, BOLD, ITALIC, CODE, LINK or IMAGE. It can be
  converted to an HTML leaf.
- **The inline delimiter splitter** (`src/splitnode.py`). It cuts NORMAL text
  nodes on `**`, `_` or a backtick.
- **The image and link extractors** (`src/extract_markdown.py`). Each is
  `re.findall` over one fixed pattern.
- **The block layer** (`src/splitblocks.py`). It cuts a document into blocks
  at blank lines, then classifies each block by how it starts.
- **Title extraction** (`src/extractor.py`). The title is read from the first
  line of a page.

Each source file has one Dafny module: `HtmlNodes`, `TextNodes`, `SplitNode`,
`ExtractMarkdown`, `SplitBlocks` and `Extractor`. Two small modules support
them:

- `Prelude` holds the `Option` and `Result` types.
- `PyStrings` holds the Python string operations the code relies on:
  `str.strip()`, `str.split(sep)`, `str.splitlines()[0]` and `"".join`.

Every Python exception becomes an error value in a `Result`.

How each file is modelled:

- **Pure code becomes functions.** Node values never change after they are
  built, so nodes are datatypes.
- **`src/splitnode.py` is kept imperative.** Its two functions build their
  result lists in loops. They are modelled as methods with loop invariants,
  each proved equal to a specification function. The lemmas are proved
  about those functions.
- **Each regex is modelled by a hand-written scanner, not a regex engine.**
  The scanner does what Python's engine does with that one pattern:
  - it tries the start positions left to right;
  - a lazy group grows one character at a time and never crosses a newline;
  - a lookbehind looks one character back;
  - `findall` resumes right after each match.
- **Python's character classes are restricted to ASCII**, both for the
  model's string functions and for the regex classes:
  - Whitespace, for `str.strip()` and `\s`, is space, `\t`, `\n`, `\v`,
    `\f`, `\r` and `\x1c` to `\x1f`.
  - The line boundaries of `str.splitlines()` are `\n`, `\r`, `\v`, `\f`
    and `\x1c` to `\x1e`. A `\r\n` pair therefore ends the first line at
    its `\r`.
  - `\d` means `0` to `9`.

Where a docstring and the code disagree, the model follows the code:

- **LINK and IMAGE nodes.** `text_node_to_html_node` passes the attribute
  dict for these nodes as the leaf's `children` argument. The leaf rejects
  it, so these conversions fail. The docstring and the tests expect `href`,
  `src` and `alt` attributes. See "## Findings".
- **Ordered lists.** `block_to_block_type` looks only at how a block starts.
  The numbering of an ordered list and the lines after the first are never
  checked, despite the docstring.
- **Code blocks.** A code block needs an opening "```" followed by a newline,
  and somewhere later a newline followed by "```". The closing fence need not
  end the block.
- **Headings.** The whitespace after a heading's `#` run may be a newline,
  because `\s` matches one.
- **Titles.** `extract_title` removes exactly one `#`, so `## X` gives the
  title `# X`.

## Model

| member | source | states |
|---|---|---|
| HtmlNodes.NewHtmlNode | src/htmlnode.py:3-7 | the node keeps tag and value; missing children become the empty list and missing props the empty dict, given ones are kept |
| HtmlNodes.PropsToHtml | src/htmlnode.py:14-26 | the rendering is empty exactly when there are no props, and takes at least four characters per attribute |
| HtmlNodes.PropsToHtmlAppend | src/htmlnode.py:26 | rendering two dicts one after the other is rendering each in turn: attributes keep insertion order, none is dropped or merged |
| HtmlNodes.PropsToHtmlExample | src/test_htmlnode.py:17-31 | the two-attribute dict of the test renders as ` href="https://www.google.com" target="_blank"` |
| HtmlNodes.ToHtml | src/htmlnode.py:10-53 | rendering fails with NotImplemented exactly for a node of the base class; a leaf without tag renders its value verbatim, ignoring props; a leaf with tag renders `<tag attrs>value</tag>` with the rendered props, in both code branches, unescaped |
| HtmlNodes.NewLeafNode | src/htmlnode.py:38-43 | non-empty children (a list or a dict) are refused first, then a missing value; otherwise the leaf stores tag, value and props and an empty children list |
| HtmlNodes.LeafRenders | src/htmlnode.py:41-53 | every leaf that can be built renders successfully, and its rendering contains its value: the value check happens at construction |
| TextNodes.ValueInjective | src/textnode.py:8-14 | two text types have the same string value exactly when they are the same type |
| TextNodes.Equals | src/textnode.py:23-28 | `==` on text nodes holds exactly when type, text and url are all equal |
| TextNodes.TextNodeToHtmlNode | src/textnode.py:34-59 | conversion succeeds exactly for NORMAL, BOLD, ITALIC and CODE, giving a leaf with the text as value, no children and no props (no tag, `b`, `i`, `code`, with the renderings that implies); LINK and IMAGE fail because the leaf refuses children |
| TextNodes.LinkConversionFails | src/test_textnode.py:48-56 | the link node of the test cannot be converted as written |
| TextNodes.ImageConversionFails | src/test_textnode.py:58-66 | the image node of the test cannot be converted as written |
| TextNodes.TextNodeToHtmlNodeIntended | src/textnode.py:45-46 | the conversion the docstring describes always succeeds; LINK gives an `a` leaf with an `href` prop and IMAGE an `img` leaf with empty value and `src`, `alt` props |
| TextNodes.IntendedLinkHtml | src/test_textnode.py:48-56 | the intended link leaf renders as `<a href="url">text</a>` |
| TextNodes.IntendedImageHtml | src/test_textnode.py:58-66 | the intended image leaf renders as `<img src="url" alt="text"></img>` |
| TextNodes.IntendedAgreesElsewhere | src/textnode.py:48-55 | the intended conversion differs from the code's only for LINK and IMAGE |
| SplitNode.DelimiterFacts | src/splitnode.py:7-11 | every known delimiter is non-empty and maps to BOLD, ITALIC or CODE |
| SplitNode.NodesFromShape | src/splitnode.py:26-36 | every node made from the pieces has non-empty text, no url, and is NORMAL or of the delimiter's kind |
| SplitNode.SplitNode | src/splitnode.py:14-37 | the loop over the pieces returns what the specification function states: an unknown delimiter and an even piece count are errors, otherwise the non-empty pieces, alternately NORMAL and of the delimiter's kind |
| SplitNode.SplitNodesDelimiter | src/splitnode.py:40-59 | the loop over the nodes returns the specification: non-NORMAL nodes are copied, NORMAL nodes replaced by their pieces, and the first failing node makes the whole call fail |
| SplitNode.SplitNodeFails | src/splitnode.py:17-25 | splitting one node fails exactly when the delimiter is unknown or occurs an odd number of times in the text |
| SplitNode.SplitNodeErasure | src/splitnode.py:20-36 | the texts of the produced nodes, glued together, are the node's text with every delimiter occurrence erased |
| SplitNode.SplitNodeRoundTrip | src/splitnode.py:20-36 | when no delimited piece is empty, writing the produced nodes back with the delimiter around each non-NORMAL one gives the original text |
| SplitNode.SplitNodeWithoutDelimiter | src/test_splitnode.py:28-32 | a non-empty NORMAL text without the delimiter comes back as the same single node |
| SplitNode.BoldExample | src/splitnode.py:26-36 | `a**b**c` splits into NORMAL `a`, BOLD `b`, NORMAL `c` |
| SplitNode.OthersUntouched | src/splitnode.py:52-57 | the nodes of any kind other than NORMAL and the delimiter's kind come out unchanged and in their original order |
| SplitNode.BoldThenItalic | src/test_splitnode.py:58-69 | running the `_` pass after the `**` pass leaves the BOLD nodes of the first pass as they were |
| SplitNode.SplitNodesTexts | src/splitnode.py:51-59 | over a list, the output texts glued together are the input texts with the delimiter erased from the NORMAL nodes only |
| SplitNode.SplitNodesNoEmpty | src/splitnode.py:31-32 | every output node has non-empty text, unless it is a non-NORMAL input node passed through |
| SplitNode.SplitNodesFails | src/splitnode.py:17-25 | the call fails exactly when some NORMAL node has an unknown delimiter or an odd number of occurrences; the error is "missing closing" for a known delimiter and "invalid delimiter" otherwise; without NORMAL nodes nothing fails |
| PyStrings.SplitCount | src/splitnode.py:20-24 | `str.split` gives one piece more than there are occurrences of the separator |
| PyStrings.JoinSplit | src/splitblocks.py:82 | joining the pieces of `str.split` with the separator gives the text back |
| PyStrings.StripBounds | src/splitblocks.py:84 | `str.strip` keeps one contiguous piece of the input and removes only whitespace around it |
| PyStrings.FirstLine | src/extractor.py:34-36 | the first line is a prefix of the text without line boundaries, and it stops at the first line boundary |
| ExtractMarkdown.FirstClose | src/extract_markdown.py:21 | the lazy `(htt.*?)\)` tail stops at the first `)` after its start, and finds none only when every later `)` lies beyond a newline |
| ExtractMarkdown.UrlEnd | src/extract_markdown.py:38 | the URL class `[^\s)]+` takes the longest run of characters that are neither whitespace nor `)` |
| ExtractMarkdown.Tail | src/extract_markdown.py:21-38 | the part after the text group, `](htt...)` for images or `](http[s]://...)` for links, matches where it is found and nowhere when it is not |
| ExtractMarkdown.LinkTailUnique | src/extract_markdown.py:38 | a link's URL begins `http://` or `https://` and ends at the end of the longest run of URL characters, so its `)` is fixed |
| ExtractMarkdown.TextScanFound | src/extract_markdown.py:21-38 | a match found by growing the lazy text group has the pattern's whole shape |
| ExtractMarkdown.TextScanShortest | src/extract_markdown.py:21-38 | the text group found is the shortest one after which the rest of the pattern matches |
| ExtractMarkdown.TextScanMissing | src/extract_markdown.py:21-38 | when the scan finds nothing, no text group without a newline lets the pattern match |
| ExtractMarkdown.MatchAtSpec | src/extract_markdown.py:21-38 | a match at a position has the pattern's shape with the shortest text group, and no match means no way to match there (including the lookbehind refusing a `[` after `!`) |
| ExtractMarkdown.FindAllHead | src/extract_markdown.py:22 | the first match reported from a position is one found at or after it |
| ExtractMarkdown.FindAllSuffix | src/extract_markdown.py:22 | after each match the search resumes right behind its `)` |
| ExtractMarkdown.FindAllAt | src/extract_markdown.py:22 | every reported match is the match found at its own start position, at or after where the search began |
| ExtractMarkdown.FindAllFirstGap | src/extract_markdown.py:22 | no position before the first reported match starts a match: the first match is the leftmost |
| ExtractMarkdown.FindAllOrdered | src/extract_markdown.py:22 | each reported match ends before the next one starts: matches do not overlap and come in text order |
| ExtractMarkdown.FindAllGap | src/extract_markdown.py:22 | no position between one reported match and the next starts a match |
| ExtractMarkdown.FindAllNone | src/extract_markdown.py:22 | when no position starts a match, nothing is reported |
| ExtractMarkdown.MatchesAt | src/extract_markdown.py:39 | every match `findall` reports lies inside the text and has the pattern's shape there |
| ExtractMarkdown.MatchesFirstGap | src/extract_markdown.py:39 | no text position before the first reported match can start one |
| ExtractMarkdown.MatchesOrdered | src/extract_markdown.py:39 | reported matches are non-overlapping and in text order |
| ExtractMarkdown.MatchesGap | src/extract_markdown.py:39 | no text position between two reported matches, or after the last one, can start a match |
| ExtractMarkdown.GroupsOfMatch | src/extract_markdown.py:21-38 | the two groups of a match fit the text; an image URL starts `htt` and has no newline and no `)`, a link URL is an http(s) URL |
| ExtractMarkdown.Extract | src/extract_markdown.py:22-39 | one pair of groups per reported match, in order, each the groups of that match |
| ExtractMarkdown.ExtractMarkdownImages | src/extract_markdown.py:7-23 | one `(alt, url)` per match; alt and url have no newline, the url starts `htt` and holds no `)` |
| ExtractMarkdown.ExtractMarkdownLinks | src/extract_markdown.py:26-40 | one `(text, url)` per match; the text has no newline and the url is `http://` or `https://` followed by characters other than whitespace and `)` |
| ExtractMarkdown.MarkupAt | src/extract_markdown.py:21-38 | a match's text is exactly the markup `![alt](url)` or `[text](url)` rebuilt from its two groups |
| ExtractMarkdown.ExtractedMarkup | src/test_extract_markdown.py:50-53 | each extracted pair comes from markup that occurs verbatim in the text, so anchor text is returned raw, `**` included |
| ExtractMarkdown.NoImageMarkup | src/test_extract_markdown.py:24-25 | a text without `![` has no images |
| ExtractMarkdown.NoClosingParenthesis | src/test_extract_markdown.py:32-34 | a text without `)` has neither images nor links |
| ExtractMarkdown.LinksAreNotImages | src/extract_markdown.py:38 | every link starts at a `[` that is not preceded by `!` |
| SplitBlocks.MatchHeading | src/splitblocks.py:38-39 | the heading pattern matches exactly when the block starts with 1 to 6 `#` followed by whitespace |
| SplitBlocks.MatchCode | src/splitblocks.py:42-43 | the code pattern matches exactly when the block starts with an opening fence and a newline, and a newline with a closing fence follows later |
| SplitBlocks.MatchOrdered | src/splitblocks.py:54-55 | the ordered-list pattern matches exactly when the block starts with digits, a dot and whitespace |
| SplitBlocks.BlockToBlockType | src/splitblocks.py:20-58 | the first pattern that matches, in the order heading, code, quote, unordered, ordered, decides the type, and paragraph is the default |
| SplitBlocks.SevenHashesNotHeading | src/splitblocks.py:38-40 | a block starting with seven `#` is not a heading |
| SplitBlocks.HashesMakeHeading | src/splitblocks.py:38-40 | one to six `#` and any whitespace character, a newline included, make a heading whatever follows |
| SplitBlocks.CodeFenceNeedNotEnd | src/splitblocks.py:42-44 | an opening fence and a later closing fence make a code block even with text after the closing fence |
| SplitBlocks.QuoteDecidedByStart | src/splitblocks.py:46-48 | `>` and whitespace make a quote whatever the later lines hold |
| SplitBlocks.UnorderedDecidedByStart | src/splitblocks.py:50-52 | `-` and whitespace make an unordered list whatever the later lines hold |
| SplitBlocks.OrderedDecidedByStart | src/splitblocks.py:54-56 | any number, a dot and whitespace make an ordered list: neither the starting number nor the later numbering is checked |
| SplitBlocks.HeadingExample | src/test_splitblocks.py:67-70 | the heading block of the test is a heading |
| SplitBlocks.CodeExample | src/test_splitblocks.py:72-75 | the code block of the test is code |
| SplitBlocks.QuoteExample | src/test_splitblocks.py:77-80 | the quote block of the test is a quote |
| SplitBlocks.UnorderedExample | src/test_splitblocks.py:82-85 | the unordered list of the test is an unordered list |
| SplitBlocks.OrderedExample | src/test_splitblocks.py:87-90 | the ordered list of the test is an ordered list |
| SplitBlocks.StripEach | src/splitblocks.py:84 | one stripped block per piece, in order |
| SplitBlocks.DropEmpty | src/splitblocks.py:86 | only non-empty blocks are kept, each one of the input blocks |
| SplitBlocks.MarkdownToBlocks | src/splitblocks.py:61-87 | every block is non-empty with no whitespace at either end, and there is at most one block more than there are blank-line separators |
| SplitBlocks.BlocksInOrder | src/splitblocks.py:82-86 | the text before the first separator gives the first block (if it is not blank), followed by the blocks of the rest: blocks keep document order |
| SplitBlocks.SingleBlock | src/splitblocks.py:82-86 | a text without a blank line is one block, its stripped self, or none if blank; single newlines and inner indentation stay |
| SplitBlocks.LeadingNewlinesVanish | src/splitblocks.py:82-86 | newlines in front of a block create no extra block |
| SplitBlocks.BlankRunsVanish | src/test_splitblocks.py:33-51 | two blocks separated by any run of two or more newlines give exactly those two blocks |
| Extractor.ExtractTitle | src/extractor.py:15-46 | the empty document, and only it, fails with EmptyMarkdown; a returned title is non-empty with no whitespace at either end |
| Extractor.TitleOf | src/extractor.py:36-46 | the checks on the first line never report an empty document; a title they return is non-empty and stripped |
| Extractor.NoTitleSymbolWhen | src/extractor.py:36-39 | the title symbol is missing exactly when the first line is blank or its first non-blank character is not `#` |
| Extractor.NoTitleTextWhen | src/extractor.py:41-44 | the title text is missing exactly when the stripped first line is a lone `#` |
| Extractor.TitleOfShape | src/extractor.py:36-46 | a line made of whitespace, `#`, whitespace, a stripped title and whitespace gives that title |
| Extractor.ExtractTitleOf | src/extractor.py:31-46 | a first line of that shape gives its title whatever lines follow it |
| Extractor.TitleOfOk | src/extractor.py:36-46 | conversely a line gives a title only when it has that shape |
| Extractor.ExtractTitleOk | src/extractor.py:31-46 | conversely every title comes from a first line of that shape and never spans two lines |
| Extractor.OnlyFirstLineMatters | src/extractor.py:34-36 | what follows the first line boundary does not change the outcome |
| Extractor.NoSymbolLine | src/extractor.py:38-39 | a first line whose first non-blank character is not `#` has no title |
| Extractor.DeeperHeadingKeepsHashes | src/extractor.py:41 | `## X` gives the title `# X`: only one `#` is removed |
| Extractor.TitleExample | src/test_extractor.py:12-15 | `# Main Title` gives `Main Title` |
| Extractor.LeadingWhitespaceExample | src/test_extractor.py:17-20 | whitespace before the `#` is tolerated |
| Extractor.NoHashExample | src/test_extractor.py:22-26 | `Main Title` fails for a missing title symbol |
| Extractor.EmptyExample | src/test_extractor.py:28-32 | the empty document fails as empty |
| Extractor.LoneHashExample | src/test_extractor.py:34-38 | `#` fails for missing title text |

## Left out

- `generate_page` (src/extractor.py:48-76) reads and writes files, creates directories and fills a template. This is I/O.
- The logging setup (src/extractor.py:8, 12-13) is left out, because `log_config` is not part of this model.
- `markdown_to_html_node`, imported at src/extractor.py:9, is not defined in src/splitblocks.py, so no document-to-tree assembly is modelled.
- src/main.py is left out: its conversion function is a stub and `main` only prints.
- The `__repr__` methods are left out. They are debug formatting only.
- General regular expressions are not modelled. Each of the seven patterns has its own matcher.
- Non-ASCII whitespace, line boundaries and digits are not modelled. Python's `str.strip`, `str.splitlines` and `\s`/`\d` also accept these.
- The `text_type` argument of the splitter only matters for an unknown delimiter, and the code raises before using it there. The model takes the argument and ignores it.
- The url of a TextNode defaults to None through the datatype's default parameter value. No lemma states this.
- The examples of the image and link extractors' test suite are not stated as lemmas. Their properties (leftmost, in order, non-overlapping, raw text) are proved for every text.

## Findings

| source | as written | input that shows it | evidently intended | confidence | as-written member | corrected member |
|---|---|---|---|---|---|---|
| src/textnode.py:56-59 | the attribute dict for LINK and IMAGE is passed as LeafNode's third positional argument, `children`, so the constructor raises "LeafNode cannot have children" | `TextNode("Click here phishing link!", LINK, "https://hackerwebs.com/")` | an `a` leaf with an `href` prop, and an `img` leaf with value `""` and `src`, `alt` props, as the docstring and tests say | high, not executed | TextNodes.LinkConversionFails | TextNodes.IntendedLinkHtml |
