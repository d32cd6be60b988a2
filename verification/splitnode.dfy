/** The inline delimiter splitter of src/splitnode.py: a NORMAL text node is
    cut on `**`, `_` or a backtick; the pieces between delimiters alternate
    between NORMAL and the delimiter's kind, and empty pieces are dropped.
    Both Python functions build their result list in a loop, so they are
    methods here, each proved equal to a function that states the result. */
module SplitNode {
  import opened Prelude
  import opened PyStrings
  import opened TextNodes

  /** SYMBOL_TO_TEXTTYPE. */
  const SymbolToTextType: map<string, TextType> := map["**" := Bold, "_" := Italic, "`" := Code]

  datatype SplitError =
    | InvalidDelimiter(delimiter: string)  // "Not a valid markdown for text formating"
    | MissingClosing(delimiter: string)    // "Invalid Markdown syntax, missing closing"

  lemma DelimiterFacts(d: string)
    requires d in SymbolToTextType
    ensures d != [] && SymbolToTextType[d] in {Bold, Italic, Code}
  {
  }

  // ---------------------------------------------------------------------------
  // specification

  /** The node made from one piece: none for an empty piece, NORMAL at an
      even index, `kind` at an odd one. */
  function PieceNodes(piece: string, odd: bool, kind: TextType): seq<TextNode> {
    if piece == [] then [] else [TextNode(piece, if odd then kind else Normal)]
  }

  /** The nodes made from a list of pieces, in order, the first of them
      sitting at an odd index of the whole split when `odd` holds. */
  function NodesFrom(pieces: seq<string>, odd: bool, kind: TextType): (r: seq<TextNode>)
    ensures |r| <= |pieces|
  {
    if pieces == [] then []
    else PieceNodes(pieces[0], odd, kind) + NodesFrom(pieces[1..], !odd, kind)
  }

  /** Every node made from pieces has a non-empty text and no URL, and is
      NORMAL or of the delimiter's kind. */
  lemma {:induction false} NodesFromShape(pieces: seq<string>, odd: bool, kind: TextType)
    ensures forall n :: n in NodesFrom(pieces, odd, kind) ==>
      n.text != [] && n.url == None && n.textType in {Normal, kind}
  {
    if pieces != [] {
      NodesFromShape(pieces[1..], !odd, kind);
    }
  }

  /** What _split_node returns for one node: an error for a delimiter outside
      SYMBOL_TO_TEXTTYPE, an error when the text splits into an even number of
      pieces, and otherwise the nodes of the pieces, whose odd pieces take the
      delimiter's kind. */
  function SplitNodeResult(node: TextNode, delimiter: string): Result<seq<TextNode>, SplitError> {
    if delimiter !in SymbolToTextType then Err(InvalidDelimiter(delimiter))
    else
      var pieces := Split(node.text, delimiter);
      if |pieces| % 2 == 0 then Err(MissingClosing(delimiter))
      else Ok(NodesFrom(pieces, false, SymbolToTextType[delimiter]))
  }

  /** One step of split_nodes_delimiter: a node that is not NORMAL is kept as
      it is, a NORMAL node is split. */
  function NodeStep(node: TextNode, delimiter: string): Result<seq<TextNode>, SplitError> {
    if node.textType != Normal then Ok([node]) else SplitNodeResult(node, delimiter)
  }

  /** `prefix` followed by a result, or the result's error. */
  function Prepend(prefix: seq<TextNode>, r: Result<seq<TextNode>, SplitError>): Result<seq<TextNode>, SplitError> {
    match r
    case Ok(rest) => Ok(prefix + rest)
    case Err(e) => Err(e)
  }

  lemma PrependEmpty(r: Result<seq<TextNode>, SplitError>)
    ensures Prepend([], r) == r
  {
    if r.Ok? {
      assert [] + r.value == r.value;
    }
  }

  lemma PrependPrepend(a: seq<TextNode>, b: seq<TextNode>, r: Result<seq<TextNode>, SplitError>)
    ensures Prepend(a, Prepend(b, r)) == Prepend(a + b, r)
  {
    if r.Ok? {
      assert a + (b + r.value) == a + b + r.value;
    }
  }

  /** What split_nodes_delimiter returns: the steps of all nodes, concatenated
      in order, or the error of the first node that fails. */
  function SplitNodesResult(nodes: seq<TextNode>, delimiter: string): Result<seq<TextNode>, SplitError> {
    if nodes == [] then Ok([])
    else
      match NodeStep(nodes[0], delimiter)
      case Err(e) => Err(e)
      case Ok(first) => Prepend(first, SplitNodesResult(nodes[1..], delimiter))
  }

  // ---------------------------------------------------------------------------
  // the code

  /** _split_node. The `textType` argument only matters when the delimiter is
      missing from SYMBOL_TO_TEXTTYPE, and that case has already raised. */
  method SplitNode(node: TextNode, delimiter: string, textType: TextType) returns (r: Result<seq<TextNode>, SplitError>)
    ensures r == SplitNodeResult(node, delimiter)
  {
    if delimiter !in SymbolToTextType {
      return Err(InvalidDelimiter(delimiter));
    }
    var pieces := Split(node.text, delimiter);
    if |pieces| % 2 == 0 {
      return Err(MissingClosing(delimiter));
    }
    var kind := if delimiter in SymbolToTextType then SymbolToTextType[delimiter] else textType;
    var nodes: seq<TextNode> := [];
    assert pieces[0..] == pieces;
    for i := 0 to |pieces|
      invariant NodesFrom(pieces, false, kind) == nodes + NodesFrom(pieces[i..], i % 2 == 1, kind)
    {
      var part := pieces[i];
      ghost var later := NodesFrom(pieces[i + 1..], (i + 1) % 2 == 1, kind);
      NodesFromStep(pieces, i, kind);
      if part == [] {
        assert [] + later == later;
        continue;
      }
      if i % 2 == 0 {
        assert nodes + ([TextNode(part, Normal)] + later) == nodes + [TextNode(part, Normal)] + later;
        nodes := nodes + [TextNode(part, Normal)];
      } else {
        assert nodes + ([TextNode(part, kind)] + later) == nodes + [TextNode(part, kind)] + later;
        nodes := nodes + [TextNode(part, kind)];
      }
    }
    assert nodes + [] == nodes;
    return Ok(nodes);
  }

  lemma NodesFromStep(pieces: seq<string>, i: nat, kind: TextType)
    requires i < |pieces|
    ensures NodesFrom(pieces[i..], i % 2 == 1, kind)
      == PieceNodes(pieces[i], i % 2 == 1, kind) + NodesFrom(pieces[i + 1..], (i + 1) % 2 == 1, kind)
  {
    assert pieces[i..][1..] == pieces[i + 1..];
    assert (i + 1) % 2 == 1 <==> !(i % 2 == 1);
  }

  /** split_nodes_delimiter: the first failing node aborts the whole call, so
      there is no partial result. */
  method SplitNodesDelimiter(oldNodes: seq<TextNode>, delimiter: string, textType: TextType)
    returns (r: Result<seq<TextNode>, SplitError>)
    ensures r == SplitNodesResult(oldNodes, delimiter)
  {
    var newNodes: seq<TextNode> := [];
    assert oldNodes[0..] == oldNodes;
    PrependEmpty(SplitNodesResult(oldNodes, delimiter));
    for i := 0 to |oldNodes|
      invariant SplitNodesResult(oldNodes, delimiter) == Prepend(newNodes, SplitNodesResult(oldNodes[i..], delimiter))
    {
      var node := oldNodes[i];
      assert oldNodes[i..][0] == node && oldNodes[i..][1..] == oldNodes[i + 1..];
      ghost var rest := SplitNodesResult(oldNodes[i + 1..], delimiter);
      if node.textType != Normal {
        PrependPrepend(newNodes, [node], rest);
        newNodes := newNodes + [node];
      } else {
        var parts := SplitNode(node, delimiter, textType);
        if parts.Err? {
          return Err(parts.error);
        }
        PrependPrepend(newNodes, parts.value, rest);
        newNodes := newNodes + parts.value;
      }
    }
    assert oldNodes[|oldNodes|..] == [] && newNodes + [] == newNodes;
    return Ok(newNodes);
  }

  // ---------------------------------------------------------------------------
  // properties

  /** The texts of a list of nodes. */
  function Texts(nodes: seq<TextNode>): (r: seq<string>)
    ensures |r| == |nodes|
  {
    seq(|nodes|, i requires 0 <= i < |nodes| => nodes[i].text)
  }

  lemma ConcatTextsAppend(a: seq<TextNode>, b: seq<TextNode>)
    ensures Concat(Texts(a + b)) == Concat(Texts(a)) + Concat(Texts(b))
  {
    assert Texts(a + b) == Texts(a) + Texts(b);
    ConcatDistributes(Texts(a), Texts(b));
  }

  lemma ConcatDistributes(a: seq<string>, b: seq<string>)
    ensures Concat(a + b) == Concat(a) + Concat(b)
  {
    if a != [] {
      assert (a + b)[1..] == a[1..] + b;
      ConcatDistributes(a[1..], b);
    } else {
      assert a + b == b;
    }
  }

  lemma {:induction false} ConcatNodesFrom(pieces: seq<string>, odd: bool, kind: TextType)
    ensures Concat(Texts(NodesFrom(pieces, odd, kind))) == Concat(pieces)
  {
    if pieces != [] {
      var first := PieceNodes(pieces[0], odd, kind);
      ConcatNodesFrom(pieces[1..], !odd, kind);
      ConcatTextsAppend(first, NodesFrom(pieces[1..], !odd, kind));
      if pieces[0] != [] {
        assert Texts(first) == [pieces[0]];
      } else {
        assert Texts(first) == [];
      }
    }
  }

  /** Gluing the texts of the nodes made from one NORMAL node together gives
      its text with every delimiter occurrence erased. */
  lemma SplitNodeErasure(node: TextNode, delimiter: string)
    requires SplitNodeResult(node, delimiter).Ok?
    ensures delimiter != []
    ensures Concat(Texts(SplitNodeResult(node, delimiter).value)) == RemoveAll(node.text, delimiter)
  {
    DelimiterFacts(delimiter);
    ConcatNodesFrom(Split(node.text, delimiter), false, SymbolToTextType[delimiter]);
    ConcatSplit(node.text, delimiter);
  }

  /** How a node looked in the markdown: its text, inside the delimiter when
      it is not NORMAL. */
  function Markup(n: TextNode, delimiter: string): string {
    if n.textType == Normal then n.text else delimiter + n.text + delimiter
  }

  /** The markup of a list of nodes, glued together. */
  function MarkupAll(nodes: seq<TextNode>, delimiter: string): string {
    if nodes == [] then [] else Markup(nodes[0], delimiter) + MarkupAll(nodes[1..], delimiter)
  }

  lemma {:induction false} MarkupAllAppend(a: seq<TextNode>, b: seq<TextNode>, delimiter: string)
    ensures MarkupAll(a + b, delimiter) == MarkupAll(a, delimiter) + MarkupAll(b, delimiter)
  {
    if a == [] {
      assert a + b == b;
    } else {
      assert (a + b)[1..] == a[1..] + b;
      MarkupAllAppend(a[1..], b, delimiter);
    }
  }

  lemma MarkupPieceNodes(piece: string, odd: bool, kind: TextType, delimiter: string)
    requires kind != Normal && (odd ==> piece != [])
    ensures MarkupAll(PieceNodes(piece, odd, kind), delimiter)
      == if odd then delimiter + piece + delimiter else piece
  {
    var ns := PieceNodes(piece, odd, kind);
    if piece != [] {
      assert ns[1..] == [];
    }
  }

  lemma NodesFromPair(pieces: seq<string>, odd: bool, kind: TextType)
    requires |pieces| >= 2
    ensures NodesFrom(pieces, odd, kind)
      == PieceNodes(pieces[0], odd, kind) + (PieceNodes(pieces[1], !odd, kind) + NodesFrom(pieces[2..], odd, kind))
  {
    assert pieces[1..][1..] == pieces[2..] && pieces[1..][0] == pieces[1];
  }

  lemma JoinPair(pieces: seq<string>, delimiter: string)
    requires |pieces| >= 3
    ensures Join(pieces, delimiter) == pieces[0] + (delimiter + pieces[1] + delimiter + Join(pieces[2..], delimiter))
  {
    assert pieces[1..][1..] == pieces[2..] && pieces[1..][0] == pieces[1];
    assert Join(pieces[1..], delimiter) == pieces[1] + delimiter + Join(pieces[2..], delimiter);
  }

  lemma MarkupOfPair(pieces: seq<string>, odd: bool, kind: TextType, delimiter: string)
    requires |pieces| >= 2
    ensures MarkupAll(NodesFrom(pieces, odd, kind), delimiter)
      == MarkupAll(PieceNodes(pieces[0], odd, kind), delimiter)
        + (MarkupAll(PieceNodes(pieces[1], !odd, kind), delimiter)
          + MarkupAll(NodesFrom(pieces[2..], odd, kind), delimiter))
  {
    var nx := PieceNodes(pieces[0], odd, kind);
    var ny := PieceNodes(pieces[1], !odd, kind);
    var nr := NodesFrom(pieces[2..], odd, kind);
    NodesFromPair(pieces, odd, kind);
    MarkupAllAppend(ny, nr, delimiter);
    MarkupAllAppend(nx, ny + nr, delimiter);
  }

  lemma MarkupPair(pieces: seq<string>, odd: bool, kind: TextType, delimiter: string)
    requires |pieces| >= 3 && !odd && kind != Normal && pieces[1] != []
    requires MarkupAll(NodesFrom(pieces[2..], odd, kind), delimiter) == Join(pieces[2..], delimiter)
    ensures MarkupAll(NodesFrom(pieces, odd, kind), delimiter) == Join(pieces, delimiter)
  {
    MarkupOfPair(pieces, odd, kind, delimiter);
    MarkupPieceNodes(pieces[0], odd, kind, delimiter);
    MarkupPieceNodes(pieces[1], !odd, kind, delimiter);
    JoinPair(pieces, delimiter);
  }

  /** From an even index on, with an odd number of pieces left whose odd ones
      are not empty, the markup of the nodes is the pieces joined by the
      delimiter. */
  lemma {:induction false} MarkupNodesFrom(pieces: seq<string>, odd: bool, kind: TextType, delimiter: string)
    requires |pieces| % 2 == 1 && !odd && kind != Normal
    requires forall j :: 0 <= j < |pieces| && j % 2 == 1 ==> pieces[j] != []
    ensures MarkupAll(NodesFrom(pieces, odd, kind), delimiter) == Join(pieces, delimiter)
    decreases |pieces|
  {
    if |pieces| == 1 {
      MarkupPieceNodes(pieces[0], odd, kind, delimiter);
      assert pieces[1..] == [];
      assert NodesFrom(pieces, odd, kind) == PieceNodes(pieces[0], odd, kind) + [];
    } else {
      var rest := pieces[2..];
      forall j | 0 <= j < |rest| && j % 2 == 1 ensures rest[j] != [] {
        assert rest[j] == pieces[j + 2];
      }
      MarkupNodesFrom(rest, odd, kind, delimiter);
      MarkupPair(pieces, odd, kind, delimiter);
    }
  }

  /** The split can be undone: when no two delimiters are adjacent (no odd
      piece is empty), writing every non-NORMAL node back between delimiters
      gives the original text. So the pieces at odd index, and only those,
      took the delimiter's kind. */
  lemma SplitNodeRoundTrip(node: TextNode, delimiter: string)
    requires SplitNodeResult(node, delimiter).Ok?
    requires forall j :: 0 <= j < |Split(node.text, delimiter)| && j % 2 == 1 ==> Split(node.text, delimiter)[j] != []
    ensures MarkupAll(SplitNodeResult(node, delimiter).value, delimiter) == node.text
  {
    DelimiterFacts(delimiter);
    MarkupNodesFrom(Split(node.text, delimiter), false, SymbolToTextType[delimiter], delimiter);
    JoinSplit(node.text, delimiter);
  }

  /** The call fails exactly when the delimiter is not one of the three
      symbols or occurs an odd number of times. */
  lemma SplitNodeFails(node: TextNode, delimiter: string)
    ensures SplitNodeResult(node, delimiter).Err? <==>
      delimiter !in SymbolToTextType || Occurrences(node.text, delimiter) % 2 == 1
  {
    if delimiter in SymbolToTextType {
      DelimiterFacts(delimiter);
      SplitCount(node.text, delimiter);
      var k := Occurrences(node.text, delimiter);
      assert (k + 1) % 2 == 0 <==> k % 2 == 1;
    }
  }

  /** Non-empty text without the delimiter comes back as one equal node. */
  lemma SplitNodeWithoutDelimiter(s: string, delimiter: string)
    requires delimiter in SymbolToTextType
    requires s != [] && !Contains(s, delimiter)
    ensures SplitNodesResult([TextNode(s, Normal)], delimiter) == Ok([TextNode(s, Normal)])
  {
    DelimiterFacts(delimiter);
    SplitWithout(s, delimiter);
    assert [s][..0] == [];
    var nodes := [TextNode(s, Normal)];
    assert [s][1..] == [] && NodesFrom([s], false, SymbolToTextType[delimiter]) == nodes + [] == nodes;
    assert SplitNodeResult(nodes[0], delimiter) == Ok(nodes);
    assert nodes[1..] == [] && nodes + [] == nodes;
  }

  /** The nodes of a given kind. */
  function OfType(nodes: seq<TextNode>, t: TextType): seq<TextNode> {
    if nodes == [] then []
    else (if nodes[0].textType == t then [nodes[0]] else []) + OfType(nodes[1..], t)
  }

  lemma {:induction false} OfTypeAppend(a: seq<TextNode>, b: seq<TextNode>, t: TextType)
    ensures OfType(a + b, t) == OfType(a, t) + OfType(b, t)
  {
    if a != [] {
      assert (a + b)[1..] == a[1..] + b;
      OfTypeAppend(a[1..], b, t);
    } else {
      assert a + b == b;
    }
  }

  lemma OfTypeNone(nodes: seq<TextNode>, t: TextType)
    requires forall n :: n in nodes ==> n.textType != t
    ensures OfType(nodes, t) == []
  {
    if nodes != [] {
      assert nodes[0] in nodes;
      assert forall n :: n in nodes[1..] ==> n in nodes;
      OfTypeNone(nodes[1..], t);
    }
  }

  /** Nodes of any kind other than NORMAL and the delimiter's come out
      unchanged and in their original order. */
  lemma {:induction false} OthersUntouched(nodes: seq<TextNode>, delimiter: string, t: TextType)
    requires t != Normal
    requires delimiter in SymbolToTextType ==> t != SymbolToTextType[delimiter]
    requires SplitNodesResult(nodes, delimiter).Ok?
    ensures OfType(SplitNodesResult(nodes, delimiter).value, t) == OfType(nodes, t)
  {
    if nodes != [] {
      var first := NodeStep(nodes[0], delimiter).value;
      var rest := SplitNodesResult(nodes[1..], delimiter).value;
      OthersUntouched(nodes[1..], delimiter, t);
      OfTypeAppend(first, rest, t);
      if nodes[0].textType == Normal {
        NodesFromShape(Split(nodes[0].text, delimiter), false, SymbolToTextType[delimiter]);
        OfTypeNone(first, t);
      } else {
        assert first == [nodes[0]] && [nodes[0]][1..] == [];
      }
    }
  }

  /** The bold pass followed by the italic pass leaves the bold nodes of the
      first pass as they are. */
  lemma BoldThenItalic(nodes: seq<TextNode>)
    requires SplitNodesResult(nodes, "**").Ok?
    requires SplitNodesResult(SplitNodesResult(nodes, "**").value, "_").Ok?
    ensures var bold := SplitNodesResult(nodes, "**").value;
      OfType(SplitNodesResult(bold, "_").value, Bold) == OfType(bold, Bold)
  {
    OthersUntouched(SplitNodesResult(nodes, "**").value, "_", Bold);
  }

  /** The text the model expects from a node: NORMAL text with the delimiter
      erased, any other text as it is. */
  function Erased(n: TextNode, delimiter: string): string {
    if n.textType == Normal && delimiter != [] then RemoveAll(n.text, delimiter) else n.text
  }

  function ErasedAll(nodes: seq<TextNode>, delimiter: string): string {
    if nodes == [] then [] else Erased(nodes[0], delimiter) + ErasedAll(nodes[1..], delimiter)
  }

  /** Over a whole list, the output text is the input text with the delimiter
      erased from the NORMAL nodes and nothing else changed. */
  lemma {:induction false} SplitNodesTexts(nodes: seq<TextNode>, delimiter: string)
    requires SplitNodesResult(nodes, delimiter).Ok?
    ensures Concat(Texts(SplitNodesResult(nodes, delimiter).value)) == ErasedAll(nodes, delimiter)
  {
    if nodes != [] {
      var first := NodeStep(nodes[0], delimiter).value;
      var rest := SplitNodesResult(nodes[1..], delimiter).value;
      SplitNodesTexts(nodes[1..], delimiter);
      ConcatTextsAppend(first, rest);
      if nodes[0].textType == Normal {
        SplitNodeErasure(nodes[0], delimiter);
      } else {
        assert Texts(first) == [nodes[0].text];
      }
    }
  }

  /** Splitting never makes an empty node: every output node with empty text
      is an input node that was not NORMAL. */
  lemma {:induction false} SplitNodesNoEmpty(nodes: seq<TextNode>, delimiter: string)
    requires SplitNodesResult(nodes, delimiter).Ok?
    ensures forall n :: n in SplitNodesResult(nodes, delimiter).value ==>
      n.text != [] || (n in nodes && n.textType != Normal)
  {
    if nodes != [] {
      var first := NodeStep(nodes[0], delimiter).value;
      var rest := SplitNodesResult(nodes[1..], delimiter).value;
      SplitNodesNoEmpty(nodes[1..], delimiter);
      if nodes[0].textType == Normal {
        NodesFromShape(Split(nodes[0].text, delimiter), false, SymbolToTextType[delimiter]);
      }
      assert SplitNodesResult(nodes, delimiter).value == first + rest;
      forall n: TextNode | n in first + rest
        ensures n.text != [] || (n in nodes && n.textType != Normal)
      {
        if n in rest {
          assert n in nodes[1..] ==> n in nodes;
        } else if nodes[0].textType != Normal {
          assert first == [nodes[0]];
        }
      }
    }
  }

  /** A NORMAL node that makes the call fail: the delimiter is not a symbol or
      its text holds an odd number of delimiters. */
  predicate Fails(n: TextNode, delimiter: string) {
    n.textType == Normal &&
    (delimiter !in SymbolToTextType || (delimiter != [] && Occurrences(n.text, delimiter) % 2 == 1))
  }

  /** split_nodes_delimiter fails exactly when some NORMAL node fails; the
      error names the delimiter, and which one it is depends only on whether
      the delimiter is a known symbol. With no NORMAL node even an unknown
      delimiter is accepted. */
  lemma {:induction false} SplitNodesFails(nodes: seq<TextNode>, delimiter: string)
    ensures SplitNodesResult(nodes, delimiter).Err? <==> exists i :: 0 <= i < |nodes| && Fails(nodes[i], delimiter)
    ensures SplitNodesResult(nodes, delimiter).Err? ==>
      SplitNodesResult(nodes, delimiter).error
        == (if delimiter in SymbolToTextType then MissingClosing(delimiter) else InvalidDelimiter(delimiter))
  {
    if nodes != [] {
      SplitNodesFails(nodes[1..], delimiter);
      SplitNodeFails(nodes[0], delimiter);
      if delimiter in SymbolToTextType {
        DelimiterFacts(delimiter);
      }
      if exists i :: 0 <= i < |nodes| && Fails(nodes[i], delimiter) {
        var i :| 0 <= i < |nodes| && Fails(nodes[i], delimiter);
        if i > 0 {
          assert nodes[1..][i - 1] == nodes[i];
        }
      }
      forall i | 0 <= i < |nodes| - 1 && Fails(nodes[1..][i], delimiter)
        ensures exists k :: 0 <= k < |nodes| && Fails(nodes[k], delimiter)
      {
        assert nodes[1..][i] == nodes[i + 1];
      }
    }
  }

  /** The example of the documentation and the tests: `a**b**c` gives a
      NORMAL, a BOLD and a NORMAL node. */
  lemma BoldExample()
    ensures SplitNodeResult(TextNode("a**b**c", Normal), "**")
      == Ok([TextNode("a", Normal), TextNode("b", Bold), TextNode("c", Normal)])
  {
    var s := "a**b**c";
    assert !("**" <= "c") && "c"[1..] == [] && [] + ['c'] == "c";
    assert SplitFrom("c", "**", []) == ["c"];
    assert "**" <= "**c" && "**c"[2..] == "c";
    assert !("**" <= "b**c") && "b**c"[1..] == "**c" && [] + ['b'] == "b";
    assert SplitFrom("b**c", "**", []) == ["b", "c"];
    assert "**" <= "**b**c" && "**b**c"[2..] == "b**c";
    assert !("**" <= s) && s[1..] == "**b**c" && [] + ['a'] == "a";
    assert Split(s, "**") == ["a", "b", "c"];
    var pieces := ["a", "b", "c"];
    assert "**" in SymbolToTextType && SymbolToTextType["**"] == Bold;
    assert pieces[1..] == ["b", "c"] && pieces[1..][1..] == ["c"] && pieces[1..][1..][1..] == [];
    assert NodesFrom(["c"], false, Bold) == [TextNode("c", Normal)];
    assert NodesFrom(["b", "c"], true, Bold) == [TextNode("b", Bold), TextNode("c", Normal)];
    assert NodesFrom(pieces, false, Bold) == [TextNode("a", Normal), TextNode("b", Bold), TextNode("c", Normal)];
  }
}
