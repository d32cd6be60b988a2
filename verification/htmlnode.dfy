/** The HTML node model of src/htmlnode.py: a base node whose rendering is not
    implemented, and the leaf node, which checks its arguments when it is built
    and renders itself as one element (or as bare text when it has no tag).
    Nodes are never changed after construction, so they are values here. */
module HtmlNodes {
  import opened Prelude
  import opened PyStrings

  /** One attribute of the props dict, as (name, value). The dict is kept as
      the list of its entries in insertion order. */
  type Prop = (string, string)

  /** The class a node was built by; `to_html` is looked up on it. */
  datatype Class = Base | Leaf

  datatype HtmlNode = HtmlNode(
    cls: Class,
    tag: Option<string>,
    value: Option<string>,
    children: seq<HtmlNode>,
    props: seq<Prop>)

  /** What a caller hands over as the `children` argument. Python does not
      check its type: besides a list of nodes, a dict of attributes can land
      there (text_node_to_html_node does exactly that). */
  datatype ChildrenArg =
    | Nodes(nodes: seq<HtmlNode>)
    | Dict(entries: seq<(string, Option<string>)>)

  datatype HtmlError =
    | NotImplemented   // the base class's to_html
    | LeafHasChildren  // "LeafNode cannot have children"
    | NoValue          // "Invalid HTML: no value"

  /** Python's f"{v}" for a value that may be None. */
  function Format(v: Option<string>): string {
    match v
    case Some(s) => s
    case None => "None"
  }

  /** The truth value of `children and children != []`: an empty list, an
      empty dict and None are all false. */
  predicate HasChildren(children: Option<ChildrenArg>) {
    match children
    case None => false
    case Some(Nodes(ns)) => ns != []
    case Some(Dict(es)) => es != []
  }

  /** HTMLNode(tag, value, children, props): a missing children list becomes
      the empty list and missing props become the empty dict. */
  function NewHtmlNode(
    tag: Option<string> := None,
    value: Option<string> := None,
    children: Option<seq<HtmlNode>> := None,
    props: Option<seq<Prop>> := None): (n: HtmlNode)
    ensures n.cls == Base && n.tag == tag && n.value == value
    ensures children.None? ==> n.children == []
    ensures children.Some? ==> n.children == children.value
    ensures props.None? ==> n.props == []
    ensures props.Some? ==> n.props == props.value
  {
    HtmlNode(Base, tag, value, children.GetOr([]), props.GetOr([]))
  }

  /** The rendering of one attribute, with its leading space. */
  function Attribute(p: Prop): string {
    " " + p.0 + "=\"" + p.1 + "\""
  }

  /** props_to_html: every attribute as ` name="value"`, in insertion order. */
  function PropsToHtml(props: seq<Prop>): (r: string)
    ensures r == [] <==> props == []
    ensures |r| >= 4 * |props|
  {
    if props == [] then [] else Attribute(props[0]) + PropsToHtml(props[1..])
  }

  /** Rendering the attributes of two dicts one after the other is rendering
      each in turn: nothing is sorted, merged or dropped. */
  lemma {:induction false} PropsToHtmlAppend(p: seq<Prop>, q: seq<Prop>)
    ensures PropsToHtml(p + q) == PropsToHtml(p) + PropsToHtml(q)
  {
    if p != [] {
      assert (p + q)[0] == p[0] && (p + q)[1..] == p[1..] + q;
      PropsToHtmlAppend(p[1..], q);
      assert PropsToHtml(p + q) == Attribute(p[0]) + PropsToHtml(p[1..] + q);
    } else {
      assert p + q == q;
    }
  }

  /** An element with its attributes (already rendered) and its content. */
  function Element(tag: string, attributes: string, content: string): string {
    "<" + tag + attributes + ">" + content + "</" + tag + ">"
  }

  /** to_html: the base class does not implement it; a leaf renders its raw
      value when it has no tag (props are then ignored), and otherwise wraps
      the value, unescaped, in an opening tag carrying the attributes and a
      closing tag. The two leaf branches of the code (with and without props)
      give the same string because empty props render as "". */
  function ToHtml(n: HtmlNode): (r: Result<string, HtmlError>)
    ensures n.cls == Base <==> r == Err(NotImplemented)
    ensures n.cls == Leaf && n.tag.None? ==> r == Ok(Format(n.value))
    ensures n.cls == Leaf && n.tag.Some? ==>
      r == Ok(Element(n.tag.value, PropsToHtml(n.props), Format(n.value)))
  {
    match n.cls
    case Base => Err(NotImplemented)
    case Leaf =>
      if n.tag.None? then Ok(Format(n.value))
      else if n.props != [] then
        Ok("<" + n.tag.value + PropsToHtml(n.props) + ">" + Format(n.value) + "</" + n.tag.value + ">")
      else
        assert "<" + n.tag.value + PropsToHtml(n.props) == "<" + n.tag.value;
        Ok("<" + n.tag.value + ">" + Format(n.value) + "</" + n.tag.value + ">")
  }

  /** LeafNode(tag, value, children, props): refuses children first, then a
      missing value; the node it builds stores an empty children list. */
  function NewLeafNode(
    tag: Option<string>,
    value: Option<string>,
    children: Option<ChildrenArg> := None,
    props: Option<seq<Prop>> := None): (r: Result<HtmlNode, HtmlError>)
    ensures HasChildren(children) ==> r == Err(LeafHasChildren)
    ensures !HasChildren(children) && value.None? ==> r == Err(NoValue)
    ensures r.Ok? <==> !HasChildren(children) && value.Some?
    ensures r.Ok? ==>
      && r.value.cls == Leaf && r.value.children == []
      && r.value.tag == tag && r.value.value == value
      && r.value.props == props.GetOr([])
  {
    if HasChildren(children) then Err(LeafHasChildren)
    else if value.None? then Err(NoValue)
    else Ok(HtmlNode(Leaf, tag, value, [], props.GetOr([])))
  }

  /** Every leaf that could be built renders, and what it renders contains its
      value verbatim: the value check happens at construction, not when
      rendering. */
  lemma LeafRenders(tag: Option<string>, value: Option<string>, children: Option<ChildrenArg>, props: Option<seq<Prop>>)
    requires NewLeafNode(tag, value, children, props).Ok?
    ensures var html := ToHtml(NewLeafNode(tag, value, children, props).value);
      html.Ok? && exists i :: OccursAt(html.value, value.value, i)
  {
    var n := NewLeafNode(tag, value, children, props).value;
    var html := ToHtml(n).value;
    var v := value.value;
    if tag.None? {
      assert OccursAt(html, v, 0);
    } else {
      var open := "<" + tag.value + PropsToHtml(n.props) + ">";
      assert html == Element(tag.value, PropsToHtml(n.props), v) == open + v + "</" + tag.value + ">";
      assert html[|open|..] == v + "</" + tag.value + ">";
      assert OccursAt(html, v, |open|);
    }
  }

  /** The example of the test suite: two attributes render in insertion order. */
  lemma PropsToHtmlExample()
    ensures PropsToHtml([("href", "https://www.google.com"), ("target", "_blank")])
      == " href=\"https://www.google.com\" target=\"_blank\""
  {
    PropsToHtmlTwo(("href", "https://www.google.com"), ("target", "_blank"));
    AttributeHref();
    AttributeTarget();
  }

  lemma PropsToHtmlTwo(p: Prop, q: Prop)
    ensures PropsToHtml([p, q]) == Attribute(p) + Attribute(q)
  {
    assert [p, q][1..] == [q] && [q][1..] == [];
  }

  lemma AttributeHref()
    ensures Attribute(("href", "https://www.google.com")) == " href=\"https://www.google.com\""
  {
    assert " href=\"" + "https://www.google.com" == " href=\"https://www.google.com";
  }

  lemma AttributeTarget()
    ensures Attribute(("target", "_blank")) == " target=\"_blank\""
  {
  }
}
