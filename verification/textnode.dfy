/** The inline text node of src/textnode.py and its conversion to an HTML leaf. */
module TextNodes {
  import opened Prelude
  import opened HtmlNodes

  /** The six inline kinds. */
  datatype TextType = Normal | Bold | Italic | Code | Link | Image {
    /** The enum member's string value. */
    function Value(): string {
      match this
      case Normal => "text"
      case Bold => "bold"
      case Italic => "italic"
      case Code => "code"
      case Link => "link"
      case Image => "image"
    }
  }

  /** A typed piece of inline text; the URL is absent unless given. */
  datatype TextNode = TextNode(text: string, textType: TextType, url: Option<string> := None)

  /** __eq__: two text nodes are equal exactly when kind, text and URL agree. */
  function Equals(a: TextNode, b: TextNode): (r: bool)
    ensures r <==> a == b
  {
    a.textType == b.textType && a.text == b.text && a.url == b.url
  }

  /** Different enum members have different string values, so dispatching on
      the value is dispatching on the member. */
  lemma ValueInjective(t: TextType, u: TextType)
    ensures t.Value() == u.Value() <==> t == u
  {
  }

  /** text_node_to_html_node, as written. NORMAL, BOLD, ITALIC and CODE give a
      leaf with no props whose value is the text and whose tag is none, b, i
      and code. LINK and IMAGE hand their attribute dict to LeafNode as its
      third positional argument, which is `children`, so the leaf constructor
      refuses them. */
  function TextNodeToHtmlNode(n: TextNode): (r: Result<HtmlNode, HtmlError>)
    ensures r.Ok? <==> n.textType in {Normal, Bold, Italic, Code}
    ensures r.Err? ==> r.error == LeafHasChildren
    ensures r.Ok? ==>
      && r.value.cls == Leaf && r.value.children == [] && r.value.props == []
      && r.value.value == Some(n.text)
    ensures n.textType == Normal ==> r.Ok? && r.value.tag == None && ToHtml(r.value) == Ok(n.text)
    ensures n.textType == Bold ==> r.Ok? && ToHtml(r.value) == Ok(Element("b", "", n.text))
    ensures n.textType == Italic ==> r.Ok? && ToHtml(r.value) == Ok(Element("i", "", n.text))
    ensures n.textType == Code ==> r.Ok? && ToHtml(r.value) == Ok(Element("code", "", n.text))
  {
    match n.textType
    case Normal => NewLeafNode(None, Some(n.text))
    case Bold => NewLeafNode(Some("b"), Some(n.text))
    case Italic => NewLeafNode(Some("i"), Some(n.text))
    case Code => NewLeafNode(Some("code"), Some(n.text))
    case Link => NewLeafNode(Some("a"), Some(n.text), Some(Dict([("href", n.url)])))
    case Image => NewLeafNode(Some("img"), Some(""), Some(Dict([("src", n.url), ("alt", Some(n.text))])))
  }

  /** The link example of the test suite fails as written. */
  lemma LinkConversionFails()
    ensures TextNodeToHtmlNode(TextNode("Click here phishing link!", Link, Some("https://hackerwebs.com/")))
      == Err(LeafHasChildren)
  {
  }

  /** The image example of the test suite fails as written. */
  lemma ImageConversionFails()
    ensures TextNodeToHtmlNode(TextNode("This is an image", Image, Some("https://www.boot.dev")))
      == Err(LeafHasChildren)
  {
  }

  /** text_node_to_html_node as its doc-comment and tests describe it: the
      attribute dict is passed as props. A LINK becomes an `a` leaf with an
      href, an IMAGE an `img` leaf with empty value and src and alt, in that
      order; a missing URL is formatted as Python formats None. */
  function TextNodeToHtmlNodeIntended(n: TextNode): (r: Result<HtmlNode, HtmlError>)
    ensures r.Ok?
    ensures r.value.cls == Leaf && r.value.children == []
    ensures n.textType == Link ==>
      && r.value.tag == Some("a") && r.value.value == Some(n.text)
      && r.value.props == [("href", Format(n.url))]
    ensures n.textType == Image ==>
      && r.value.tag == Some("img") && r.value.value == Some("")
      && r.value.props == [("src", Format(n.url)), ("alt", n.text)]
  {
    match n.textType
    case Link => NewLeafNode(Some("a"), Some(n.text), props := Some([("href", Format(n.url))]))
    case Image => NewLeafNode(Some("img"), Some(""), props := Some([("src", Format(n.url)), ("alt", n.text)]))
    case _ => TextNodeToHtmlNode(n)
  }

  /** With the correction a link renders as an anchor carrying its URL. */
  lemma IntendedLinkHtml(n: TextNode)
    requires n.textType == Link
    ensures ToHtml(TextNodeToHtmlNodeIntended(n).value)
      == Ok(Element("a", Attribute(("href", Format(n.url))), n.text))
  {
    var href := [("href", Format(n.url))];
    var node := TextNodeToHtmlNodeIntended(n).value;
    assert href[1..] == [];
    assert PropsToHtml(href) == Attribute(href[0]) + "" == Attribute(href[0]);
    assert node.props == href && node.tag == Some("a") && Format(node.value) == n.text;
  }

  /** With the correction an image renders as an empty img element carrying
      its URL and its alt text. */
  lemma IntendedImageHtml(n: TextNode)
    requires n.textType == Image
    ensures ToHtml(TextNodeToHtmlNodeIntended(n).value)
      == Ok(Element("img", Attribute(("src", Format(n.url))) + Attribute(("alt", n.text)), ""))
  {
    var attrs := [("src", Format(n.url)), ("alt", n.text)];
    assert attrs[1..] == [("alt", n.text)] && attrs[1..][1..] == [];
    assert PropsToHtml(attrs[1..]) == Attribute(attrs[1]) + "" == Attribute(attrs[1]);
    var node := TextNodeToHtmlNodeIntended(n).value;
    assert node.props == attrs && node.tag == Some("img") && Format(node.value) == "";
  }

  /** The correction changes nothing but the LINK and IMAGE cases. */
  lemma IntendedAgreesElsewhere(n: TextNode)
    requires n.textType !in {Link, Image}
    ensures TextNodeToHtmlNodeIntended(n) == TextNodeToHtmlNode(n)
  {
  }
}
