/**
 * The parsed registry document, as the XML tree library hands it over: element nodes
 * with a tag name, an attribute map and ordered children, and leaf nodes.
 */
module Tree {
  import opened Wrappers

  datatype Node =
    | Element(name: string, attributes: map<string, string>, children: seq<Node>)
    | Text(text: string)
      /** Comments, CDATA sections and processing instructions: never an element, never text. */
    | Other(content: string)

  /** The text of an element's first child, when that first child is a text node. */
  function FirstText(n: Node): Option<string>
  {
    if n.Element? && |n.children| > 0 && n.children[0].Text? then Some(n.children[0].text) else None
  }

  /** The first-child text of `n` when `n` is an element tagged `tag`. */
  function TagText(n: Node, tag: string): (r: Option<string>)
    ensures r.Some? <==> n.Element? && n.name == tag && |n.children| > 0 && n.children[0].Text?
    ensures r.Some? ==> r.value == n.children[0].text
  {
    if n.Element? && n.name == tag then FirstText(n) else None
  }
}
