/**
 * The markdown syntax tree (mdast) as far as the excerpt extractor inspects it.
 * A node is an immutable value: nothing in the extractor changes the tree.
 */
module Mdast {
  import opened Wrappers

  const Paragraph := "paragraph"
  const Heading := "heading"
  const Image := "image"
  const Text := "text"
  const InlineCode := "inlineCode"
  const LinkReference := "linkReference"

  /**
   * One node of the tree. `kind` is the mdast `type` tag; `depth` is set on
   * headings, `alt` on images that carry a caption, and `value` is the literal
   * text of text and inline-code nodes ("" on nodes that have no literal).
   */
  datatype Node = Node(
    kind: string,
    children: seq<Node>,
    depth: Option<nat>,
    alt: Option<string>,
    value: string)

  predicate IsImage(n: Node) { n.kind == Image }

  predicate IsHeading(n: Node) { n.kind == Heading }

  predicate IsParagraph(n: Node) { n.kind == Paragraph }

  predicate IsText(n: Node) { n.kind == Text }

  /** Text and inline-code nodes: the ones whose `value` text flattening collects. */
  predicate IsLiteral(n: Node) { n.kind == Text || n.kind == InlineCode }

  /** JavaScript truthiness of `node.alt`: present and not the empty string. */
  predicate HasAlt(n: Node) { n.alt.Some? && n.alt.value != "" }

  // Constructors for the node shapes used in the worked examples.

  function TextNode(s: string): Node { Node(Text, [], None, None, s) }

  function ParagraphNode(cs: seq<Node>): Node { Node(Paragraph, cs, None, None, "") }

  function HeadingNode(d: nat, cs: seq<Node>): Node { Node(Heading, cs, Some(d), None, "") }

  function ImageNode(alt: Option<string>): Node { Node(Image, [], None, alt, "") }

  function ElementNode(kind: string, cs: seq<Node>): Node { Node(kind, cs, None, None, "") }
}
