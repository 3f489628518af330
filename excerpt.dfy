/**
 * The excerpt extractor of scripts/generate-picked-posts-info.mjs:
 * `toText` flattens a subtree to plain text, and `createExcerpt` walks the
 * document in pre-order and picks the first usable summary, an image caption
 * or a paragraph's text, skipping the main heading and admonition fences.
 */
module Excerpt {
  import opened Wrappers
  import opened Mdast
  import opened UnistVisit

  /** The node types `toText` asks `visit` for. */
  const LiteralTypes: set<string> := {Text, InlineCode}

  /** The node types `createExcerpt` asks `visit` for. */
  const BlockTypes: set<string> := {Paragraph, Heading, Image}

  // ---------------------------------------------------------------------------
  // toText

  /** What one call of the text visitor appends: nothing under a link reference. */
  function Appended(s: Step): string
  {
    if s.parent != Some(LinkReference) then s.node.value else ""
  }

  /** What the text visitor has appended after the calls `calls`. */
  function Gathered(calls: seq<Step>): string
  {
    if calls == [] then "" else Appended(calls[0]) + Gathered(calls[1..])
  }

  /**
   * Reference definition of flattening, as a fold over the tree: the values
   * of the text and inline-code nodes of the subtree of `n`, in document
   * order, leaving out those whose immediate parent is a link reference.
   * `parent` is the type of the parent of `n`.
   */
  function FlatUnder(n: Node, parent: Option<string>): string
    decreases n, 1
  {
    (if IsLiteral(n) && parent != Some(LinkReference) then n.value else "")
    + FlatAll(n.children, Some(n.kind))
  }

  function FlatAll(ns: seq<Node>, parent: Option<string>): string
    decreases ns, 0
  {
    if ns == [] then "" else FlatUnder(ns[0], parent) + FlatAll(ns[1..], parent)
  }

  /** The flattened text of `n`, which the walk starts at without a parent. */
  function FlatText(n: Node): string
  {
    FlatUnder(n, None)
  }

  /** `toText(node)`: append the value of every text visitor call whose parent is not a link reference. */
  method ToText(node: Node) returns (excerpt: string)
    ensures excerpt == FlatText(node)
  {
    var calls := Visit(node, None, LiteralTypes);
    excerpt := "";
    for i := 0 to |calls|
      invariant excerpt == Gathered(calls[..i])
    {
      assert calls[..i + 1] == calls[..i] + [calls[i]];
      GatheredAppend(calls[..i], [calls[i]]);
      var child, parent := calls[i].node, calls[i].parent;
      if parent != Some(LinkReference) {
        excerpt := excerpt + child.value;
      }
    }
    assert calls[..|calls|] == calls;
    TextWalkIsFlat(node, None);
  }

  lemma {:induction false} GatheredAppend(a: seq<Step>, b: seq<Step>)
    ensures Gathered(a + b) == Gathered(a) + Gathered(b)
  {
    if a == [] {
      assert a + b == b;
    } else {
      assert (a + b)[1..] == a[1..] + b;
      GatheredAppend(a[1..], b);
    }
  }

  /** The text visitor's calls over a subtree gather exactly its flattened text. */
  lemma {:induction false} TextWalkIsFlat(n: Node, parent: Option<string>)
    ensures Gathered(Visit(n, parent, LiteralTypes)) == FlatUnder(n, parent)
    decreases n, 1
  {
    var own: seq<Step> := if n.kind in LiteralTypes then [Step(n, parent)] else [];
    GatheredAppend(own, VisitAll(n.children, Some(n.kind), LiteralTypes));
    if own != [] {
      assert own[1..] == [];
    }
    TextWalkAllIsFlat(n.children, Some(n.kind));
  }

  lemma {:induction false} TextWalkAllIsFlat(ns: seq<Node>, parent: Option<string>)
    ensures Gathered(VisitAll(ns, parent, LiteralTypes)) == FlatAll(ns, parent)
    decreases ns, 0
  {
    if ns != [] {
      GatheredAppend(Visit(ns[0], parent, LiteralTypes), VisitAll(ns[1..], parent, LiteralTypes));
      TextWalkIsFlat(ns[0], parent);
      TextWalkAllIsFlat(ns[1..], parent);
    }
  }

  lemma {:induction false} GatheredEmptyIff(calls: seq<Step>)
    ensures Gathered(calls) == "" <==> forall i :: 0 <= i < |calls| ==> Appended(calls[i]) == ""
  {
    if calls != [] {
      GatheredEmptyIff(calls[1..]);
      assert forall i :: 1 <= i < |calls| ==> calls[i] == calls[1..][i - 1];
    }
  }

  /**
   * `toText` gives "" exactly when no text visitor call contributes a
   * non-empty value: every text or inline-code descendant is empty or sits
   * directly under a link reference.
   */
  lemma ToTextEmptyIff(n: Node)
    ensures var calls := Visit(n, None, LiteralTypes);
      FlatText(n) == "" <==> forall i :: 0 <= i < |calls| ==> calls[i].node.value == "" || calls[i].parent == Some(LinkReference)
  {
    TextWalkIsFlat(n, None);
    GatheredEmptyIff(Visit(n, None, LiteralTypes));
  }

  /** Only the immediate parent is checked: text inside emphasis inside a link reference is kept. */
  lemma NestedLinkReferenceTextKept()
    ensures FlatText(ParagraphNode([ElementNode(LinkReference, [ElementNode("emphasis", [TextNode("x")])])])) == "x"
  {
    var x := TextNode("x");
    var em := ElementNode("emphasis", [x]);
    var lr := ElementNode(LinkReference, [em]);
    assert [x][1..] == [] && [em][1..] == [] && [lr][1..] == [];
    assert FlatUnder(x, Some("emphasis")) == "x";
    assert FlatAll(em.children, Some("emphasis")) == "x";
    assert !IsLiteral(em) && !IsLiteral(lr);
    assert FlatUnder(em, Some(LinkReference)) == "x";
    assert FlatAll(lr.children, Some(LinkReference)) == "x";
    assert FlatUnder(lr, Some(Paragraph)) == "x";
    var p := ParagraphNode([lr]);
    assert FlatAll(p.children, Some(Paragraph)) == "x";
    assert !IsLiteral(p);
  }

  /** A link reference's own label text is dropped, leaving the gap where it stood. */
  lemma LinkReferenceLabelDropped()
    ensures FlatText(ParagraphNode([TextNode("See "), ElementNode(LinkReference, [TextNode("here")]), TextNode(" for more.")]))
         == "See " + " for more."
  {
    var here := TextNode("here");
    var lr := ElementNode(LinkReference, [here]);
    var cs := [TextNode("See "), lr, TextNode(" for more.")];
    assert [here][1..] == [] && cs[1..] == [lr, TextNode(" for more.")] && cs[1..][1..] == [TextNode(" for more.")];
    assert cs[1..][1..][1..] == [];
    assert FlatUnder(here, Some(LinkReference)) == "";
    assert FlatAll(lr.children, Some(LinkReference)) == "";
    assert !IsLiteral(lr);
    assert FlatUnder(lr, Some(Paragraph)) == "";
    assert FlatAll(cs[1..][1..], Some(Paragraph)) == " for more.";
    assert FlatAll(cs[1..], Some(Paragraph)) == " for more.";
    assert FlatUnder(cs[0], Some(Paragraph)) == "See ";
    assert FlatAll(cs, Some(Paragraph)) == "See " + " for more.";
    assert !IsLiteral(ParagraphNode(cs));
  }

  // ---------------------------------------------------------------------------
  // createExcerpt

  /** A paragraph opening with a text node that starts with `:::`; a paragraph without children is not one. */
  predicate IsAdmonitionFence(n: Node)
  {
    IsParagraph(n) && |n.children| > 0 && IsText(n.children[0]) && ":::" <= n.children[0].value
  }

  predicate IsMainHeading(n: Node)
  {
    IsHeading(n) && n.depth == Some(1)
  }

  predicate IsStopMarker(n: Node)
  {
    IsAdmonitionFence(n) || IsMainHeading(n)
  }

  /** The excerpt the visitor settles on at `n`; "" when it lets the walk go on. */
  function Supplied(n: Node): string
  {
    if IsStopMarker(n) then ""
    else if IsImage(n) then (if HasAlt(n) then n.alt.value else "")
    else if IsParagraph(n) then FlatText(n)
    else ""
  }

  /** No call along `calls` supplies a non-empty excerpt. */
  predicate NothingSupplied(calls: seq<Step>)
  {
    forall i :: 0 <= i < |calls| ==> Supplied(calls[i].node) == ""
  }

  /** The first non-empty excerpt supplied along `calls`; None when there is none. */
  function FirstSupplied(calls: seq<Step>): (r: Option<string>)
    ensures r.Some? ==> r.value != ""
    ensures r.None? <==> NothingSupplied(calls)
  {
    if calls == [] then None
    else if Supplied(calls[0].node) != "" then Some(Supplied(calls[0].node))
    else
      assert forall i :: 1 <= i < |calls| ==> calls[i] == calls[1..][i - 1];
      FirstSupplied(calls[1..])
  }

  /** The call at `i` is the first along `calls` that supplies a non-empty excerpt. */
  predicate FirstSupplierAt(calls: seq<Step>, i: int)
  {
    0 <= i < |calls| && Supplied(calls[i].node) != ""
    && forall j :: 0 <= j < i ==> Supplied(calls[j].node) == ""
  }

  /** What `createExcerpt` returns for the tree `root`: None stands for `undefined`. */
  function Summary(root: Node): Option<string>
  {
    FirstSupplied(Visit(root, None, BlockTypes))
  }

  /**
   * `createExcerpt` on an already parsed tree: walk the blocks with the
   * visitor, then map an empty excerpt to `undefined`.
   */
  method CreateExcerpt(root: Node) returns (summary: Option<string>)
    ensures summary == Summary(root)
    ensures summary.Some? ==> summary.value != ""
  {
    var excerpt := WalkBlocks(Visit(root, None, BlockTypes));
    summary := if excerpt != "" then Some(excerpt) else None;
  }

  /**
   * The `visit` call of `createExcerpt` over the visitor's calls `calls`: the
   * loop hands each call to `VisitBlock` and stops at its first EXIT. The
   * result is the shared `excerpt` as the walk leaves it: the first non-empty
   * excerpt supplied, or "" when none is.
   */
  method WalkBlocks(calls: seq<Step>) returns (excerpt: string)
    ensures FirstSupplied(calls) == if excerpt != "" then Some(excerpt) else None
  {
    excerpt := "";
    var i := 0;
    while i < |calls|
      invariant 0 <= i <= |calls|
      invariant excerpt == ""
      invariant FirstSupplied(calls[i..]) == FirstSupplied(calls)
    {
      var proceed;
      proceed, excerpt := VisitBlock(calls[i].node, excerpt);
      FirstSuppliedFrom(calls, i);
      if !proceed {
        break;
      }
      i := i + 1;
    }
  }

  /** The search from call `i` on stops at `i` exactly when that call supplies something. */
  lemma FirstSuppliedFrom(calls: seq<Step>, i: nat)
    requires i < |calls|
    ensures FirstSupplied(calls[i..])
         == if Supplied(calls[i].node) != "" then Some(Supplied(calls[i].node)) else FirstSupplied(calls[i + 1..])
  {
  }

  /** A found excerpt comes from the first call that supplies a non-empty one. */
  lemma {:induction false} FirstSuppliedIsFirst(calls: seq<Step>)
    ensures FirstSupplied(calls).Some? ==>
      exists i :: FirstSupplierAt(calls, i) && FirstSupplied(calls).value == Supplied(calls[i].node)
  {
    if calls != [] && Supplied(calls[0].node) != "" {
      assert FirstSupplierAt(calls, 0);
    } else if calls != [] && FirstSupplied(calls[1..]).Some? {
      FirstSuppliedIsFirst(calls[1..]);
      var k :| FirstSupplierAt(calls[1..], k) && FirstSupplied(calls[1..]).value == Supplied(calls[1..][k].node);
      assert calls[k + 1] == calls[1..][k];
      assert forall j :: 1 <= j < k + 1 ==> calls[j] == calls[1..][j - 1];
      assert FirstSupplierAt(calls, k + 1);
    }
  }

  /**
   * The visitor `createExcerpt` hands to `visit`; `excerpt` is the variable it
   * shares with `createExcerpt`, and `proceed` is its result (`true` is
   * CONTINUE, `false` is EXIT). The walk only calls it while `excerpt` is "".
   */
  method VisitBlock(node: Node, excerpt: string) returns (proceed: bool, excerpt': string)
    ensures excerpt == "" ==> excerpt' == Supplied(node) && (proceed <==> Supplied(node) == "")
    ensures IsStopMarker(node) ==> proceed && excerpt' == excerpt
  {
    excerpt' := excerpt;
    if IsAdmonitionFence(node) || IsMainHeading(node) {
      return true, excerpt';
    }
    if IsImage(node) {
      if HasAlt(node) {
        excerpt' := node.alt.value;
        return false, excerpt';
      }
    } else if IsParagraph(node) {
      excerpt' := ToText(node);
    }
    if excerpt' != "" {
      return false, excerpt';
    }
    return true, excerpt';
  }

  /**
   * What `createExcerpt` promises: `undefined` exactly when no visited node
   * supplies a non-empty excerpt, and otherwise the excerpt of the first
   * visited node, in pre-order, that supplies one.
   */
  lemma SummaryIsFirstSupplier(root: Node)
    ensures var calls := Visit(root, None, BlockTypes);
      Summary(root).None? <==> NothingSupplied(calls)
    ensures var calls := Visit(root, None, BlockTypes);
      Summary(root).Some? ==>
        exists i :: FirstSupplierAt(calls, i) && Summary(root).value == Supplied(calls[i].node)
  {
    FirstSuppliedIsFirst(Visit(root, None, BlockTypes));
  }

  /** Once a non-empty excerpt is supplied, nothing visited later can change the result. */
  lemma {:induction false} FirstSuppliedAppend(a: seq<Step>, b: seq<Step>)
    ensures FirstSupplied(a + b) == if FirstSupplied(a).Some? then FirstSupplied(a) else FirstSupplied(b)
  {
    if a == [] {
      assert a + b == b;
    } else {
      assert (a + b)[0] == a[0] && (a + b)[1..] == a[1..] + b;
      FirstSuppliedAppend(a[1..], b);
    }
  }

  /**
   * The walk as a recursion over the tree with an exit signal: Some(s) is
   * `return false` with excerpt s, None is CONTINUE to the end of the subtree.
   * Children are searched after their parent, whatever the parent was.
   */
  function TreeWalk(n: Node): Option<string>
    decreases n, 1
  {
    if n.kind in BlockTypes && Supplied(n) != "" then Some(Supplied(n)) else ForestWalk(n.children)
  }

  function ForestWalk(ns: seq<Node>): Option<string>
    decreases ns, 0
  {
    if ns == [] then None
    else
      match TreeWalk(ns[0])
      case Some(s) => Some(s)
      case None => ForestWalk(ns[1..])
  }

  lemma {:induction false} WalkAgrees(n: Node, parent: Option<string>)
    ensures FirstSupplied(Visit(n, parent, BlockTypes)) == TreeWalk(n)
    decreases n, 1
  {
    var own: seq<Step> := if n.kind in BlockTypes then [Step(n, parent)] else [];
    FirstSuppliedAppend(own, VisitAll(n.children, Some(n.kind), BlockTypes));
    if own != [] {
      assert own[1..] == [];
    }
    WalkAllAgrees(n.children, Some(n.kind));
  }

  lemma {:induction false} WalkAllAgrees(ns: seq<Node>, parent: Option<string>)
    ensures FirstSupplied(VisitAll(ns, parent, BlockTypes)) == ForestWalk(ns)
    decreases ns, 0
  {
    if ns != [] {
      FirstSuppliedAppend(Visit(ns[0], parent, BlockTypes), VisitAll(ns[1..], parent, BlockTypes));
      WalkAgrees(ns[0], parent);
      WalkAllAgrees(ns[1..], parent);
    }
  }

  /** The flat walk over `visit`'s calls and the recursive walk over the tree give the same summary. */
  lemma SummaryIsTreeWalk(root: Node)
    ensures Summary(root) == TreeWalk(root)
  {
    WalkAgrees(root, None);
  }

  /**
   * The main heading and admonition fences never supply the excerpt and
   * never halt the walk: the result is what their children give, in order.
   */
  lemma StopMarkerDefersToChildren(n: Node)
    requires IsStopMarker(n)
    ensures Summary(n) == ForestWalk(n.children)
  {
    SummaryIsTreeWalk(n);
  }

  /** An image with a non-empty caption is the excerpt, verbatim. */
  lemma CaptionedImageWins(n: Node)
    requires IsImage(n) && HasAlt(n)
    ensures Summary(n) == Some(n.alt.value)
  {
  }

  /**
   * A paragraph is judged before the nodes inside it: its text, when
   * non-empty, beats the caption of any image it contains; when empty, the
   * walk goes on into its children.
   */
  lemma ParagraphBeforeItsContents(p: Node)
    requires IsParagraph(p) && !IsAdmonitionFence(p)
    ensures FlatText(p) != "" ==> Summary(p) == Some(FlatText(p))
    ensures FlatText(p) == "" ==> Summary(p) == ForestWalk(p.children)
  {
    SummaryIsTreeWalk(p);
  }

  /** Headings below depth 1 and images without a caption leave the walk running. */
  lemma PassOverNodes(n: Node)
    requires (IsHeading(n) && n.depth != Some(1)) || (IsImage(n) && !HasAlt(n))
    ensures Summary(n) == ForestWalk(n.children)
  {
    SummaryIsTreeWalk(n);
  }

  /** Siblings are searched in document order: the first one with a summary wins. */
  lemma {:induction false} EarlierSiblingWins(ns: seq<Node>, k: nat)
    requires k < |ns|
    requires forall j :: 0 <= j < k ==> TreeWalk(ns[j]).None?
    ensures ForestWalk(ns) == if TreeWalk(ns[k]).Some? then TreeWalk(ns[k]) else ForestWalk(ns[k + 1..])
  {
    if k > 0 {
      assert ns[1..][k - 1..] == ns[k..] && ns[1..][k..] == ns[k + 1..];
      EarlierSiblingWins(ns[1..], k - 1);
    }
  }

  /** A leaf that is neither a paragraph, a heading nor an image, such as a text node. */
  predicate IsInlineLeaf(n: Node)
  {
    n.kind !in BlockTypes && n.children == []
  }

  /** A block that is all noise: the main heading or an admonition fence holding only inline leaves. */
  predicate IsNoise(n: Node)
  {
    IsStopMarker(n) && forall c :: c in n.children ==> IsInlineLeaf(c)
  }

  lemma {:induction false} LeavesGiveNothing(ns: seq<Node>)
    requires forall c :: c in ns ==> IsInlineLeaf(c)
    ensures ForestWalk(ns) == None
  {
    if ns != [] {
      assert ns[0] in ns;
      assert TreeWalk(ns[0]) == ForestWalk(ns[0].children);
      LeavesGiveNothing(ns[1..]);
    }
  }

  lemma {:induction false} NoiseGivesNothing(ns: seq<Node>)
    requires forall c :: c in ns ==> IsNoise(c)
    ensures ForestWalk(ns) == None
  {
    if ns != [] {
      assert ns[0] in ns;
      LeavesGiveNothing(ns[0].children);
      NoiseGivesNothing(ns[1..]);
    }
  }

  /** A document made only of main headings and admonition fences has no summary. */
  lemma NoiseOnlyDocument(root: Node)
    requires root.kind !in BlockTypes
    requires forall c :: c in root.children ==> IsNoise(c)
    ensures Summary(root) == None
  {
    SummaryIsTreeWalk(root);
    NoiseGivesNothing(root.children);
  }

  /** A captioned image inside an admonition fence is still found, since the fence does not stop the descent. */
  lemma CaptionInsideFenceFound()
    ensures Summary(ElementNode("root", [ParagraphNode([TextNode(":::tip"), ImageNode(Some("diagram"))])]))
         == Some("diagram")
  {
    var img := ImageNode(Some("diagram"));
    var fence := ParagraphNode([TextNode(":::tip"), img]);
    assert IsAdmonitionFence(fence);
    assert TreeWalk(img) == Some("diagram");
    assert TreeWalk(TextNode(":::tip")) == None;
    assert ForestWalk(fence.children[1..]) == Some("diagram");
    assert ForestWalk(fence.children) == Some("diagram");
    assert TreeWalk(fence) == Some("diagram");
    SummaryIsTreeWalk(ElementNode("root", [fence]));
  }

  /** Title, then "Hello ", then an image without caption, then "world": the first paragraph wins. */
  lemma TitleThenParagraph()
    ensures Summary(ElementNode("root", [
              HeadingNode(1, [TextNode("Title")]),
              ParagraphNode([TextNode("Hello ")]),
              ImageNode(None),
              ParagraphNode([TextNode("world")])])) == Some("Hello ")
  {
    var title := HeadingNode(1, [TextNode("Title")]);
    var hello := ParagraphNode([TextNode("Hello ")]);
    var cs := [title, hello, ImageNode(None), ParagraphNode([TextNode("world")])];
    assert [TextNode("Title")][1..] == [] && [TextNode("Hello ")][1..] == [];
    assert cs[1..][0] == hello;
    assert TreeWalk(TextNode("Title")) == None;
    assert TreeWalk(title) == None;
    assert FlatUnder(TextNode("Hello "), Some(Paragraph)) == "Hello ";
    assert FlatText(hello) == "Hello ";
    assert hello.children[0].value[0] == 'H';
    assert !IsAdmonitionFence(hello);
    assert TreeWalk(hello) == Some("Hello ");
    assert ForestWalk(cs[1..]) == Some("Hello ");
    SummaryIsTreeWalk(ElementNode("root", cs));
  }
}
