/**
 * The traversal of `unist-util-visit` as the extractor uses it.
 *
 * `visit(tree, test, visitor)` walks the tree depth-first in pre-order,
 * starting with `tree` itself, and calls `visitor(node, index, parent)` on
 * every node whose type is in `test`. A visitor result of `true` means
 * CONTINUE (the walk still descends into that node's children) and `false`
 * means EXIT (the whole walk stops). The extractor never returns SKIP, so
 * the calls the visitor receives are a prefix of `Visit` below: the whole of
 * it when it always continues, up to and including the call that exits
 * otherwise.
 */
module UnistVisit {
  import opened Wrappers
  import opened Mdast

  /** One visitor call: the node and the type of its parent (None for the start node). */
  datatype Step = Step(node: Node, parent: Option<string>)

  /** The visitor calls of a walk from `n`, whose parent has type `parent`, in call order. */
  function Visit(n: Node, parent: Option<string>, tests: set<string>): (calls: seq<Step>)
    decreases n, 1
  {
    (if n.kind in tests then [Step(n, parent)] else [])
    + VisitAll(n.children, Some(n.kind), tests)
  }

  /** The visitor calls of walks over the siblings `ns`, one after the other. */
  function VisitAll(ns: seq<Node>, parent: Option<string>, tests: set<string>): (calls: seq<Step>)
    decreases ns, 0
  {
    if ns == [] then [] else Visit(ns[0], parent, tests) + VisitAll(ns[1..], parent, tests)
  }

  lemma {:induction false} VisitOnlyMatches(n: Node, parent: Option<string>, tests: set<string>)
    ensures forall i :: 0 <= i < |Visit(n, parent, tests)| ==> Visit(n, parent, tests)[i].node.kind in tests
    decreases n, 1
  {
    VisitAllOnlyMatches(n.children, Some(n.kind), tests);
  }

  lemma {:induction false} VisitAllOnlyMatches(ns: seq<Node>, parent: Option<string>, tests: set<string>)
    ensures forall i :: 0 <= i < |VisitAll(ns, parent, tests)| ==> VisitAll(ns, parent, tests)[i].node.kind in tests
    decreases ns, 0
  {
    if ns != [] {
      VisitOnlyMatches(ns[0], parent, tests);
      VisitAllOnlyMatches(ns[1..], parent, tests);
    }
  }

  /** `s` is a node of the subtree of `n` paired with its parent's type; `parent` is that of `n`. */
  predicate OccursIn(s: Step, n: Node, parent: Option<string>)
    decreases n
  {
    s == Step(n, parent)
    || exists k :: 0 <= k < |n.children| && OccursIn(s, n.children[k], Some(n.kind))
  }

  lemma {:induction false} VisitAllContains(ns: seq<Node>, parent: Option<string>, tests: set<string>, k: nat, s: Step)
    requires k < |ns| && s in Visit(ns[k], parent, tests)
    ensures s in VisitAll(ns, parent, tests)
    decreases k
  {
    if k > 0 {
      VisitAllContains(ns[1..], parent, tests, k - 1, s);
    }
  }

  /** Every node of the subtree whose type is in the test list is visited, with its parent's type. */
  lemma {:induction false} VisitFindsMatches(n: Node, parent: Option<string>, tests: set<string>, s: Step)
    requires OccursIn(s, n, parent) && s.node.kind in tests
    ensures s in Visit(n, parent, tests)
    decreases n
  {
    if s != Step(n, parent) {
      var k :| 0 <= k < |n.children| && OccursIn(s, n.children[k], Some(n.kind));
      VisitFindsMatches(n.children[k], Some(n.kind), tests, s);
      VisitAllContains(n.children, Some(n.kind), tests, k, s);
    }
  }
}
