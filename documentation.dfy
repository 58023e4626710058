/**
  The documentation sanitizer of the dialect code generator: it gives every
  code block of a Markdown text a language tag, so that the text can be
  emitted as a Rust doc comment without rustdoc treating the blocks as Rust.

  The Markdown tree that `comrak` allocates in an arena is modelled as an
  array of nodes in pre-order, each with its depth in the tree; a traversal
  of the tree is the sequence of `Start` and `End` edges that
  `Node::traverse` yields. Parsing, rendering and UTF-8 decoding are foreign
  code and are parameters of the model.
*/
module Documentation {
  import opened Wrappers

  /** Why sanitizing documentation fails: the renderer returned an error, or
      its output was not valid UTF-8. */
  datatype DocError = FormatError | EncodingError

  /** The content of a node. A code block keeps whether it was fenced, its
      info string and its literal text; every other kind of node is kept by
      the name of its kind and its text. */
  datatype NodeValue =
    | CodeBlock(fenced: bool, info: string, literal: string)
    | Other(kind: string, literal: string)

  /** A node of the tree, with its depth (the document node has depth 0). */
  datatype Node = Node(depth: nat, value: NodeValue)

  /** An edge of a traversal: entering or leaving the node at an index. */
  datatype Edge = Start(node: nat) | End(node: nat)

  /** The info string given to a code block that has none. */
  const DefaultInfo: string := "text"

  /** Nodes listed in pre-order: the first one is the root, and every later
      node is at most one level deeper than the node before it. */
  predicate IsPreorder(nodes: seq<Node>) {
    && (|nodes| > 0 ==> nodes[0].depth == 0)
    && forall i :: 0 < i < |nodes| ==> 1 <= nodes[i].depth <= nodes[i - 1].depth + 1
  }

  predicate IsTagged(n: Node) {
    n.value.CodeBlock? ==> n.value.info != []
  }

  /** Every code block carries a non-empty info string. */
  predicate AllTagged(nodes: seq<Node>) {
    forall i :: 0 <= i < |nodes| ==> IsTagged(nodes[i])
  }

  /** Two nodes of the same kind, depth, fencing and text: at most the info
      string differs. */
  predicate SameShape(a: Node, b: Node) {
    && a.depth == b.depth
    && a.value.CodeBlock? == b.value.CodeBlock?
    && a.value.literal == b.value.literal
    && (a.value.CodeBlock? ==> a.value.fenced == b.value.fenced)
    && (a.value.Other? ==> a.value == b.value)
  }

  /** What the loop body does to the node on a `Start` edge. */
  function Visit(n: Node): (m: Node)
    ensures IsTagged(m) && SameShape(n, m)
    ensures IsTagged(n) ==> m == n
    ensures !IsTagged(n) ==> m == n.(value := n.value.(info := DefaultInfo))
  {
    match n.value
    case CodeBlock(fenced, info, literal) =>
      if info == [] then Node(n.depth, CodeBlock(fenced, DefaultInfo, literal)) else n
    case Other(_, _) => n
  }

  /** The tree after the loop: every node visited once. */
  function Sanitized(nodes: seq<Node>): (r: seq<Node>)
    ensures |r| == |nodes|
    ensures AllTagged(r)
    ensures forall i :: 0 <= i < |nodes| ==> SameShape(nodes[i], r[i])
    ensures forall i :: 0 <= i < |nodes| && IsTagged(nodes[i]) ==> r[i] == nodes[i]
    ensures forall i :: 0 <= i < |nodes| && !IsTagged(nodes[i]) ==>
      r[i] == nodes[i].(value := nodes[i].value.(info := DefaultInfo))
  {
    seq(|nodes|, i requires 0 <= i < |nodes| => Visit(nodes[i]))
  }

  // ----- the traversal -----

  /** The number of nodes at the bottom of the stack `open` that stay open
      when a node of depth `d` is entered: those less deep than `d`. */
  function StillOpen(nodes: seq<Node>, open: seq<nat>, d: nat): (k: nat)
    requires forall j :: 0 <= j < |open| ==> open[j] < |nodes|
    ensures k <= |open|
  {
    if open == [] || nodes[open[0]].depth >= d then 0
    else 1 + StillOpen(nodes, open[1..], d)
  }

  /** The `End` edges of the nodes on the stack `open`, innermost first. */
  function Closing(open: seq<nat>): (edges: seq<Edge>)
    ensures |edges| == |open|
    ensures forall j :: 0 <= j < |edges| ==> edges[j] == End(open[|open| - 1 - j])
  {
    if open == [] then [] else [End(open[|open| - 1])] + Closing(open[..|open| - 1])
  }

  /** The edges from node `i` on, with the nodes of `open` entered and not
      yet left (outermost first). */
  function TraverseFrom(nodes: seq<Node>, i: nat, open: seq<nat>): seq<Edge>
    requires i <= |nodes|
    requires forall j :: 0 <= j < |open| ==> open[j] < i
    decreases |nodes| - i
  {
    if i == |nodes| then Closing(open)
    else
      var k := StillOpen(nodes, open, nodes[i].depth);
      Closing(open[k..]) + [Start(i)] + TraverseFrom(nodes, i + 1, open[..k] + [i])
  }

  /** `node.traverse()`: the edges of a pre-order walk of the whole tree. */
  function Traverse(nodes: seq<Node>): seq<Edge> {
    TraverseFrom(nodes, 0, [])
  }

  /** The indices of the `Start` edges, in order. */
  function Starts(edges: seq<Edge>): seq<nat> {
    if edges == [] then []
    else (if edges[0].Start? then [edges[0].node] else []) + Starts(edges[1..])
  }

  function Range(lo: nat, hi: nat): (r: seq<nat>)
    requires lo <= hi
    ensures |r| == hi - lo
    ensures forall j :: 0 <= j < |r| ==> r[j] == lo + j
    decreases hi - lo
  {
    if lo == hi then [] else [lo] + Range(lo + 1, hi)
  }

  lemma {:induction false} StartsAppend(a: seq<Edge>, b: seq<Edge>)
    ensures Starts(a + b) == Starts(a) + Starts(b)
  {
    if a == [] {
      assert a + b == b;
    } else {
      assert (a + b)[0] == a[0];
      assert (a + b)[1..] == a[1..] + b;
      StartsAppend(a[1..], b);
    }
  }

  lemma {:induction false} StartsClosing(open: seq<nat>)
    ensures Starts(Closing(open)) == []
  {
    if open != [] {
      StartsClosing(open[..|open| - 1]);
    }
  }

  lemma {:induction false} TraverseFromStarts(nodes: seq<Node>, i: nat, open: seq<nat>)
    requires i <= |nodes|
    requires forall j :: 0 <= j < |open| ==> open[j] < i
    ensures Starts(TraverseFrom(nodes, i, open)) == Range(i, |nodes|)
    decreases |nodes| - i
  {
    if i == |nodes| {
      StartsClosing(open);
    } else {
      var k := StillOpen(nodes, open, nodes[i].depth);
      var open' := open[..k] + [i];
      TraverseFromStarts(nodes, i + 1, open');
      StartsAppend(Closing(open[k..]) + [Start(i)], TraverseFrom(nodes, i + 1, open'));
      StartsAppend(Closing(open[k..]), [Start(i)]);
      StartsClosing(open[k..]);
      assert Starts([Start(i)]) == [i];
    }
  }

  /** The traversal enters every node exactly once, in pre-order. */
  lemma TraverseStartsEachNodeOnce(nodes: seq<Node>)
    ensures Starts(Traverse(nodes)) == Range(0, |nodes|)
  {
    TraverseFromStarts(nodes, 0, []);
  }

  lemma {:induction false} TraverseFromInBounds(nodes: seq<Node>, i: nat, open: seq<nat>)
    requires i <= |nodes|
    requires forall j :: 0 <= j < |open| ==> open[j] < i
    ensures forall e <- TraverseFrom(nodes, i, open) :: e.node < |nodes|
    decreases |nodes| - i
  {
    if i < |nodes| {
      var k := StillOpen(nodes, open, nodes[i].depth);
      TraverseFromInBounds(nodes, i + 1, open[..k] + [i]);
    }
  }

  /** Every edge of the traversal names a node of the tree. */
  lemma TraverseInBounds(nodes: seq<Node>)
    ensures forall e <- Traverse(nodes) :: e.node < |nodes|
  {
    TraverseFromInBounds(nodes, 0, []);
  }

  lemma {:induction false} StartInStarts(edges: seq<Edge>, j: nat)
    requires j in Starts(edges)
    ensures Start(j) in edges
  {
    if edges[0].Start? && edges[0].node == j {
    } else {
      StartInStarts(edges[1..], j);
    }
  }

  /** Every node has a `Start` edge in the traversal. */
  lemma TraverseEntersEveryNode(nodes: seq<Node>, j: nat)
    requires j < |nodes|
    ensures Start(j) in Traverse(nodes)
  {
    TraverseStartsEachNodeOnce(nodes);
    assert Range(0, |nodes|)[j] == j;
    StartInStarts(Traverse(nodes), j);
  }

  /** The tree once the nodes entered by the edges `seen` have been visited. */
  function Entered(tree: seq<Node>, seen: seq<Edge>): (r: seq<Node>)
    ensures |r| == |tree|
  {
    seq(|tree|, j requires 0 <= j < |tree| => if Start(j) in seen then Visit(tree[j]) else tree[j])
  }

  /** One more edge: an `End` edge changes nothing, a `Start` edge visits its node. */
  lemma EnteredStep(tree: seq<Node>, seen: seq<Edge>, e: Edge)
    requires e.node < |tree|
    ensures e.End? ==> Entered(tree, seen + [e]) == Entered(tree, seen)
    ensures e.Start? ==>
      Entered(tree, seen + [e]) == Entered(tree, seen)[e.node := Visit(Entered(tree, seen)[e.node])]
  {
    var before, after := Entered(tree, seen), Entered(tree, seen + [e]);
    forall j | 0 <= j < |tree|
      ensures after[j] == if e == Start(j) then Visit(before[j]) else before[j]
    {
      assert Start(j) in seen + [e] <==> Start(j) in seen || e == Start(j);
    }
  }

  /** Once the whole traversal has been walked, every node has been visited once. */
  lemma EnteredAll(tree: seq<Node>)
    ensures Entered(tree, Traverse(tree)) == Sanitized(tree)
  {
    forall j | 0 <= j < |tree| ensures Entered(tree, Traverse(tree))[j] == Sanitized(tree)[j] {
      TraverseEntersEveryNode(tree, j);
    }
  }

  // ----- the sanitizer -----

  /** Rendering the tree and decoding the bytes, with the two error outcomes. */
  function Render(nodes: seq<Node>, format: seq<Node> -> Option<seq<byte>>,
                  decode: seq<byte> -> Option<string>): (r: Result<string, DocError>)
    ensures r == Failure(FormatError) <==> format(nodes).None?
    ensures r == Failure(EncodingError) <==> format(nodes).Some? && decode(format(nodes).value).None?
    ensures r.Success? ==> Some(r.value) == decode(format(nodes).value)
  {
    match format(nodes)
    case None => Failure(FormatError)
    case Some(bytes) =>
      match decode(bytes)
      case None => Failure(EncodingError)
      case Some(text) => Success(text)
  }

  /** What `sanitize_documentation` returns: the rendering of the parsed
      tree with every code block tagged. */
  function SanitizedDocumentation(text: string, parse: string -> seq<Node>,
                                  format: seq<Node> -> Option<seq<byte>>,
                                  decode: seq<byte> -> Option<string>): Result<string, DocError>
  {
    Render(Sanitized(parse(text)), format, decode)
  }

  /** `sanitize_documentation`: parse into an arena, walk the tree and tag
      each code block in place on its `Start` edge, then render. */
  method SanitizeDocumentation(text: string, parse: string -> seq<Node>,
                               format: seq<Node> -> Option<seq<byte>>,
                               decode: seq<byte> -> Option<string>)
    returns (r: Result<string, DocError>)
    ensures r == SanitizedDocumentation(text, parse, format, decode)
  {
    var tree := parse(text);
    var arena := new Node[|tree|](i requires 0 <= i < |tree| => tree[i]);
    var edges := Traverse(tree);
    TraverseInBounds(tree);
    assert arena[..] == Entered(tree, []);
    for k := 0 to |edges|
      invariant arena[..] == Entered(tree, edges[..k])
    {
      assert edges[..k + 1] == edges[..k] + [edges[k]];
      assert edges[k] in edges;
      EnteredStep(tree, edges[..k], edges[k]);
      if edges[k].End? {
        continue;
      }
      var j := edges[k].node;
      var node := arena[j];
      if node.value.CodeBlock? && node.value.info == [] {
        arena[j] := Node(node.depth, node.value.(info := DefaultInfo));
      } else {
        assert arena[..] == arena[..][j := Visit(node)];
      }
    }
    assert edges[..|edges|] == edges;
    EnteredAll(tree);
    r := Render(arena[..], format, decode);
  }

  // ----- properties -----

  /** Sanitizing changes a tree exactly when some code block lacks an info string. */
  lemma SanitizedFixesExactlyTagged(nodes: seq<Node>)
    ensures Sanitized(nodes) == nodes <==> AllTagged(nodes)
  {
    if AllTagged(nodes) {
      assert forall i :: 0 <= i < |nodes| ==> Sanitized(nodes)[i] == nodes[i];
    }
  }

  /** Sanitizing twice is sanitizing once. */
  lemma SanitizedIdempotent(nodes: seq<Node>)
    ensures Sanitized(Sanitized(nodes)) == Sanitized(nodes)
  {
    SanitizedFixesExactlyTagged(Sanitized(nodes));
  }

  /** The tree keeps its shape: same nodes, same depths, still in pre-order. */
  lemma SanitizedKeepsPreorder(nodes: seq<Node>)
    ensures IsPreorder(nodes) <==> IsPreorder(Sanitized(nodes))
  {
  }

  lemma {:induction false} StillOpenSameDepths(a: seq<Node>, b: seq<Node>, open: seq<nat>, d: nat)
    requires |a| == |b| && forall i :: 0 <= i < |a| ==> a[i].depth == b[i].depth
    requires forall j :: 0 <= j < |open| ==> open[j] < |a|
    ensures StillOpen(a, open, d) == StillOpen(b, open, d)
  {
    if open != [] && a[open[0]].depth < d {
      StillOpenSameDepths(a, b, open[1..], d);
    }
  }

  lemma {:induction false} TraverseFromSameDepths(a: seq<Node>, b: seq<Node>, i: nat, open: seq<nat>)
    requires |a| == |b| && forall i :: 0 <= i < |a| ==> a[i].depth == b[i].depth
    requires i <= |a|
    requires forall j :: 0 <= j < |open| ==> open[j] < i
    ensures TraverseFrom(a, i, open) == TraverseFrom(b, i, open)
    decreases |a| - i
  {
    if i < |a| {
      var k := StillOpen(a, open, a[i].depth);
      StillOpenSameDepths(a, b, open, a[i].depth);
      TraverseFromSameDepths(a, b, i + 1, open[..k] + [i]);
    }
  }

  /** Tagging does not move nodes: the sanitized tree is walked by the same edges. */
  lemma SanitizedSameTraversal(nodes: seq<Node>)
    ensures Traverse(Sanitized(nodes)) == Traverse(nodes)
  {
    TraverseFromSameDepths(nodes, Sanitized(nodes), 0, []);
  }

  /** The error cases: a failing renderer gives `FormatError`, bytes that are
      not UTF-8 give `EncodingError`, and otherwise the decoded text is returned. */
  lemma SanitizedDocumentationOutcome(text: string, parse: string -> seq<Node>,
                                      format: seq<Node> -> Option<seq<byte>>,
                                      decode: seq<byte> -> Option<string>)
    ensures var r := SanitizedDocumentation(text, parse, format, decode);
            var tree := Sanitized(parse(text));
            && AllTagged(tree)
            && (r == Failure(FormatError) <==> format(tree).None?)
            && (r == Failure(EncodingError) <==> format(tree).Some? && decode(format(tree).value).None?)
            && (r.Success? ==> decode(format(tree).value) == Some(r.value))
  {
  }

  /** Idempotence of the whole sanitizer, for an output whose parse is fully
      tagged and renders back to that same output. */
  lemma SanitizeDocumentationIdempotent(text: string, parse: string -> seq<Node>,
                                        format: seq<Node> -> Option<seq<byte>>,
                                        decode: seq<byte> -> Option<string>)
    requires SanitizedDocumentation(text, parse, format, decode).Success?
    requires AllTagged(parse(SanitizedDocumentation(text, parse, format, decode).value))
    requires Render(parse(SanitizedDocumentation(text, parse, format, decode).value), format, decode)
          == SanitizedDocumentation(text, parse, format, decode)
    ensures var once := SanitizedDocumentation(text, parse, format, decode);
            SanitizedDocumentation(once.value, parse, format, decode) == once
  {
    SanitizedFixesExactlyTagged(parse(SanitizedDocumentation(text, parse, format, decode).value));
  }

  /** The tree of "```\nfoo\n```\n": a document holding one untagged block. */
  lemma OneCodeBlockTagged()
    ensures Sanitized([Node(0, Other("document", "")), Node(1, CodeBlock(true, "", "foo\n"))])
         == [Node(0, Other("document", "")), Node(1, CodeBlock(true, "text", "foo\n"))]
  {
  }

  /** The tree of "```\nfoo\n```\n\n```\nbar\n```\n": a document holding two untagged blocks. */
  const TwoBlocks: seq<Node> :=
    [Node(0, Other("document", "")), Node(1, CodeBlock(true, "", "foo\n")), Node(1, CodeBlock(true, "", "bar\n"))]

  /** Both blocks are tagged. */
  lemma TwoCodeBlocksTagged()
    ensures Sanitized(TwoBlocks)
         == [Node(0, Other("document", "")), Node(1, CodeBlock(true, "text", "foo\n")),
             Node(1, CodeBlock(true, "text", "bar\n"))]
  {
  }

  /** A block that already has an info string keeps it. */
  lemma TaggedCodeBlockKept()
    ensures Visit(Node(1, CodeBlock(true, "rust", "fn f() {}\n"))) == Node(1, CodeBlock(true, "rust", "fn f() {}\n"))
  {
  }

  /** The walk of a document with two children leaves each child before the next is entered. */
  lemma TwoChildrenTraversal()
    ensures Traverse(TwoBlocks) == [Start(0), Start(1), End(1), Start(2), End(2), End(0)]
  {
    FirstChildTraversal();
    assert StillOpen(TwoBlocks, [], 0) == 0;
    assert [] + [0] == [0];
  }

  lemma FirstChildTraversal()
    ensures TraverseFrom(TwoBlocks, 1, [0]) == [Start(1), End(1), Start(2), End(2), End(0)]
  {
    var o: seq<nat> := [0];
    assert StillOpen(TwoBlocks, o, 1) == 1;
    assert o[1..] == [] && o[..1] + [1] == [0, 1];
    assert Closing(o[1..]) == [];
    SecondChildTraversal();
    assert TraverseFrom(TwoBlocks, 1, o) == [] + [Start(1)] + TraverseFrom(TwoBlocks, 2, [0, 1]);
  }

  lemma SecondChildTraversal()
    ensures TraverseFrom(TwoBlocks, 2, [0, 1]) == [End(1), Start(2), End(2), End(0)]
  {
    var o: seq<nat> := [0, 2];
    assert Closing(o) == [End(2), End(0)];
    assert TraverseFrom(TwoBlocks, 3, o) == [End(2), End(0)];
    o := [0, 1];
    assert StillOpen(TwoBlocks, o, 1) == 1;
    assert o[1..] == [1] && o[..1] + [2] == [0, 2];
  }
}
