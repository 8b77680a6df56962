/** DOT export: the colour of each kind, the lines `write_node_to_dot` and
    `write_edge_to_dot` write, and the text `generate_dot` puts in its file.
    The lines are first described as values (`DotLine`), numbered as the
    threaded counter numbers them; `DotWriter` is the counter and the output
    stream, and its methods are proved to write exactly those lines. */
module Visualizer {
  import opened Decimal
  import opened Ast

  /** `get_node_color`. */
  function NodeColor(kind: int): (color: string)
    ensures color == "white" <==> !(kind in {KindInt, KindString, KindVar, KindBinOp, KindFuncDef, KindFuncCall, KindIf, KindFor})
    ensures kind == KindIf || kind == KindFor <==> color == "yellow"
  {
    if kind == KindInt || kind == KindString then "lightblue"
    else if kind == KindVar then "lightgreen"
    else if kind == KindBinOp then "pink"
    else if kind == KindFuncDef || kind == KindFuncCall then "orange"
    else if kind == KindIf || kind == KindFor then "yellow"
    else "white"
  }

  /** One line of the DOT output. */
  datatype DotLine =
    | NodeDecl(id: nat, kind: int, text: string)
    | Edge(from: nat, to: nat)
    | SameRank(first: nat, second: nat)

  /** The label text of a node: its value, or nothing. */
  function Label(value: Option<string>): string {
    if value.Some? then value.value else ""
  }

  /** A run of lines together with the value the counter holds after them. */
  datatype Numbered = Numbered(lines: seq<DotLine>, next: nat)

  /** The lines `write_node_to_dot` writes for `t` when the counter holds
      `id`, and the counter value it leaves: the node's declaration takes
      `id`, then each present slot (`left`, `right`, `next`) in turn takes the
      counter value left by the slots before it. */
  function NodeLines(t: Tree, id: nat): Numbered
    decreases t, 1
  {
    if t.Nil? then Numbered([], id)
    else
      var l := SlotLines(id, t.left, id + 1, false);
      var r := SlotLines(id, t.right, l.next, false);
      var n := SlotLines(id, t.next, r.next, true);
      Numbered([NodeDecl(id, t.kind, Label(t.value))] + l.lines + r.lines + n.lines, n.next)
  }

  /** The lines for one slot of the node numbered `parent`, when the counter
      holds `id`: nothing for an empty slot; otherwise the child's lines, the
      edge to `id`, and, for the sibling slot, the `rank=same` line. */
  function SlotLines(parent: nat, child: Tree, id: nat, sameRank: bool): Numbered
    decreases child, 2
  {
    if child.Nil? then Numbered([], id)
    else
      var c := NodeLines(child, id);
      Numbered(c.lines + Links(parent, id, sameRank), c.next)
  }

  /** The lines that join the node numbered `parent` to the child numbered
      `id`: the edge, and for a sibling also the `rank=same` line. */
  function Links(parent: nat, id: nat, sameRank: bool): seq<DotLine> {
    if sameRank then [Edge(parent, id), SameRank(parent, id)] else [Edge(parent, id)]
  }

  /** The text of one line, as the `fprintf` calls format it. */
  function Render(line: DotLine): string {
    match line
    case NodeDecl(id, kind, text) =>
      "    node" + NatToString(id) + " [label=\"" + TypeName(kind) + "\\n" + text
      + "\", shape=box, style=filled, fillcolor=\"" + NodeColor(kind) + "\"];\n"
    case Edge(from, to) =>
      "    node" + NatToString(from) + " -> node" + NatToString(to) + ";\n"
    case SameRank(first, second) =>
      "    {rank=same; node" + NatToString(first) + "; node" + NatToString(second) + ";}\n"
  }

  function RenderAll(lines: seq<DotLine>): string {
    if lines == [] then "" else Render(lines[0]) + RenderAll(lines[1..])
  }

  lemma {:induction false} RenderAllConcat(a: seq<DotLine>, b: seq<DotLine>)
    ensures RenderAll(a + b) == RenderAll(a) + RenderAll(b)
  {
    if a == [] {
      assert a + b == b;
    } else {
      assert (a + b)[1..] == a[1..] + b;
      RenderAllConcat(a[1..], b);
    }
  }

  /** The four fixed lines that open the file. */
  const Header := "digraph AST {\n" + "    node [fontname=\"Arial\"];\n" + "    edge [fontname=\"Arial\"];\n" + "    rankdir=TB;\n"

  /** The contents of the file `generate_dot` writes: the fixed header, the
      lines of the whole tree numbered from 0, and the closing brace. */
  function DotText(root: Tree): (text: string)
    ensures Header <= text
    ensures |text| >= 2 && text[|text| - 2..] == "}\n"
  {
    Header + RenderAll(NodeLines(root, 0).lines) + "}\n"
  }

  lemma RenderAllOfFour(all: seq<DotLine>, a: seq<DotLine>, b: seq<DotLine>, c: seq<DotLine>, d: seq<DotLine>)
    requires all == a + b + c + d
    ensures RenderAll(all) == RenderAll(a) + RenderAll(b) + RenderAll(c) + RenderAll(d)
  {
    RenderAllConcat(a, b);
    RenderAllConcat(a + b, c);
    RenderAllConcat(a + b + c, d);
  }

  lemma RenderLinks(parent: nat, id: nat, sameRank: bool)
    ensures RenderAll(Links(parent, id, sameRank))
      == Render(Edge(parent, id)) + (if sameRank then Render(SameRank(parent, id)) else "")
  {
    if sameRank {
      assert Links(parent, id, sameRank) == [Edge(parent, id)] + [SameRank(parent, id)];
      RenderAllConcat([Edge(parent, id)], [SameRank(parent, id)]);
      RenderAllSingle(SameRank(parent, id));
    }
    RenderAllSingle(Edge(parent, id));
  }

  lemma Associative<T>(a: seq<T>, b: seq<T>, c: seq<T>)
    ensures a + (b + c) == a + b + c
  {
  }

  lemma AssociativeFour(a: string, b: string, c: string, d: string, e: string)
    ensures a + (b + c + d + e) == a + b + c + d + e
  {
    Associative(a, b + c + d, e);
    Associative(a, b + c, d);
    Associative(a, b, c);
  }

  lemma RenderAllSingle(line: DotLine)
    ensures RenderAll([line]) == Render(line)
  {
    assert [line][1..] == [];
  }

  /** The declaration lines among `lines`, in order. */
  function Declarations(lines: seq<DotLine>): seq<DotLine> {
    if lines == [] then [] else (if lines[0].NodeDecl? then [lines[0]] else []) + Declarations(lines[1..])
  }

  /** The ids the edges among `lines` point to, in order. */
  function EdgeTargets(lines: seq<DotLine>): seq<nat> {
    if lines == [] then [] else (if lines[0].Edge? then [lines[0].to] else []) + EdgeTargets(lines[1..])
  }

  /** Every edge among `lines` starts at `lo` or later and points forward, to
      an id below `hi`. */
  predicate EdgesForward(lines: seq<DotLine>, lo: nat, hi: nat) {
    forall i :: 0 <= i < |lines| && lines[i].Edge? ==> lo <= lines[i].from < lines[i].to < hi
  }

  /** The declarations of `nodes`, numbered one after another from `id`. */
  function Numbering(nodes: seq<Tree>, id: nat): seq<DotLine> {
    if nodes == [] then [] else Declared(nodes[0], id) + Numbering(nodes[1..], id + 1)
  }

  /** The declaration of `node` with the id `id` (none for an empty tree,
      which `PreOrder` never lists). */
  function Declared(node: Tree, id: nat): seq<DotLine> {
    if node.Node? then [NodeDecl(id, node.kind, Label(node.value))] else []
  }

  /** The ids the declarations among `lines` give, in order. */
  function DeclaredIds(lines: seq<DotLine>): seq<nat> {
    if lines == [] then [] else (if lines[0].NodeDecl? then [lines[0].id] else []) + DeclaredIds(lines[1..])
  }

  /** Numbering `k` nodes from `id` hands out the ids `id` to `id + k - 1`, in turn. */
  lemma {:induction false} NumberingIds(nodes: seq<Tree>, id: nat)
    requires forall i :: 0 <= i < |nodes| ==> nodes[i].Node?
    ensures DeclaredIds(Numbering(nodes, id)) == Range(id, id + |nodes|)
  {
    if nodes != [] {
      var rest := Numbering(nodes[1..], id + 1);
      NumberingIds(nodes[1..], id + 1);
      var d := NodeDecl(id, nodes[0].kind, Label(nodes[0].value));
      assert Numbering(nodes, id) == [d] + rest;
      assert ([d] + rest)[1..] == rest;
    }
  }

  /** The ids from `lo` up to, not including, `hi`. */
  function Range(lo: nat, hi: nat): (ids: seq<nat>)
    requires lo <= hi
    ensures |ids| == hi - lo
    decreases hi - lo
  {
    if lo == hi then [] else [lo] + Range(lo + 1, hi)
  }

  lemma {:induction false} DeclarationsConcat(a: seq<DotLine>, b: seq<DotLine>)
    ensures Declarations(a + b) == Declarations(a) + Declarations(b)
  {
    if a == [] {
      assert a + b == b;
    } else {
      var head := if a[0].NodeDecl? then [a[0]] else [];
      assert (a + b)[1..] == a[1..] + b;
      assert Declarations(a + b) == head + Declarations(a[1..] + b);
      DeclarationsConcat(a[1..], b);
      Associative(head, Declarations(a[1..]), Declarations(b));
    }
  }

  lemma {:induction false} EdgeTargetsConcat(a: seq<DotLine>, b: seq<DotLine>)
    ensures EdgeTargets(a + b) == EdgeTargets(a) + EdgeTargets(b)
  {
    if a == [] {
      assert a + b == b;
    } else {
      var head := if a[0].Edge? then [a[0].to] else [];
      assert (a + b)[1..] == a[1..] + b;
      assert EdgeTargets(a + b) == head + EdgeTargets(a[1..] + b);
      EdgeTargetsConcat(a[1..], b);
      Associative(head, EdgeTargets(a[1..]), EdgeTargets(b));
    }
  }

  lemma {:induction false} NumberingConcat(a: seq<Tree>, b: seq<Tree>, id: nat)
    ensures Numbering(a + b, id) == Numbering(a, id) + Numbering(b, id + |a|)
  {
    if a == [] {
      assert a + b == b;
    } else {
      assert (a + b)[1..] == a[1..] + b;
      NumberingConcat(a[1..], b, id + 1);
    }
  }

  lemma {:induction false} RangeSplit(lo: nat, mid: nat, hi: nat)
    requires lo <= mid <= hi
    ensures Range(lo, mid) + Range(mid, hi) == Range(lo, hi)
    decreases mid - lo
  {
    if lo < mid {
      RangeSplit(lo + 1, mid, hi);
      assert Range(lo, mid) + Range(mid, hi) == [lo] + (Range(lo + 1, mid) + Range(mid, hi));
    }
  }

  lemma EdgesForwardWiden(lines: seq<DotLine>, lo: nat, hi: nat, hi': nat)
    requires EdgesForward(lines, lo, hi) && hi <= hi'
    ensures EdgesForward(lines, lo, hi')
  {
  }

  lemma EdgesForwardConcat(a: seq<DotLine>, b: seq<DotLine>, lo: nat, hi: nat)
    requires EdgesForward(a, lo, hi) && EdgesForward(b, lo, hi)
    ensures EdgesForward(a + b, lo, hi)
  {
    forall i | 0 <= i < |a + b| && (a + b)[i].Edge?
      ensures lo <= (a + b)[i].from < (a + b)[i].to < hi
    {
      if i >= |a| {
        assert (a + b)[i] == b[i - |a|];
      }
    }
  }

  /** What a node's lines, its declaration `d` followed by the lines of its
      three slots `a`, `b`, `c`, declare and point to. */
  lemma NodePieces(d: DotLine, a: seq<DotLine>, b: seq<DotLine>, c: seq<DotLine>)
    requires d.NodeDecl?
    ensures Declarations([d] + a + b + c) == [d] + Declarations(a) + Declarations(b) + Declarations(c)
    ensures EdgeTargets([d] + a + b + c) == EdgeTargets(a) + EdgeTargets(b) + EdgeTargets(c)
  {
    NodeDeclarationPieces(d, a, b, c);
    NodeEdgePieces(d, a, b, c);
  }

  lemma NodeDeclarationPieces(d: DotLine, a: seq<DotLine>, b: seq<DotLine>, c: seq<DotLine>)
    requires d.NodeDecl?
    ensures Declarations([d] + a + b + c) == [d] + Declarations(a) + Declarations(b) + Declarations(c)
  {
    OneLine(d);
    DeclarationsConcat([d], a);
    DeclarationsConcat([d] + a, b);
    DeclarationsConcat([d] + a + b, c);
  }

  lemma NodeEdgePieces(d: DotLine, a: seq<DotLine>, b: seq<DotLine>, c: seq<DotLine>)
    requires d.NodeDecl?
    ensures EdgeTargets([d] + a + b + c) == EdgeTargets(a) + EdgeTargets(b) + EdgeTargets(c)
  {
    OneLine(d);
    EdgeTargetsConcat([d], a);
    EdgeTargetsConcat([d] + a, b);
    EdgeTargetsConcat([d] + a + b, c);
  }

  lemma NodePiecesForward(d: DotLine, a: seq<DotLine>, b: seq<DotLine>, c: seq<DotLine>, lo: nat, hi: nat)
    requires d.NodeDecl?
    requires EdgesForward(a, lo, hi) && EdgesForward(b, lo, hi) && EdgesForward(c, lo, hi)
    ensures EdgesForward([d] + a + b + c, lo, hi)
  {
    assert EdgesForward([d], lo, hi);
    EdgesForwardConcat([d], a, lo, hi);
    EdgesForwardConcat([d] + a, b, lo, hi);
    EdgesForwardConcat([d] + a + b, c, lo, hi);
  }

  /** Three runs of ids that cover three adjacent ranges cover their union. */
  lemma RangesJoin(x: seq<nat>, y: seq<nat>, z: seq<nat>, lo: nat, m1: nat, m2: nat, hi: nat)
    requires lo <= m1 <= m2 <= hi
    requires multiset(x) == multiset(Range(lo, m1))
    requires multiset(y) == multiset(Range(m1, m2))
    requires multiset(z) == multiset(Range(m2, hi))
    ensures multiset(x + y + z) == multiset(Range(lo, hi))
  {
    RangeSplit(lo, m1, m2);
    RangeSplit(lo, m2, hi);
  }

  /** The pre-order numbering of a node: the node itself, then its three
      slots, each numbered from where the one before it ends. */
  lemma NumberingOfNode(t: Tree, id: nat, rightId: nat, nextId: nat)
    requires t.Node?
    requires rightId == id + 1 + Size(t.left) && nextId == rightId + Size(t.right)
    ensures Numbering(PreOrder(t), id) == [NodeDecl(id, t.kind, Label(t.value))]
      + Numbering(PreOrder(t.left), id + 1)
      + Numbering(PreOrder(t.right), rightId)
      + Numbering(PreOrder(t.next), nextId)
  {
    NumberingOfFour(t, PreOrder(t.left), PreOrder(t.right), PreOrder(t.next), id, rightId, nextId);
  }

  lemma NumberingOfFour(node: Tree, a: seq<Tree>, b: seq<Tree>, c: seq<Tree>, id: nat, m1: nat, m2: nat)
    requires node.Node? && m1 == id + 1 + |a| && m2 == m1 + |b|
    ensures Numbering([node] + a + b + c, id)
      == [NodeDecl(id, node.kind, Label(node.value))] + Numbering(a, id + 1) + Numbering(b, m1) + Numbering(c, m2)
  {
    NumberingConcat([node], a, id);
    NumberingConcat([node] + a, b, id);
    NumberingConcat([node] + a + b, c, id);
    assert [node][1..] == [];
  }

  /** The lines joining a node to a child declare nothing and hold one
      edge, to the child. */
  lemma LinksShape(parent: nat, id: nat, sameRank: bool)
    requires parent < id
    ensures Declarations(Links(parent, id, sameRank)) == []
    ensures EdgeTargets(Links(parent, id, sameRank)) == [id]
    ensures EdgesForward(Links(parent, id, sameRank), parent, id + 1)
  {
    if sameRank {
      assert Links(parent, id, sameRank) == [Edge(parent, id)] + [SameRank(parent, id)];
      DeclarationsConcat([Edge(parent, id)], [SameRank(parent, id)]);
      EdgeTargetsConcat([Edge(parent, id)], [SameRank(parent, id)]);
      OneLine(SameRank(parent, id));
    }
    OneLine(Edge(parent, id));
  }

  lemma OneLine(line: DotLine)
    ensures Declarations([line]) == if line.NodeDecl? then [line] else []
    ensures EdgeTargets([line]) == if line.Edge? then [line.to] else []
  {
    assert [line][1..] == [];
  }

  /** The lines of a node: its declaration, then its three slots. */
  lemma NodeLinesParts(t: Tree, id: nat)
    requires t.Node?
    ensures NodeLines(t, id).lines == [NodeDecl(id, t.kind, Label(t.value))]
      + SlotLines(id, t.left, id + 1, false).lines
      + SlotLines(id, t.right, SlotLines(id, t.left, id + 1, false).next, false).lines
      + SlotLines(id, t.next, SlotLines(id, t.right, SlotLines(id, t.left, id + 1, false).next, false).next, true).lines
    ensures NodeLines(t, id).next
      == SlotLines(id, t.next, SlotLines(id, t.right, SlotLines(id, t.left, id + 1, false).next, false).next, true).next
  {
  }

  /** `write_node_to_dot` advances the counter by the number of nodes it
      writes. */
  lemma {:induction false} NodeLinesNext(t: Tree, id: nat)
    ensures NodeLines(t, id).next == id + Size(t)
    decreases t, 1
  {
    if t.Node? {
      var l := SlotLines(id, t.left, id + 1, false);
      var r := SlotLines(id, t.right, l.next, false);
      SlotLinesNext(id, t.left, id + 1, false);
      SlotLinesNext(id, t.right, l.next, false);
      SlotLinesNext(id, t.next, r.next, true);
    }
  }

  lemma {:induction false} SlotLinesNext(parent: nat, child: Tree, id: nat, sameRank: bool)
    ensures SlotLines(parent, child, id, sameRank).next == id + Size(child)
    decreases child, 2
  {
    if child.Node? {
      NodeLinesNext(child, id);
    }
  }

  /** `write_node_to_dot` declares the nodes in the order `print_ast` visits
      them, numbered one after another from the counter's value. */
  lemma {:induction false} NodeLinesDeclarations(t: Tree, id: nat)
    ensures Declarations(NodeLines(t, id).lines) == Numbering(PreOrder(t), id)
    decreases t, 1
  {
    if t.Node? {
      var l := SlotLines(id, t.left, id + 1, false);
      var r := SlotLines(id, t.right, l.next, false);
      var n := SlotLines(id, t.next, r.next, true);
      NodeLinesParts(t, id);
      SlotLinesNext(id, t.left, id + 1, false);
      SlotLinesNext(id, t.right, l.next, false);
      SlotLinesDeclarations(id, t.left, id + 1, false);
      SlotLinesDeclarations(id, t.right, l.next, false);
      SlotLinesDeclarations(id, t.next, r.next, true);
      NodePieces(NodeDecl(id, t.kind, Label(t.value)), l.lines, r.lines, n.lines);
      NumberingOfNode(t, id, l.next, r.next);
    }
  }

  lemma {:induction false} SlotLinesDeclarations(parent: nat, child: Tree, id: nat, sameRank: bool)
    requires parent < id
    ensures Declarations(SlotLines(parent, child, id, sameRank).lines) == Numbering(PreOrder(child), id)
    decreases child, 2
  {
    if child.Node? {
      var links := Links(parent, id, sameRank);
      NodeLinesDeclarations(child, id);
      DeclarationsConcat(NodeLines(child, id).lines, links);
      LinksShape(parent, id, sameRank);
    }
  }

  /** The edges among the lines of a node, in terms of the counter value
      the lines end at: every id after the node's own receives exactly one
      edge, and every edge points from a node to one numbered after it. */
  lemma {:induction false} NodeLinesEdgesTo(t: Tree, id: nat)
    ensures t.Node? ==> NodeLines(t, id).next > id
    ensures t.Node? ==> multiset(EdgeTargets(NodeLines(t, id).lines)) == multiset(Range(id + 1, NodeLines(t, id).next))
    ensures EdgesForward(NodeLines(t, id).lines, id, NodeLines(t, id).next)
    decreases t, 1
  {
    if t.Node? {
      var l := SlotLines(id, t.left, id + 1, false);
      var r := SlotLines(id, t.right, l.next, false);
      var n := SlotLines(id, t.next, r.next, true);
      NodeLinesParts(t, id);
      SlotLinesEdgesTo(id, t.left, id + 1, false);
      SlotLinesEdgesTo(id, t.right, l.next, false);
      SlotLinesEdgesTo(id, t.next, r.next, true);
      var d := NodeDecl(id, t.kind, Label(t.value));
      NodePieces(d, l.lines, r.lines, n.lines);
      RangesJoin(EdgeTargets(l.lines), EdgeTargets(r.lines), EdgeTargets(n.lines), id + 1, l.next, r.next, n.next);
      EdgesForwardWiden(l.lines, id, l.next, n.next);
      EdgesForwardWiden(r.lines, id, r.next, n.next);
      NodePiecesForward(d, l.lines, r.lines, n.lines, id, n.next);
    }
  }

  lemma {:induction false} SlotLinesEdgesTo(parent: nat, child: Tree, id: nat, sameRank: bool)
    requires parent < id
    ensures SlotLines(parent, child, id, sameRank).next >= id
    ensures multiset(EdgeTargets(SlotLines(parent, child, id, sameRank).lines)) == multiset(Range(id, SlotLines(parent, child, id, sameRank).next))
    ensures EdgesForward(SlotLines(parent, child, id, sameRank).lines, parent, SlotLines(parent, child, id, sameRank).next)
    decreases child, 2
  {
    if child.Node? {
      var c := NodeLines(child, id);
      NodeLinesEdgesTo(child, id);
      LinksShape(parent, id, sameRank);
      SlotPieces(c.lines, Links(parent, id, sameRank), parent, id, c.next);
    } else {
      assert Range(id, id) == [];
    }
  }

  /** The lines of a filled slot: the child's lines `c`, numbered from `id`
      up to `next`, then the lines `links` joining it to `parent`. */
  lemma SlotPieces(c: seq<DotLine>, links: seq<DotLine>, parent: nat, id: nat, next: nat)
    requires parent < id < next
    requires multiset(EdgeTargets(c)) == multiset(Range(id + 1, next)) && EdgesForward(c, id, next)
    requires EdgeTargets(links) == [id] && EdgesForward(links, parent, id + 1)
    ensures multiset(EdgeTargets(c + links)) == multiset(Range(id, next))
    ensures EdgesForward(c + links, parent, next)
  {
    EdgeTargetsConcat(c, links);
    RangeSplit(id, id + 1, next);
    assert Range(id, id + 1) == [id];
    EdgesForwardWiden(links, parent, id + 1, next);
    EdgesForwardConcat(c, links, parent, next);
  }

  /** Every node `write_node_to_dot` writes, except the first, receives
      exactly one edge: the edge targets are the ids the call hands out
      after the node's own. */
  lemma NodeLinesEdgeTargets(t: Tree, id: nat)
    requires t.Node?
    ensures multiset(EdgeTargets(NodeLines(t, id).lines)) == multiset(Range(id + 1, id + Size(t)))
  {
    var nl := NodeLines(t, id);
    NodeLinesNext(t, id);
    NodeLinesEdgesTo(t, id);
    SameTargets(EdgeTargets(nl.lines), nl.next, id, id + Size(t));
  }

  lemma SameTargets(targets: seq<nat>, next: nat, id: nat, hi: nat)
    requires next == hi && id < hi
    requires multiset(targets) == multiset(Range(id + 1, next))
    ensures multiset(targets) == multiset(Range(id + 1, hi))
  {
  }

  /** Every edge `write_node_to_dot` writes points from a node to one
      numbered after it, within the ids the call hands out. */
  lemma NodeLinesEdgesForward(t: Tree, id: nat)
    ensures EdgesForward(NodeLines(t, id).lines, id, id + Size(t))
  {
    var nl := NodeLines(t, id);
    NodeLinesNext(t, id);
    NodeLinesEdgesTo(t, id);
    EdgesForwardWiden(nl.lines, id, nl.next, id + Size(t));
  }

  /** Every node gets its own id: the ids `write_node_to_dot` declares,
      counting from `id`, are `id` up to `id + n - 1` in turn, for the `n`
      nodes of the tree; `generate_dot` starts at 0. */
  lemma DeclaredIdsInTurn(t: Tree, id: nat)
    ensures DeclaredIds(Declarations(NodeLines(t, id).lines)) == Range(id, id + Size(t))
  {
    NodeLinesDeclarations(t, id);
    var nodes := PreOrder(t);
    NumberingIds(nodes, id);
    SameIds(Declarations(NodeLines(t, id).lines), Numbering(nodes, id), Range(id, id + |nodes|));
  }

  lemma SameIds(decls: seq<DotLine>, numbering: seq<DotLine>, ids: seq<nat>)
    requires decls == numbering && DeclaredIds(numbering) == ids
    ensures DeclaredIds(decls) == ids
  {
  }

  /** `c` is the id the node numbered `id` gives to its `left`, its `right`
      or its `next` when it is numbered `id`: the slots are numbered in turn
      after the node, each after the whole of the slots before it. */
  predicate SlotId(t: Tree, id: int, c: int) {
    t.Node? &&
    ((t.left.Node? && c == id + 1)
     || (t.right.Node? && c == id + 1 + Size(t.left))
     || (t.next.Node? && c == id + 1 + Size(t.left) + Size(t.right)))
  }

  /** `c` is the id the node with id `id` gives to its `next` sibling. */
  predicate NextId(t: Tree, id: int, c: int) {
    t.Node? && t.next.Node? && c == id + 1 + Size(t.left) + Size(t.right)
  }

  /** Numbering `t` from `id`, the node numbered `p` has a child or sibling
      numbered `c`. */
  predicate ChildId(t: Tree, id: int, p: int, c: int)
    decreases t
  {
    t.Node? &&
    ((p == id && SlotId(t, id, c))
     || ChildId(t.left, id + 1, p, c)
     || ChildId(t.right, id + 1 + Size(t.left), p, c)
     || ChildId(t.next, id + 1 + Size(t.left) + Size(t.right), p, c))
  }

  /** Numbering `t` from `id`, the node numbered `p` has a `next` sibling
      numbered `c`. */
  predicate SiblingId(t: Tree, id: int, p: int, c: int)
    decreases t
  {
    t.Node? &&
    ((p == id && NextId(t, id, c))
     || SiblingId(t.left, id + 1, p, c)
     || SiblingId(t.right, id + 1 + Size(t.left), p, c)
     || SiblingId(t.next, id + 1 + Size(t.left) + Size(t.right), p, c))
  }

  /** The edges `write_node_to_dot` writes for `t` are exactly those from a
      node to one of its children or to its sibling, by the ids the counter
      gives them. */
  lemma {:induction false} NodeLinesEdges(t: Tree, id: nat, p: nat, c: nat)
    ensures Edge(p, c) in NodeLines(t, id).lines <==> ChildId(t, id, p, c)
    decreases t, 1
  {
    if t.Node? {
      var l := SlotLines(id, t.left, id + 1, false);
      var r := SlotLines(id, t.right, l.next, false);
      var n := SlotLines(id, t.next, r.next, true);
      NodeLinesParts(t, id);
      SlotLinesNext(id, t.left, id + 1, false);
      SlotLinesNext(id, t.right, l.next, false);
      SlotLinesEdges(id, t.left, id + 1, false, p, c);
      SlotLinesEdges(id, t.right, l.next, false, p, c);
      SlotLinesEdges(id, t.next, r.next, true, p, c);
      InFourParts(Edge(p, c), [NodeDecl(id, t.kind, Label(t.value))], l.lines, r.lines, n.lines);
    }
  }

  lemma {:induction false} SlotLinesEdges(parent: nat, child: Tree, id: nat, sameRank: bool, p: nat, c: nat)
    ensures Edge(p, c) in SlotLines(parent, child, id, sameRank).lines
      <==> ChildId(child, id, p, c) || (child.Node? && p == parent && c == id)
    decreases child, 2
  {
    if child.Node? {
      NodeLinesEdges(child, id, p, c);
    }
  }

  /** The `rank=same` lines `write_node_to_dot` writes for `t` are exactly
      one per node with a sibling, pairing their ids. */
  lemma {:induction false} NodeLinesSameRanks(t: Tree, id: nat, p: nat, c: nat)
    ensures SameRank(p, c) in NodeLines(t, id).lines <==> SiblingId(t, id, p, c)
    decreases t, 1
  {
    if t.Node? {
      var l := SlotLines(id, t.left, id + 1, false);
      var r := SlotLines(id, t.right, l.next, false);
      var n := SlotLines(id, t.next, r.next, true);
      NodeLinesParts(t, id);
      SlotLinesNext(id, t.left, id + 1, false);
      SlotLinesNext(id, t.right, l.next, false);
      SlotLinesSameRanks(id, t.left, id + 1, false, p, c);
      SlotLinesSameRanks(id, t.right, l.next, false, p, c);
      SlotLinesSameRanks(id, t.next, r.next, true, p, c);
      InFourParts(SameRank(p, c), [NodeDecl(id, t.kind, Label(t.value))], l.lines, r.lines, n.lines);
    }
  }

  lemma {:induction false} SlotLinesSameRanks(parent: nat, child: Tree, id: nat, sameRank: bool, p: nat, c: nat)
    ensures SameRank(p, c) in SlotLines(parent, child, id, sameRank).lines
      <==> SiblingId(child, id, p, c) || (child.Node? && sameRank && p == parent && c == id)
    decreases child, 2
  {
    if child.Node? {
      NodeLinesSameRanks(child, id, p, c);
    }
  }

  /** Only the ids of the nodes of `t` have children or siblings. */
  lemma {:induction false} ChildIdRange(t: Tree, id: int, p: int, c: int)
    ensures ChildId(t, id, p, c) ==> id <= p < id + Size(t)
    ensures SiblingId(t, id, p, c) ==> id <= p < id + Size(t)
  {
    if t.Node? {
      ChildIdRange(t.left, id + 1, p, c);
      ChildIdRange(t.right, id + 1 + Size(t.left), p, c);
      ChildIdRange(t.next, id + 1 + Size(t.left) + Size(t.right), p, c);
    }
  }

  /** Numbering `t` from `id`, the node numbered `p` has a child or sibling
      numbered `c` exactly when `p` numbers a node of `t` and `c` numbers,
      counting from `p`, one of that node's filled slots: the node at
      `p - id` in the pre-order of `t`. */
  lemma {:induction false} ChildIdAt(t: Tree, id: int, p: int, c: int)
    ensures ChildId(t, id, p, c) <==> id <= p < id + Size(t) && SlotId(PreOrder(t)[p - id], p, c)
    decreases t, 1
  {
    ChildIdRange(t, id, p, c);
    if id <= p < id + Size(t) {
      if p == id {
        ChildIdAtRoot(t, id, c);
      } else if p - id <= Size(t.left) {
        ChildIdViaLeft(t, id, p, c);
      } else if p - id <= Size(t.left) + Size(t.right) {
        ChildIdViaRight(t, id, p, c);
      } else {
        ChildIdViaNext(t, id, p, c);
      }
    }
  }

  /** The case of `ChildIdAt` for the node numbered `id` itself. */
  lemma ChildIdAtRoot(t: Tree, id: int, c: int)
    requires t.Node?
    ensures ChildId(t, id, id, c) <==> SlotId(PreOrder(t)[0], id, c)
  {
    ChildIdRange(t.left, id + 1, id, c);
    ChildIdRange(t.right, id + 1 + Size(t.left), id, c);
    ChildIdRange(t.next, id + 1 + Size(t.left) + Size(t.right), id, c);
  }

  /** The cases of `ChildIdAt` for a node of `left`, of `right` and of
      `next`. */
  lemma {:induction false} ChildIdViaLeft(t: Tree, id: int, p: int, c: int)
    requires t.Node? && 0 < p - id <= Size(t.left)
    ensures ChildId(t, id, p, c) <==> SlotId(PreOrder(t)[p - id], p, c)
    decreases t, 0
  {
    var r, n := id + 1 + Size(t.left), id + 1 + Size(t.left) + Size(t.right);
    assert ChildId(t, id, p, c) == ChildId(t.left, id + 1, p, c) by {
      ChildIdRange(t.right, r, p, c);
      ChildIdRange(t.next, n, p, c);
    }
    PreOrderInLeft(t, p - id);
    ChildIdAt(t.left, id + 1, p, c);
    assert ChildId(t.left, id + 1, p, c) <==> SlotId(PreOrder(t.left)[p - id - 1], p, c);
  }

  lemma {:induction false} ChildIdViaRight(t: Tree, id: int, p: int, c: int)
    requires t.Node? && Size(t.left) < p - id <= Size(t.left) + Size(t.right)
    ensures ChildId(t, id, p, c) <==> SlotId(PreOrder(t)[p - id], p, c)
    decreases t, 0
  {
    var r, n := id + 1 + Size(t.left), id + 1 + Size(t.left) + Size(t.right);
    assert ChildId(t, id, p, c) == ChildId(t.right, r, p, c) by {
      ChildIdRange(t.left, id + 1, p, c);
      ChildIdRange(t.next, n, p, c);
    }
    PreOrderInRight(t, p - id, p - r);
    ChildIdAt(t.right, r, p, c);
    assert ChildId(t.right, r, p, c) <==> SlotId(PreOrder(t.right)[p - r], p, c);
  }

  lemma {:induction false} ChildIdViaNext(t: Tree, id: int, p: int, c: int)
    requires t.Node? && Size(t.left) + Size(t.right) < p - id < Size(t)
    ensures ChildId(t, id, p, c) <==> SlotId(PreOrder(t)[p - id], p, c)
    decreases t, 0
  {
    var r, n := id + 1 + Size(t.left), id + 1 + Size(t.left) + Size(t.right);
    assert ChildId(t, id, p, c) == ChildId(t.next, n, p, c) by {
      ChildIdRange(t.left, id + 1, p, c);
      ChildIdRange(t.right, r, p, c);
    }
    PreOrderInNext(t, p - id, p - n);
    ChildIdAt(t.next, n, p, c);
    assert ChildId(t.next, n, p, c) <==> SlotId(PreOrder(t.next)[p - n], p, c);
  }

  /** Numbering `t` from `id`, the node numbered `p` has a sibling numbered
      `c` exactly when `p` numbers a node of `t`, the node at `p - id` in the
      pre-order of `t`, that has a `next`, numbered `c`. */
  lemma {:induction false} SiblingIdAt(t: Tree, id: int, p: int, c: int)
    ensures SiblingId(t, id, p, c) <==> id <= p < id + Size(t) && NextId(PreOrder(t)[p - id], p, c)
    decreases t, 1
  {
    ChildIdRange(t, id, p, c);
    if id <= p < id + Size(t) {
      if p == id {
        SiblingIdAtRoot(t, id, c);
      } else if p - id <= Size(t.left) {
        SiblingIdViaLeft(t, id, p, c);
      } else if p - id <= Size(t.left) + Size(t.right) {
        SiblingIdViaRight(t, id, p, c);
      } else {
        SiblingIdViaNext(t, id, p, c);
      }
    }
  }

  /** The case of `SiblingIdAt` for the node numbered `id` itself. */
  lemma SiblingIdAtRoot(t: Tree, id: int, c: int)
    requires t.Node?
    ensures SiblingId(t, id, id, c) <==> NextId(PreOrder(t)[0], id, c)
  {
    ChildIdRange(t.left, id + 1, id, c);
    ChildIdRange(t.right, id + 1 + Size(t.left), id, c);
    ChildIdRange(t.next, id + 1 + Size(t.left) + Size(t.right), id, c);
  }

  /** The cases of `SiblingIdAt` for a node of `left`, of `right` and of
      `next`. */
  lemma {:induction false} SiblingIdViaLeft(t: Tree, id: int, p: int, c: int)
    requires t.Node? && 0 < p - id <= Size(t.left)
    ensures SiblingId(t, id, p, c) <==> NextId(PreOrder(t)[p - id], p, c)
    decreases t, 0
  {
    var r, n := id + 1 + Size(t.left), id + 1 + Size(t.left) + Size(t.right);
    assert SiblingId(t, id, p, c) == SiblingId(t.left, id + 1, p, c) by {
      ChildIdRange(t.right, r, p, c);
      ChildIdRange(t.next, n, p, c);
    }
    PreOrderInLeft(t, p - id);
    SiblingIdAt(t.left, id + 1, p, c);
    assert SiblingId(t.left, id + 1, p, c) <==> NextId(PreOrder(t.left)[p - id - 1], p, c);
  }

  lemma {:induction false} SiblingIdViaRight(t: Tree, id: int, p: int, c: int)
    requires t.Node? && Size(t.left) < p - id <= Size(t.left) + Size(t.right)
    ensures SiblingId(t, id, p, c) <==> NextId(PreOrder(t)[p - id], p, c)
    decreases t, 0
  {
    var r, n := id + 1 + Size(t.left), id + 1 + Size(t.left) + Size(t.right);
    assert SiblingId(t, id, p, c) == SiblingId(t.right, r, p, c) by {
      ChildIdRange(t.left, id + 1, p, c);
      ChildIdRange(t.next, n, p, c);
    }
    PreOrderInRight(t, p - id, p - r);
    SiblingIdAt(t.right, r, p, c);
    assert SiblingId(t.right, r, p, c) <==> NextId(PreOrder(t.right)[p - r], p, c);
  }

  lemma {:induction false} SiblingIdViaNext(t: Tree, id: int, p: int, c: int)
    requires t.Node? && Size(t.left) + Size(t.right) < p - id < Size(t)
    ensures SiblingId(t, id, p, c) <==> NextId(PreOrder(t)[p - id], p, c)
    decreases t, 0
  {
    var r, n := id + 1 + Size(t.left), id + 1 + Size(t.left) + Size(t.right);
    assert SiblingId(t, id, p, c) == SiblingId(t.next, n, p, c) by {
      ChildIdRange(t.left, id + 1, p, c);
      ChildIdRange(t.right, r, p, c);
    }
    PreOrderInNext(t, p - id, p - n);
    SiblingIdAt(t.next, n, p, c);
    assert SiblingId(t.next, n, p, c) <==> NextId(PreOrder(t.next)[p - n], p, c);
  }

  /** `write_node_to_dot`, numbering `t` from `id`, writes an edge from `p`
      to `c` exactly when `p` numbers a node of `t` and `c` numbers one of
      that node's filled slots; and a `rank=same` line for `p` and `c`
      exactly when `c` numbers that node's `next`. */
  lemma JoinsFollowPreOrder(t: Tree, id: nat, p: nat, c: nat)
    ensures Edge(p, c) in NodeLines(t, id).lines
      <==> id <= p < id + Size(t) && SlotId(PreOrder(t)[p - id], p, c)
    ensures SameRank(p, c) in NodeLines(t, id).lines
      <==> id <= p < id + Size(t) && NextId(PreOrder(t)[p - id], p, c)
  {
    NodeLinesEdges(t, id, p, c);
    ChildIdAt(t, id, p, c);
    NodeLinesSameRanks(t, id, p, c);
    SiblingIdAt(t, id, p, c);
  }

  /** Every edge goes from a node to one of its own children or to its
      sibling, both named by their place in the pre-order; every
      `rank=same` line pairs a node with its sibling. */
  lemma EdgeJoinsParentToChild(t: Tree, id: nat, p: nat, c: nat)
    requires Edge(p, c) in NodeLines(t, id).lines
    ensures id <= p < c < id + Size(t)
    ensures PreOrder(t)[c - id] in {PreOrder(t)[p - id].left, PreOrder(t)[p - id].right, PreOrder(t)[p - id].next}
  {
    JoinsFollowPreOrder(t, id, p, c);
    PreOrderPositions(t, 0, p - id);
    SlotOfPlaced(PreOrder(t), p - id, id, c);
  }

  lemma SameRankJoinsSiblings(t: Tree, id: nat, p: nat, c: nat)
    requires SameRank(p, c) in NodeLines(t, id).lines
    ensures id <= p < c < id + Size(t)
    ensures PreOrder(t)[c - id] == PreOrder(t)[p - id].next
  {
    JoinsFollowPreOrder(t, id, p, c);
    PreOrderPositions(t, 0, p - id);
    NextOfPlaced(PreOrder(t), p - id, id, c);
  }

  /** In a run of nodes where the node at `k` has its slots placed after it,
      the id of a filled slot, numbering the run from `id`, is that of the
      slot's own node. */
  lemma SlotOfPlaced(nodes: seq<Tree>, k: nat, id: nat, c: int)
    requires NodePlaced(nodes, k) && SlotId(nodes[k], id + k, c)
    ensures id + k < c < id + |nodes|
    ensures nodes[c - id] in {nodes[k].left, nodes[k].right, nodes[k].next}
  {
    var node := nodes[k];
    if node.left.Node? && c == id + k + 1 {
      assert nodes[c - id] == node.left;
    } else if node.right.Node? && c == id + k + 1 + Size(node.left) {
      assert nodes[c - id] == node.right;
    } else {
      assert nodes[c - id] == node.next;
    }
  }

  lemma NextOfPlaced(nodes: seq<Tree>, k: nat, id: nat, c: int)
    requires NodePlaced(nodes, k) && NextId(nodes[k], id + k, c)
    ensures id + k < c < id + |nodes|
    ensures nodes[c - id] == nodes[k].next
  {
  }

  /** A line is among four runs of lines put together when it is in one of them. */
  lemma InFourParts(x: DotLine, a: seq<DotLine>, b: seq<DotLine>, c: seq<DotLine>, d: seq<DotLine>)
    ensures x in a + b + c + d <==> x in a || x in b || x in c || x in d
  {
  }

  /** The two pieces of state `write_node_to_dot` works on: the counter behind
      `int* id` and the text written so far to the output stream. */
  class DotWriter {
    var nextId: nat
    var out: string

    constructor ()
      ensures nextId == 0 && out == ""
    {
      nextId := 0;
      out := "";
    }

    /** `fprintf` to the stream. */
    method Write(text: string)
      modifies this
      ensures out == old(out) + text && nextId == old(nextId)
    {
      out := out + text;
    }

    /** `write_edge_to_dot`. */
    method WriteEdge(from: nat, to: nat)
      modifies this
      ensures out == old(out) + Render(Edge(from, to)) && nextId == old(nextId)
    {
      Write("    node" + NatToString(from) + " -> node" + NatToString(to) + ";\n");
    }

    /** The four fixed lines that open the file. */
    method WriteHeader()
      modifies this
      ensures out == old(out) + Header && nextId == old(nextId)
    {
      Write("digraph AST {\n");
      Write("    node [fontname=\"Arial\"];\n");
      Write("    edge [fontname=\"Arial\"];\n");
      Write("    rankdir=TB;\n");
      AssociativeFour(old(out), "digraph AST {\n", "    node [fontname=\"Arial\"];\n", "    edge [fontname=\"Arial\"];\n", "    rankdir=TB;\n");
    }

    /** The `rank=same` line that keeps a node beside its sibling. */
    method WriteSameRank(first: nat, second: nat)
      modifies this
      ensures out == old(out) + Render(SameRank(first, second)) && nextId == old(nextId)
    {
      Write("    {rank=same; node" + NatToString(first) + "; node" + NatToString(second) + ";}\n");
    }

    /** The declaration line of a node, with its type name, value and colour. */
    method WriteDeclaration(id: nat, kind: int, value: Option<string>)
      modifies this
      ensures out == old(out) + Render(NodeDecl(id, kind, Label(value))) && nextId == old(nextId)
    {
      Write("    node" + NatToString(id) + " [label=\"" + TypeName(kind) + "\\n" + (if value.Some? then value.value else "")
        + "\", shape=box, style=filled, fillcolor=\"" + NodeColor(kind) + "\"];\n");
    }

    /** `write_node_to_dot`: writes the lines of `t` numbered from the
        counter, and leaves the counter where the numbering ends. */
    method WriteNode(t: Tree)
      modifies this
      ensures nextId == NodeLines(t, old(nextId)).next
      ensures out == old(out) + RenderAll(NodeLines(t, old(nextId)).lines)
      decreases t, 1
    {
      if t.Nil? {
        return;
      }
      ghost var before := out;
      var currentId := nextId;
      nextId := nextId + 1;
      var decl := NodeDecl(currentId, t.kind, Label(t.value));
      WriteDeclaration(currentId, t.kind, t.value);
      RenderAllSingle(decl);
      ghost var l := SlotLines(currentId, t.left, currentId + 1, false);
      WriteSlot(currentId, t.left, false);
      ghost var r := SlotLines(currentId, t.right, l.next, false);
      WriteSlot(currentId, t.right, false);
      ghost var n := SlotLines(currentId, t.next, r.next, true);
      WriteSlot(currentId, t.next, true);
      RenderAllOfFour(NodeLines(t, currentId).lines, [decl], l.lines, r.lines, n.lines);
      AssociativeFour(before, Render(decl), RenderAll(l.lines), RenderAll(r.lines), RenderAll(n.lines));
    }

    /** One of the three `if (node->...)` blocks of `write_node_to_dot`:
        read the counter, write the child, then the edge to the id read, and
        for the sibling the `rank=same` line. */
    method WriteSlot(parent: nat, child: Tree, sameRank: bool)
      modifies this
      ensures nextId == SlotLines(parent, child, old(nextId), sameRank).next
      ensures out == old(out) + RenderAll(SlotLines(parent, child, old(nextId), sameRank).lines)
      decreases child, 2
    {
      if child.Nil? {
        return;
      }
      var childId := nextId;
      ghost var c := NodeLines(child, childId);
      ghost var links := Links(parent, childId, sameRank);
      assert SlotLines(parent, child, childId, sameRank) == Numbered(c.lines + links, c.next);
      WriteNode(child);
      ghost var afterChild := out;
      WriteEdge(parent, childId);
      if sameRank {
        WriteSameRank(parent, childId);
        Associative(afterChild, Render(Edge(parent, childId)), Render(SameRank(parent, childId)));
      }
      RenderLinks(parent, childId, sameRank);
      RenderAllConcat(c.lines, links);
      Associative(old(out), RenderAll(c.lines), RenderAll(links));
    }
  }

  /** `generate_dot` without the file: the text it writes. */
  method GenerateDot(root: Tree) returns (text: string)
    ensures text == DotText(root)
  {
    var writer := new DotWriter();
    writer.WriteHeader();
    assert writer.out == Header;
    writer.WriteNode(root);
    writer.Write("}\n");
    text := writer.out;
  }
}
