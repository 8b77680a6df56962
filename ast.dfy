/** The syntax tree of the compiler: one node type with a kind tag, an
    optional text payload and three owned slots `left`, `right`, `next`.
    `Nil` stands for the C null pointer, so a slot that is "absent" is `Nil`
    and every operation that accepts a null node says what it does with `Nil`.
    The in-place helpers (`add_child`, `add_sibling`, `make_for_node`) are
    modelled as functions that return the rebuilt tree. */
module Ast {
  import opened Decimal

  datatype Option<T> = None | Some(value: T)

  // The kind tags, in the order of the C enumeration (NODE_INT .. NODE_TYPE).
  const KindInt := 0
  const KindString := 1
  const KindVar := 2
  const KindDecl := 3
  const KindBinOp := 4
  const KindUnary := 5
  const KindFuncCall := 6
  const KindFuncDef := 7
  const KindIf := 8
  const KindFor := 9
  const KindReturn := 10
  const KindExprList := 11
  const KindSeq := 12
  const KindType := 13

  /** A tag inside the enumeration. The kind is kept as an integer because the
      C field can hold any `int`, and the validator and the printers test for that. */
  predicate KnownKind(k: int) {
    KindInt <= k <= KindType
  }

  datatype Tree =
    | Nil
    | Node(kind: int, value: Option<string>, left: Tree, right: Tree, next: Tree)

  /** Number of nodes reachable through `left`, `right` and `next`. */
  function Size(t: Tree): (n: nat)
    ensures t.Node? <==> n > 0
  {
    if t.Nil? then 0 else 1 + Size(t.left) + Size(t.right) + Size(t.next)
  }

  /** The reachable nodes in the order `print_ast` visits them: the node, then
      `left`, then `right`, then the `next` sibling. Each entry is the subtree
      rooted at that node. */
  function PreOrder(t: Tree): (nodes: seq<Tree>)
    ensures |nodes| == Size(t)
    ensures t.Node? ==> nodes[0] == t
    ensures forall i :: 0 <= i < |nodes| ==> nodes[i].Node?
  {
    if t.Nil? then [] else [t] + PreOrder(t.left) + PreOrder(t.right) + PreOrder(t.next)
  }

  /** The level `print_ast` prints each node at, listed in the order of
      `PreOrder`: children one level deeper than their parent, a sibling at
      its own level. */
  function Levels(t: Tree, indent: int): (levels: seq<int>)
    ensures |levels| == Size(t)
    ensures t.Node? ==> levels[0] == indent
  {
    if t.Nil? then [] else [indent] + Levels(t.left, indent + 1) + Levels(t.right, indent + 1) + Levels(t.next, indent)
  }

  /** The entry at position `i` of a pre-order `nodes`, printed at the levels
      `levels`, sits where `print_ast` puts it: its `left` right after it,
      its `right` after the whole of `left`, its `next` after the whole of
      `right`; the children one level deeper, the sibling at its level. */
  predicate Placed(nodes: seq<Tree>, levels: seq<int>, i: nat) {
    NodePlaced(nodes, i) && LevelPlaced(nodes, levels, i)
  }

  predicate NodePlaced(nodes: seq<Tree>, i: nat) {
    i < |nodes| &&
    var node := nodes[i];
    node.Node? && i + Size(node) <= |nodes|
    && (node.left.Node? ==> nodes[i + 1] == node.left)
    && (node.right.Node? ==> nodes[i + 1 + Size(node.left)] == node.right)
    && (node.next.Node? ==> nodes[i + 1 + Size(node.left) + Size(node.right)] == node.next)
  }

  predicate LevelPlaced(nodes: seq<Tree>, levels: seq<int>, i: nat) {
    |levels| == |nodes| && i < |nodes| &&
    var node := nodes[i];
    node.Node? && i + Size(node) <= |nodes|
    && (node.left.Node? ==> levels[i + 1] == levels[i] + 1)
    && (node.right.Node? ==> levels[i + 1 + Size(node.left)] == levels[i] + 1)
    && (node.next.Node? ==> levels[i + 1 + Size(node.left) + Size(node.right)] == levels[i])
  }

  /** A placement in the front part of a concatenation holds in the whole. */
  lemma NodePlacedLeft(front: seq<Tree>, back: seq<Tree>, i: nat)
    requires NodePlaced(front, i)
    ensures NodePlaced(front + back, i) && (front + back)[i] == front[i]
  {
  }

  /** A placement in the back part of a concatenation holds in the whole,
      shifted by the length of the front part. */
  lemma NodePlacedRight(front: seq<Tree>, back: seq<Tree>, j: nat, k: nat)
    requires NodePlaced(back, j) && k == |front| + j
    ensures NodePlaced(front + back, k) && (front + back)[k] == back[j]
  {
  }

  lemma LevelPlacedLeft(front: seq<Tree>, back: seq<Tree>, lf: seq<int>, lb: seq<int>, i: nat)
    requires LevelPlaced(front, lf, i) && |back| == |lb|
    ensures LevelPlaced(front + back, lf + lb, i)
  {
    assert (front + back)[i] == front[i];
  }

  lemma LevelPlacedRight(front: seq<Tree>, back: seq<Tree>, lf: seq<int>, lb: seq<int>, j: nat, k: nat)
    requires LevelPlaced(back, lb, j) && |front| == |lf| && k == |front| + j
    ensures LevelPlaced(front + back, lf + lb, k)
  {
    assert (front + back)[k] == back[j];
  }

  lemma PlacedLeft(front: seq<Tree>, back: seq<Tree>, lf: seq<int>, lb: seq<int>, i: nat)
    requires Placed(front, lf, i) && |back| == |lb|
    ensures Placed(front + back, lf + lb, i)
  {
    NodePlacedLeft(front, back, i);
    LevelPlacedLeft(front, back, lf, lb, i);
  }

  lemma PlacedRight(front: seq<Tree>, back: seq<Tree>, lf: seq<int>, lb: seq<int>, j: nat, k: nat)
    requires Placed(back, lb, j) && |front| == |lf| && k == |front| + j
    ensures Placed(front + back, lf + lb, k)
  {
    NodePlacedRight(front, back, j, k);
    LevelPlacedRight(front, back, lf, lb, j, k);
  }

  /** A node heads its own pre-order: its `left`, `right` and `next` start
      right after the parts before them. */
  lemma PlacedRoot(nodes: seq<Tree>, t: Tree, l: seq<Tree>, r: seq<Tree>, n: seq<Tree>,
                   levels: seq<int>, indent: int, ll: seq<int>, lr: seq<int>, ln: seq<int>)
    requires nodes == [t] + l + r + n && levels == [indent] + ll + lr + ln
    requires t.Node?
    requires |l| == |ll| == Size(t.left) && |r| == |lr| == Size(t.right) && |n| == |ln| == Size(t.next)
    requires t.left.Node? ==> l[0] == t.left && ll[0] == indent + 1
    requires t.right.Node? ==> r[0] == t.right && lr[0] == indent + 1
    requires t.next.Node? ==> n[0] == t.next && ln[0] == indent
    ensures Placed(nodes, levels, 0)
  {
    assert nodes[0] == t && levels[0] == indent;
    if t.left.Node? {
      assert nodes[1] == l[0] && levels[1] == ll[0];
    }
    if t.right.Node? {
      assert nodes[1 + |l|] == r[0] && levels[1 + |l|] == lr[0];
    }
    if t.next.Node? {
      assert nodes[1 + |l| + |r|] == n[0] && levels[1 + |l| + |r|] == ln[0];
    }
  }

  /** A placement inside the pre-order of `left`, `right` or `next` holds
      in the pre-order of the node. */
  lemma PlacedInChild(nodes: seq<Tree>, t: Tree, l: seq<Tree>, r: seq<Tree>, n: seq<Tree>,
                      levels: seq<int>, indent: int, ll: seq<int>, lr: seq<int>, ln: seq<int>, i: nat)
    requires nodes == [t] + l + r + n && levels == [indent] + ll + lr + ln
    requires |l| == |ll| && |r| == |lr| && |n| == |ln|
    ensures 0 < i <= |l| && Placed(l, ll, i - 1) ==> Placed(nodes, levels, i)
    ensures |l| < i <= |l| + |r| && Placed(r, lr, i - 1 - |l|) ==> Placed(nodes, levels, i)
    ensures |l| + |r| < i && Placed(n, ln, i - 1 - |l| - |r|) ==> Placed(nodes, levels, i)
  {
    if i == 0 {
    } else if i <= |l| {
      if Placed(l, ll, i - 1) {
        PlacedRight([t], l, [indent], ll, i - 1, i);
        PlacedLeft([t] + l, r, [indent] + ll, lr, i);
        PlacedLeft([t] + l + r, n, [indent] + ll + lr, ln, i);
      }
    } else if i <= |l| + |r| {
      if Placed(r, lr, i - 1 - |l|) {
        PlacedRight([t] + l, r, [indent] + ll, lr, i - 1 - |l|, i);
        PlacedLeft([t] + l + r, n, [indent] + ll + lr, ln, i);
      }
    } else if Placed(n, ln, i - 1 - |l| - |r|) {
      PlacedRight([t] + l + r, n, [indent] + ll + lr, ln, i - 1 - |l| - |r|, i);
    }
  }

  /** `print_ast` visits a node's `left` right after the node, its `right`
      after the whole of `left`, and its `next` after the whole of `right`;
      it prints the children one level deeper and the sibling at the node's
      own level. */
  lemma {:induction false} PreOrderPositions(t: Tree, indent: int, i: nat)
    requires i < Size(t)
    ensures Placed(PreOrder(t), Levels(t, indent), i)
    decreases t, 1
  {
    if i == 0 {
      PlacedRoot(PreOrder(t), t, PreOrder(t.left), PreOrder(t.right), PreOrder(t.next),
                 Levels(t, indent), indent, Levels(t.left, indent + 1), Levels(t.right, indent + 1), Levels(t.next, indent));
    } else if i <= Size(t.left) {
      PositionsViaLeft(t, indent, i);
    } else if i <= Size(t.left) + Size(t.right) {
      PositionsViaRight(t, indent, i);
    } else {
      PositionsViaNext(t, indent, i);
    }
  }

  /** The cases of `PreOrderPositions` for a position inside the pre-order
      of `left`, of `right` and of `next`. */
  lemma {:induction false} PositionsViaLeft(t: Tree, indent: int, i: nat)
    requires t.Node? && 0 < i <= Size(t.left)
    ensures Placed(PreOrder(t), Levels(t, indent), i)
    decreases t, 0
  {
    PreOrderPositions(t.left, indent + 1, i - 1);
    PlacedInChild(PreOrder(t), t, PreOrder(t.left), PreOrder(t.right), PreOrder(t.next),
                  Levels(t, indent), indent, Levels(t.left, indent + 1), Levels(t.right, indent + 1), Levels(t.next, indent), i);
  }

  lemma {:induction false} PositionsViaRight(t: Tree, indent: int, i: nat)
    requires t.Node? && Size(t.left) < i <= Size(t.left) + Size(t.right)
    ensures Placed(PreOrder(t), Levels(t, indent), i)
    decreases t, 0
  {
    PreOrderPositions(t.right, indent + 1, i - 1 - Size(t.left));
    PlacedInChild(PreOrder(t), t, PreOrder(t.left), PreOrder(t.right), PreOrder(t.next),
                  Levels(t, indent), indent, Levels(t.left, indent + 1), Levels(t.right, indent + 1), Levels(t.next, indent), i);
  }

  lemma {:induction false} PositionsViaNext(t: Tree, indent: int, i: nat)
    requires t.Node? && Size(t.left) + Size(t.right) < i < Size(t)
    ensures Placed(PreOrder(t), Levels(t, indent), i)
    decreases t, 0
  {
    PreOrderPositions(t.next, indent, i - 1 - Size(t.left) - Size(t.right));
    PlacedInChild(PreOrder(t), t, PreOrder(t.left), PreOrder(t.right), PreOrder(t.next),
                  Levels(t, indent), indent, Levels(t.left, indent + 1), Levels(t.right, indent + 1), Levels(t.next, indent), i);
  }

  /** The nodes in the order `free_ast` releases them: everything below a node
      (left, right, then the sibling chain) before the node itself. */
  function FreeOrder(t: Tree): seq<Tree> {
    if t.Nil? then [] else FreeOrder(t.left) + FreeOrder(t.right) + FreeOrder(t.next) + [t]
  }

  /** `free_ast` releases exactly the nodes `print_ast` visits, each once. */
  lemma {:induction false} FreeOrderVisitsEachNodeOnce(t: Tree)
    ensures multiset(FreeOrder(t)) == multiset(PreOrder(t))
    ensures |FreeOrder(t)| == Size(t)
  {
    if t.Node? {
      FreeOrderVisitsEachNodeOnce(t.left);
      FreeOrderVisitsEachNodeOnce(t.right);
      FreeOrderVisitsEachNodeOnce(t.next);
      SameNodesRearranged(FreeOrder(t.left), FreeOrder(t.right), FreeOrder(t.next),
                          PreOrder(t.left), PreOrder(t.right), PreOrder(t.next), t);
    }
  }

  /** Three runs with the same elements as three others, and one more node
      placed last rather than first, give the same elements. */
  lemma SameNodesRearranged(l: seq<Tree>, r: seq<Tree>, n: seq<Tree>, l': seq<Tree>, r': seq<Tree>, n': seq<Tree>, t: Tree)
    requires multiset(l) == multiset(l') && multiset(r) == multiset(r') && multiset(n) == multiset(n')
    ensures multiset(l + r + n + [t]) == multiset([t] + l' + r' + n')
  {
    assert multiset(l + r + n + [t]) == multiset(l) + multiset(r) + multiset(n) + multiset{t};
    assert multiset([t] + l' + r' + n') == multiset{t} + multiset(l') + multiset(r') + multiset(n');
  }

  /** The sibling chain that starts at `t`, one entry per node, each with its
      `next` link cleared (its own `left` and `right` are kept). */
  function Chain(t: Tree): (cs: seq<Tree>)
    ensures forall i :: 0 <= i < |cs| ==> cs[i].Node? && cs[i].next.Nil?
    ensures t.Nil? <==> cs == []
    ensures t.Node? ==> cs[0] == t.(next := Nil)
  {
    if t.Nil? then [] else [t.(next := Nil)] + Chain(t.next)
  }

  predicate IsChainEntries(cs: seq<Tree>) {
    forall i :: 0 <= i < |cs| ==> cs[i].Node? && cs[i].next.Nil?
  }

  /** Links a list of single nodes into a sibling chain; the inverse of `Chain`. */
  function Link(cs: seq<Tree>): Tree
    requires IsChainEntries(cs)
  {
    if cs == [] then Nil else cs[0].(next := Link(cs[1..]))
  }

  lemma {:induction false} LinkChain(t: Tree)
    ensures Link(Chain(t)) == t
  {
    if t.Node? {
      LinkChain(t.next);
      assert Chain(t)[1..] == Chain(t.next);
    }
  }

  lemma {:induction false} ChainLink(cs: seq<Tree>)
    requires IsChainEntries(cs)
    ensures Chain(Link(cs)) == cs
  {
    if cs != [] {
      ChainLink(cs[1..]);
    }
  }

  /** `create_node`: a single node with the given kind and a copy of the text,
      and no children and no sibling. */
  function CreateNode(kind: int, value: Option<string>): (r: Tree)
    ensures r.Node? && r.kind == kind && r.value == value
    ensures Size(r) == 1 && Chain(r) == [r]
  {
    Node(kind, value, Nil, Nil, Nil)
  }

  /** `add_sibling`: walk to the last node of `node`'s chain and hang `sibling`
      there. A null argument leaves `node` as it is. */
  function AddSibling(node: Tree, sibling: Tree): (r: Tree)
    ensures node.Nil? || sibling.Nil? ==> r == node
    ensures node.Node? ==> Chain(r) == Chain(node) + Chain(sibling)
    ensures Size(r) == Size(node) + (if node.Nil? then 0 else Size(sibling))
  {
    if node.Nil? || sibling.Nil? then node
    else if node.next.Nil? then node.(next := sibling)
    else node.(next := AddSibling(node.next, sibling))
  }

  /** `add_child`: the first free slot of `left` and `right` takes the child;
      when both are taken, the child goes at the end of `right`'s chain. */
  function AddChild(parent: Tree, child: Tree): (r: Tree)
    ensures parent.Nil? || child.Nil? ==> r == parent
    ensures parent.Node? ==> r.Node? && r.kind == parent.kind && r.value == parent.value && r.next == parent.next
    ensures parent.Node? && child.Node? && parent.left.Nil? ==> r.left == child && r.right == parent.right
    ensures parent.Node? && child.Node? && parent.left.Node? && parent.right.Nil? ==> r.left == parent.left && r.right == child
    ensures parent.Node? && child.Node? && parent.left.Node? && parent.right.Node? ==>
      r.left == parent.left && Chain(r.right) == Chain(parent.right) + Chain(child)
  {
    if parent.Nil? || child.Nil? then parent
    else if parent.left.Nil? then parent.(left := child)
    else if parent.right.Nil? then parent.(right := child)
    else parent.(right := AddSibling(parent.right, child))
  }

  /** The children that `add_child` has attached, in order: `left`, then the
      chain that starts at `right`. */
  function Children(t: Tree): seq<Tree>
    requires t.Node?
  {
    (if t.left.Nil? then [] else [t.left]) + Chain(t.right)
  }

  /** Attaching a single node with `add_child` appends it to the children,
      as long as `right` is only ever filled after `left`. */
  lemma AddChildAppends(parent: Tree, child: Tree)
    requires parent.Node? && child.Node? && child.next.Nil?
    requires parent.left.Nil? ==> parent.right.Nil?
    ensures Children(AddChild(parent, child)) == Children(parent) + [child]
    ensures var r := AddChild(parent, child); r.left.Nil? ==> r.right.Nil?
  {
    if parent.left.Node? && parent.right.Node? {
      assert Chain(child) == [child];
    }
  }

  /** `make_int_node`: an `Int` node whose text is the `%d` rendering of the value. */
  function MakeInt(n: int): (r: Tree)
    ensures r.Node? && r.kind == KindInt && r.value.Some? && Size(r) == 1
    ensures Atoi(r.value.value) == n
    ensures PrintedDecimal(r.value.value)
  {
    AtoiIntToString(n);
    CreateNode(KindInt, Some(IntToString(n)))
  }

  function MakeString(text: Option<string>): (r: Tree)
    ensures r == CreateNode(KindString, text)
  {
    CreateNode(KindString, text)
  }

  function MakeVar(name: Option<string>): (r: Tree)
    ensures r == CreateNode(KindVar, name)
  {
    CreateNode(KindVar, name)
  }

  /** `make_binop_node`: the operator as one-character text, operands in `left` and `right`. */
  function MakeBinOp(op: char, lhs: Tree, rhs: Tree): (r: Tree)
    ensures r.Node? && r.kind == KindBinOp && r.value == Some([op]) && r.left == lhs && r.right == rhs && r.next.Nil?
  {
    Node(KindBinOp, Some([op]), lhs, rhs, Nil)
  }

  function MakeUnary(op: Option<string>, operand: Tree): (r: Tree)
    ensures r.Node? && r.kind == KindUnary && r.value == op && r.left == operand && r.right.Nil? && r.next.Nil?
  {
    Node(KindUnary, op, operand, Nil, Nil)
  }

  function MakeDecl(name: Option<string>, init: Tree): (r: Tree)
    ensures r.Node? && r.kind == KindDecl && r.value == name && r.left == init && r.right.Nil? && r.next.Nil?
  {
    Node(KindDecl, name, init, Nil, Nil)
  }

  function MakeFuncCall(name: Option<string>, args: Tree): (r: Tree)
    ensures r.Node? && r.kind == KindFuncCall && r.value == name && r.left == args && r.right.Nil? && r.next.Nil?
  {
    Node(KindFuncCall, name, args, Nil, Nil)
  }

  function MakeFunction(name: Option<string>, body: Tree): (r: Tree)
    ensures r.Node? && r.kind == KindFuncDef && r.value == name && r.left == body && r.right.Nil? && r.next.Nil?
  {
    Node(KindFuncDef, name, body, Nil, Nil)
  }

  function MakeIf(cond: Tree, thenBody: Tree): (r: Tree)
    ensures r.Node? && r.kind == KindIf && r.value.None? && r.left == cond && r.right == thenBody && r.next.Nil?
  {
    Node(KindIf, None, cond, thenBody, Nil)
  }

  /** `make_for_node`: `left` holds the init and `right` the condition; the
      update and then the body are hung on the condition's sibling chain. With
      no condition neither is attached, and with no update the body is not. */
  function MakeFor(init: Tree, cond: Tree, update: Tree, body: Tree): (r: Tree)
    ensures r.Node? && r.kind == KindFor && r.value.None? && r.left == init && r.next.Nil?
    ensures cond.Nil? ==> r.right.Nil?
    ensures update.Nil? ==> r.right == cond
    ensures cond.Node? && update.Node? ==> Chain(r.right) == Chain(cond) + Chain(update) + Chain(body)
  {
    var right :=
      if cond.Nil? then Nil
      else if update.Nil? then cond
      else AddSibling(AddSibling(cond, update), body);
    Node(KindFor, None, init, right, Nil)
  }

  /** With single-node parts, the update is the condition's `next` and the body
      the update's `next`; the `For` node itself has no third slot. */
  lemma ForLayout(init: Tree, cond: Tree, update: Tree, body: Tree)
    requires cond.Node? && cond.next.Nil? && update.Node? && update.next.Nil?
    ensures var r := MakeFor(init, cond, update, body);
      r.right == cond.(next := update.(next := body))
  {
    assert AddSibling(cond, update) == cond.(next := update);
    assert body.Node? ==> AddSibling(update, body) == update.(next := body);
  }

  function MakeReturn(expr: Tree): (r: Tree)
    ensures r.Node? && r.kind == KindReturn && r.value.None? && r.left == expr && r.right.Nil? && r.next.Nil?
  {
    Node(KindReturn, None, expr, Nil, Nil)
  }

  function MakeExprList(expr: Tree, rest: Tree): (r: Tree)
    ensures r.Node? && r.kind == KindExprList && r.value.None? && r.left == expr && r.right.Nil? && r.next == rest
  {
    Node(KindExprList, None, expr, Nil, rest)
  }

  function MakeSeq(first: Tree, second: Tree): (r: Tree)
    ensures r.Node? && r.kind == KindSeq && r.value.None? && r.left == first && r.right == second && r.next.Nil?
  {
    Node(KindSeq, None, first, second, Nil)
  }

  function MakeType(name: Option<string>): (r: Tree)
    ensures r == CreateNode(KindType, name)
  {
    CreateNode(KindType, name)
  }

  /** The names `get_node_type_str` gives the kinds, indexed by kind. */
  const KindNames: seq<string> := ["INT", "STRING", "VAR", "DECLARATION", "BINARY_EXPR", "UNARY_EXPR",
    "FUNCTION_CALL", "FUNCTION_DEF", "IF_STMT", "FOR_STMT", "RETURN_STMT", "EXPR_LIST", "SEQUENCE", "TYPE"]

  /** `get_node_type_str`: the display name of a kind, "UNKNOWN" outside the enumeration. */
  function TypeName(k: int): (name: string)
    ensures name == "UNKNOWN" <==> !KnownKind(k)
    ensures '\n' !in name
  {
    if 0 <= k < |KindNames| then KindNames[k] else "UNKNOWN"
  }

  /** Every kind of the enumeration has its own name. */
  lemma TypeNamesDistinct(a: int, b: int)
    requires KnownKind(a) && KnownKind(b) && a != b
    ensures TypeName(a) != TypeName(b)
  {
  }

  /** `n` copies of `unit` (none when `n` is not positive), as the indentation loops write them. */
  function Repeat(unit: string, n: int): (s: string)
    ensures |s| == if n <= 0 then 0 else |unit| * n
    ensures forall i :: 0 <= i < |s| ==> s[i] in unit
  {
    if n <= 0 then "" else unit + Repeat(unit, n - 1)
  }

  /** True when no node reachable from `t` carries text containing `c`. */
  predicate NoCharInValues(t: Tree, c: char) {
    t.Nil? || ((t.value.None? || c !in t.value.value)
               && NoCharInValues(t.left, c) && NoCharInValues(t.right, c) && NoCharInValues(t.next, c))
  }

  /** Number of times `c` occurs in `s`. */
  function Occurrences(s: string, c: char): (k: nat)
  {
    if s == [] then 0 else (if s[0] == c then 1 else 0) + Occurrences(s[1..], c)
  }

  lemma {:induction false} OccurrencesAbsent(s: string, c: char)
    requires c !in s
    ensures Occurrences(s, c) == 0
  {
    if s != [] {
      OccurrencesAbsent(s[1..], c);
    }
  }

  lemma {:induction false} OccurrencesConcat(a: string, b: string, c: char)
    ensures Occurrences(a + b, c) == Occurrences(a, c) + Occurrences(b, c)
  {
    if a == [] {
      assert a + b == b;
    } else {
      assert (a + b)[1..] == a[1..] + b;
      OccurrencesConcat(a[1..], b, c);
    }
  }

  /** The line `print_ast` writes for one node: the indentation, the kind name,
      the text in parentheses when there is one, and a line break. */
  function NodeLine(t: Tree, indent: int): (line: string)
    requires t.Node?
    ensures t.value.None? || '\n' !in t.value.value ==> Occurrences(line, '\n') == 1
  {
    var pad := Repeat("  ", indent);
    var annotation := if t.value.Some? then " (" + t.value.value + ")" else "";
    var head := pad + TypeName(t.kind) + annotation;
    assert '\n' !in head ==> Occurrences(head + "\n", '\n') == 1 by {
      OccurrencesConcat(head, "\n", '\n');
      if '\n' !in head {
        OccurrencesAbsent(head, '\n');
      }
    }
    head + "\n"
  }

  /** The lines `print_ast` prints, in the order it prints them: the node's
      own line, then `left` and `right` one level deeper, then the `next`
      sibling at the same level. */
  function AstLines(t: Tree, indent: int): (lines: seq<string>)
    ensures |lines| == Size(t)
  {
    if t.Nil? then []
    else [NodeLine(t, indent)] + AstLines(t.left, indent + 1) + AstLines(t.right, indent + 1) + AstLines(t.next, indent)
  }

  /** The entry at `i` of the front part of a concatenation. */
  lemma AtFront<T>(front: seq<T>, back: seq<T>, i: nat)
    requires i < |front|
    ensures (front + back)[i] == front[i]
  {
  }

  /** The entry at `j` of the back part of a concatenation, at `k` in the whole. */
  lemma AtBack<T>(front: seq<T>, back: seq<T>, j: nat, k: nat)
    requires j < |back| && k == |front| + j
    ensures (front + back)[k] == back[j]
  {
  }

  /** The nodes of the pre-order after the root: first those of `left`, then
      those of `right`, then those of `next`. */
  lemma PreOrderInLeft(t: Tree, k: nat)
    requires t.Node? && 0 < k <= Size(t.left)
    ensures PreOrder(t)[k] == PreOrder(t.left)[k - 1]
  {
    var l := PreOrder(t.left);
    AtBack([t], l, k - 1, k);
    AtFront([t] + l, PreOrder(t.right), k);
    AtFront([t] + l + PreOrder(t.right), PreOrder(t.next), k);
  }

  lemma PreOrderInRight(t: Tree, k: nat, j: nat)
    requires t.Node? && j < Size(t.right) && k == 1 + Size(t.left) + j
    ensures PreOrder(t)[k] == PreOrder(t.right)[j]
  {
    var r := PreOrder(t.right);
    AtBack([t] + PreOrder(t.left), r, j, k);
    AtFront([t] + PreOrder(t.left) + r, PreOrder(t.next), k);
  }

  lemma PreOrderInNext(t: Tree, k: nat, j: nat)
    requires t.Node? && j < Size(t.next) && k == 1 + Size(t.left) + Size(t.right) + j
    ensures PreOrder(t)[k] == PreOrder(t.next)[j]
  {
    AtBack([t] + PreOrder(t.left) + PreOrder(t.right), PreOrder(t.next), j, k);
  }

  /** The `k`-th line `print_ast` prints is the line of the `k`-th node of
      the pre-order, at that node's level. */
  lemma {:induction false} AstLineAt(t: Tree, indent: int, k: nat)
    requires k < Size(t)
    ensures AstLines(t, indent)[k] == NodeLine(PreOrder(t)[k], Levels(t, indent)[k])
    decreases t, 1
  {
    if k == 0 {
    } else if k <= Size(t.left) {
      AstLineViaLeft(t, indent, k);
    } else if k <= Size(t.left) + Size(t.right) {
      AstLineViaRight(t, indent, k);
    } else {
      AstLineViaNext(t, indent, k);
    }
  }

  /** The cases of `AstLineAt` for a line printed for `left`, for `right`
      and for `next`. */
  lemma {:induction false} AstLineViaLeft(t: Tree, indent: int, k: nat)
    requires t.Node? && 0 < k <= Size(t.left)
    ensures AstLines(t, indent)[k] == NodeLine(PreOrder(t)[k], Levels(t, indent)[k])
    decreases t, 0
  {
    var head, al, l, ll := [NodeLine(t, indent)], AstLines(t.left, indent + 1), PreOrder(t.left), Levels(t.left, indent + 1);
    AstLineAt(t.left, indent + 1, k - 1);
    AtBack(head, al, k - 1, k);
    AtFront(head + al, AstLines(t.right, indent + 1), k);
    AtFront(head + al + AstLines(t.right, indent + 1), AstLines(t.next, indent), k);
    AtBack([t], l, k - 1, k);
    AtFront([t] + l, PreOrder(t.right), k);
    AtFront([t] + l + PreOrder(t.right), PreOrder(t.next), k);
    AtBack([indent], ll, k - 1, k);
    AtFront([indent] + ll, Levels(t.right, indent + 1), k);
    AtFront([indent] + ll + Levels(t.right, indent + 1), Levels(t.next, indent), k);
  }

  lemma {:induction false} AstLineViaRight(t: Tree, indent: int, k: nat)
    requires t.Node? && Size(t.left) < k <= Size(t.left) + Size(t.right)
    ensures AstLines(t, indent)[k] == NodeLine(PreOrder(t)[k], Levels(t, indent)[k])
    decreases t, 0
  {
    var j := k - 1 - Size(t.left);
    var front := [NodeLine(t, indent)] + AstLines(t.left, indent + 1);
    var ar, r, lr := AstLines(t.right, indent + 1), PreOrder(t.right), Levels(t.right, indent + 1);
    AstLineAt(t.right, indent + 1, j);
    AtBack(front, ar, j, k);
    AtFront(front + ar, AstLines(t.next, indent), k);
    AtBack([t] + PreOrder(t.left), r, j, k);
    AtFront([t] + PreOrder(t.left) + r, PreOrder(t.next), k);
    AtBack([indent] + Levels(t.left, indent + 1), lr, j, k);
    AtFront([indent] + Levels(t.left, indent + 1) + lr, Levels(t.next, indent), k);
  }

  lemma {:induction false} AstLineViaNext(t: Tree, indent: int, k: nat)
    requires t.Node? && Size(t.left) + Size(t.right) < k < Size(t)
    ensures AstLines(t, indent)[k] == NodeLine(PreOrder(t)[k], Levels(t, indent)[k])
    decreases t, 0
  {
    var j := k - 1 - Size(t.left) - Size(t.right);
    AstLineAt(t.next, indent, j);
    AtBack([NodeLine(t, indent)] + AstLines(t.left, indent + 1) + AstLines(t.right, indent + 1), AstLines(t.next, indent), j, k);
    AtBack([t] + PreOrder(t.left) + PreOrder(t.right), PreOrder(t.next), j, k);
    AtBack([indent] + Levels(t.left, indent + 1) + Levels(t.right, indent + 1), Levels(t.next, indent), j, k);
  }

  /** `lines` written one after another. */
  function Concat(lines: seq<string>): string {
    if lines == [] then "" else lines[0] + Concat(lines[1..])
  }

  /** `print_ast` into a string: what its `printf` calls write. */
  function PrintAst(t: Tree, indent: int): string {
    Concat(AstLines(t, indent))
  }

  /** Every entry of `lines` holds exactly one line break. */
  predicate OneBreakEach(lines: seq<string>) {
    forall i :: 0 <= i < |lines| ==> Occurrences(lines[i], '\n') == 1
  }

  /** When no text contains a line break, every line `print_ast` prints holds
      exactly one. */
  lemma {:induction false} AstLinesOneBreakEach(t: Tree, indent: int)
    requires NoCharInValues(t, '\n')
    ensures OneBreakEach(AstLines(t, indent))
  {
    if t.Node? {
      AstLinesOneBreakEach(t.left, indent + 1);
      AstLinesOneBreakEach(t.right, indent + 1);
      AstLinesOneBreakEach(t.next, indent);
      AstLinesOfNode(t, indent);
    }
  }

  lemma AstLinesOfNode(t: Tree, indent: int)
    requires t.Node? && (t.value.None? || '\n' !in t.value.value)
    requires OneBreakEach(AstLines(t.left, indent + 1)) && OneBreakEach(AstLines(t.right, indent + 1))
    requires OneBreakEach(AstLines(t.next, indent))
    ensures OneBreakEach(AstLines(t, indent))
  {
    OneBreakEachJoin(NodeLine(t, indent), AstLines(t.left, indent + 1), AstLines(t.right, indent + 1), AstLines(t.next, indent));
  }

  lemma OneBreakEachJoin(line: string, a: seq<string>, b: seq<string>, c: seq<string>)
    requires Occurrences(line, '\n') == 1 && OneBreakEach(a) && OneBreakEach(b) && OneBreakEach(c)
    ensures OneBreakEach([line] + a + b + c)
  {
    var all := [line] + a + b + c;
    forall i | 0 <= i < |all|
      ensures Occurrences(all[i], '\n') == 1
    {
      if i == 0 {
      } else if i <= |a| {
        assert all[i] == a[i - 1];
      } else if i <= |a| + |b| {
        assert all[i] == b[i - 1 - |a|];
      } else {
        assert all[i] == c[i - 1 - |a| - |b|];
      }
    }
  }

  /** Lines with one break each, written one after another, hold one break per line. */
  lemma {:induction false} ConcatBreaks(lines: seq<string>)
    requires OneBreakEach(lines)
    ensures Occurrences(Concat(lines), '\n') == |lines|
  {
    if lines != [] {
      assert OneBreakEach(lines[1..]) by {
        forall i | 0 <= i < |lines| - 1
          ensures Occurrences(lines[1..][i], '\n') == 1
        {
          assert lines[1..][i] == lines[i + 1];
        }
      }
      ConcatBreaks(lines[1..]);
      OccurrencesConcat(lines[0], Concat(lines[1..]), '\n');
    }
  }

  /** When no text contains a line break, `print_ast` writes exactly one line
      per reachable node. */
  lemma PrintAstOneLinePerNode(t: Tree, indent: int)
    requires NoCharInValues(t, '\n')
    ensures Occurrences(PrintAst(t, indent), '\n') == Size(t)
  {
    AstLinesOneBreakEach(t, indent);
    ConcatBreaks(AstLines(t, indent));
  }
}
