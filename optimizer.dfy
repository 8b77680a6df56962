/** The optimizer: the shallow validator, constant evaluation, the three
    single-node passes (constant folding, dead-code elimination, loop
    unrolling) and the driver that runs the enabled passes on a node and then
    recurses into its slots. Every pass is a function from tree to tree; the
    two places where the C code dereferences a null pointer produce the
    `NullDeref` outcome instead of a tree. Logging is left out: it never
    changes control flow. */
module Optimizer {
  import opened Decimal
  import opened Ast

  /** Which passes the driver runs (the log level of the C record is never read). */
  datatype Flags = Flags(constantFolding: bool, deadCodeElimination: bool, loopUnrolling: bool)

  /** What a pass or the driver hands back: a tree (possibly `Nil`), or the
      crash of a null-pointer dereference. */
  datatype Outcome = Ok(tree: Tree) | NullDeref

  predicate IsOperator(c: char) {
    c == '+' || c == '-' || c == '*' || c == '/' || c == '='
  }

  /** `validate_ast_node`: a null node passes; otherwise the kind must be in
      the enumeration, `Int` and `Var` need text, and a `BinOp` that has text
      must start with an operator character (the empty text starts with the
      terminating NUL, which is not one). Only the node itself is examined. */
  predicate ValidNode(t: Tree) {
    t.Nil? ||
    (KnownKind(t.kind)
     && !((t.kind == KindInt || t.kind == KindVar) && t.value.None?)
     && !(t.kind == KindBinOp && t.value.Some? && !(|t.value.value| > 0 && IsOperator(t.value.value[0]))))
  }

  /** The validator never looks below the node: replacing the slots does not change its verdict. */
  lemma ValidNodeIsShallow(t: Tree, left: Tree, right: Tree, next: Tree)
    requires t.Node?
    ensures ValidNode(t.(left := left, right := right, next := next)) == ValidNode(t)
  {
  }

  /** `is_constant_expr`: null counts as constant, an `Int` is constant, a
      `BinOp` is constant when both operands are; an invalid node and every
      other kind are not. */
  predicate IsConstant(t: Tree) {
    t.Nil? ||
    (ValidNode(t) && (t.kind == KindInt || (t.kind == KindBinOp && IsConstant(t.left) && IsConstant(t.right))))
  }

  /** Constancy is decided by `left` and `right` only, never by the sibling. */
  lemma IsConstantIgnoresSibling(t: Tree, next: Tree)
    requires t.Node?
    ensures IsConstant(t.(next := next)) == IsConstant(t)
  {
  }

  /** The character `switch (node->value[0])` looks at; an operator node
      without text is read as the empty text. */
  function OperatorOf(t: Tree): char
    requires t.Node?
  {
    if t.value.Some? && |t.value.value| > 0 then t.value.value[0] else '\0'
  }

  /** One step of `evaluate_constant_expr` on two operand values: `+ - *`,
      truncating `/` that gives 0 for a zero divisor, and 0 for anything else
      (`=` included). */
  function Apply(op: char, lhs: int, rhs: int): int {
    if op == '+' then lhs + rhs
    else if op == '-' then lhs - rhs
    else if op == '*' then lhs * rhs
    else if op == '/' then (if rhs == 0 then 0 else CDiv(lhs, rhs))
    else 0
  }

  /** `evaluate_constant_expr`: `atoi` of an `Int`'s text, the operator
      applied to the operands of a `BinOp`, and 0 for a null or invalid node
      and for every other kind. */
  function Eval(t: Tree): int {
    if t.Nil? || !ValidNode(t) then 0
    else if t.kind == KindInt then Atoi(t.value.value)
    else if t.kind == KindBinOp then Apply(OperatorOf(t), Eval(t.left), Eval(t.right))
    else 0
  }

  /** The case in which `constant_folding` replaces the node. */
  predicate Foldable(t: Tree) {
    t.Node? && ValidNode(t) && t.kind == KindBinOp && IsConstant(t)
  }

  /** `constant_folding`: a valid, constant `BinOp` becomes a fresh `Int` node
      holding the `%d` text of its value and nothing else (the old node is
      released together with its sibling chain); every other node, and null,
      comes back unchanged. */
  function Fold(t: Tree): (r: Tree)
    ensures !Foldable(t) ==> r == t
    ensures Foldable(t) ==> r.Node? && r.kind == KindInt && r.left.Nil? && r.right.Nil? && r.next.Nil?
    ensures Foldable(t) ==> r.value == Some(IntToString(Eval(t)))
    ensures Eval(r) == Eval(t)
    ensures ValidNode(t) ==> ValidNode(r)
    ensures Size(r) <= Size(t)
  {
    if t.Nil? then Nil
    else if !ValidNode(t) then t
    else if t.kind == KindBinOp && IsConstant(t) then
      var result := Eval(t);
      AtoiIntToString(result);
      CreateNode(KindInt, Some(IntToString(result)))
    else t
  }

  /** Folding twice is folding once. */
  lemma FoldIdempotent(t: Tree)
    ensures Fold(Fold(t)) == Fold(t)
  {
  }

  /** `is_dead_code`: a valid `Return` that has a sibling, or a valid `If`
      whose condition is constant (an absent one included) and evaluates to 0. */
  predicate IsDead(t: Tree) {
    t.Node? && ValidNode(t) &&
    ((t.kind == KindReturn && t.next.Node?) ||
     (t.kind == KindIf && IsConstant(t.left) && Eval(t.left) == 0))
  }

  /** `dead_code_elimination`: a dead node is released without its sibling and
      the sibling (possibly null) takes its place; a live node is returned as it is. */
  function EliminateDeadCode(t: Tree): (r: Tree)
    ensures IsDead(t) ==> r == t.next
    ensures !IsDead(t) ==> r == t
    ensures IsDead(t) ==> |FreeOrder(t.(next := Nil))| + Size(r) == Size(t)
    ensures Size(r) <= Size(t)
  {
    if t.Nil? then Nil
    else if !ValidNode(t) then t
    else if IsDead(t) then
      FreeOrderVisitsEachNodeOnce(t.(next := Nil));
      t.next
    else t
  }

  /** The copy `loop_unrolling` makes for each extra iteration: only the kind
      and the text of the body's first node, with no children. */
  function ShallowClone(t: Tree): (c: Tree)
    requires t.Node?
    ensures c.Node? && c.kind == t.kind && c.value == t.value
    ensures c.left.Nil? && c.right.Nil? && c.next.Nil?
  {
    CreateNode(t.kind, t.value)
  }

  /** `k` copies of one node. */
  function Copies(c: Tree, k: nat): (cs: seq<Tree>)
    ensures |cs| == k && forall i :: 0 <= i < k ==> cs[i] == c
  {
    if k == 0 then [] else Copies(c, k - 1) + [c]
  }

  /** The body with `k` shallow copies of its first node added, one by one,
      at the end of its sibling chain. */
  function AppendClones(body: Tree, k: nat): (r: Tree)
    requires body.Node?
    ensures r.Node? && r.kind == body.kind && r.value == body.value
    ensures r.left == body.left && r.right == body.right
    ensures Chain(r) == Chain(body) + Copies(ShallowClone(body), k)
    ensures Size(r) == Size(body) + k
  {
    if k == 0 then body
    else
      var before := AppendClones(body, k - 1);
      assert Chain(ShallowClone(body)) == [ShallowClone(body)];
      AddSibling(before, ShallowClone(body))
  }

  /** The loop of `loop_unrolling`: the first iteration takes the body, each
      further one appends a shallow copy of the sequence's first node. */
  method UnrolledSequence(body: Tree, bound: int) returns (sequence: Tree)
    ensures body.Nil? || bound <= 0 ==> sequence.Nil?
    ensures body.Node? && bound > 0 ==>
      sequence.Node? && Chain(sequence) == Chain(body) + Copies(ShallowClone(body), bound - 1)
    ensures body.Node? && bound > 0 ==> sequence == AppendClones(body, bound - 1)
  {
    sequence := Nil;
    var i := 0;
    while i < bound
      invariant bound <= 0 ==> i == 0
      invariant bound > 0 ==> 0 <= i <= bound
      invariant body.Nil? || i == 0 ==> sequence.Nil?
      invariant body.Node? && i > 0 ==> sequence == AppendClones(body, i - 1)
    {
      if sequence.Nil? {
        sequence := body;
      } else {
        var clone := CreateNode(sequence.kind, sequence.value);
        assert clone == ShallowClone(body);
        sequence := AddSibling(sequence, clone);
        assert sequence == AppendClones(body, i);
      }
      i := i + 1;
    }
  }

  /** The loops `loop_unrolling` acts on: a valid `For` whose condition is
      present and constant; the bound is the condition's value. */
  predicate ConstantLoop(t: Tree) {
    t.Node? && ValidNode(t) && t.kind == KindFor && t.right.Node? && IsConstant(t.right)
  }

  /** A constant loop whose bound is 1 to 4: the ones that get unrolled or crash. */
  predicate SmallLoop(t: Tree) {
    ConstantLoop(t) && 1 <= Eval(t.right) <= 4
  }

  /** `loop_unrolling`. A small loop whose condition has no sibling crashes:
      the body is read as `right->next->next`. A small loop with update and
      body is replaced by the body with bound - 1 shallow copies appended; one
      with no body stays as it is, as does every other node. */
  function UnrollLoop(t: Tree): (r: Outcome)
    ensures r.NullDeref? <==> SmallLoop(t) && t.right.next.Nil?
    ensures SmallLoop(t) && t.right.next.Node? && t.right.next.next.Node? ==>
      var body := t.right.next.next;
      r.Ok? && Chain(r.tree) == Chain(body) + Copies(ShallowClone(body), Eval(t.right) - 1)
      && (ValidNode(r.tree) <==> ValidNode(body))
    ensures !SmallLoop(t) || (t.right.next.Node? && t.right.next.next.Nil?) ==> r == Ok(t)
    ensures r.Ok? ==> Size(r.tree) <= Size(t)
  {
    if t.Nil? then Ok(Nil)
    else if !ValidNode(t) then Ok(t)
    else if t.kind != KindFor then Ok(t)
    else if t.right.Node? && IsConstant(t.right) then
      var bound := Eval(t.right);
      if bound <= 4 then
        if bound <= 0 then Ok(t)
        else if t.right.next.Nil? then NullDeref
        else if t.right.next.next.Nil? then Ok(t)
        else
          assert Size(t.right.next) >= 1 + Size(t.right.next.next);
          assert Size(t.right) >= 1 + Size(t.right.next);
          assert Size(t) >= 3 + Size(t.right.next.next);
          Ok(AppendClones(t.right.next.next, bound - 1))
      else Ok(t)
    else Ok(t)
  }

  /** `constant_folding` as its comments describe it: the folded node takes
      the place of the expression in its sibling chain, so the siblings stay. */
  function FoldKeepingSiblings(t: Tree): (r: Tree)
    ensures !Foldable(t) ==> r == t
    ensures Foldable(t) ==> r.Node? && r.kind == KindInt && r.left.Nil? && r.right.Nil?
    ensures t.Node? ==> r.Node? && r.next == t.next
    ensures Foldable(t) ==> r.value == Some(IntToString(Eval(t)))
    ensures Eval(r) == Eval(t)
    ensures ValidNode(t) ==> ValidNode(r)
    ensures Size(r) <= Size(t)
  {
    if Foldable(t) then
      var folded := Fold(t);
      Node(folded.kind, folded.value, folded.left, folded.right, t.next)
    else t
  }

  /** As written, folding releases the expression's sibling chain with it: a
      folded expression that had siblings comes back alone. */
  lemma FoldDropsSiblings(t: Tree)
    requires Foldable(t) && t.next.Node?
    ensures |Chain(Fold(t))| == 1 < |Chain(t)|
  {
  }

  /** The corrected folding keeps the chain after the node as it was. */
  lemma FoldKeepingSiblingsKeepsChain(t: Tree)
    ensures |Chain(FoldKeepingSiblings(t))| == |Chain(t)|
    ensures t.Node? ==> Chain(FoldKeepingSiblings(t))[1..] == Chain(t)[1..]
  {
    if t.Node? {
      var r := FoldKeepingSiblings(t);
      assert Chain(r) == [r.(next := Nil)] + Chain(t.next);
      assert Chain(t) == [t.(next := Nil)] + Chain(t.next);
    }
  }

  /** As written, a `return` with statements after it counts as the dead
      node: it is released and the unreachable statements take its place. */
  lemma ReturnReplacedByDeadCode(t: Tree)
    requires t.Node? && ValidNode(t) && t.kind == KindReturn && t.next.Node?
    ensures Chain(EliminateDeadCode(t)) == Chain(t)[1..]
  {
    assert Chain(t) == [t.(next := Nil)] + Chain(t.next);
  }

  /** `dead_code_elimination` as its comment describes it for a `return`: the
      statements after it are unreachable and are released, and the return
      stays; a dead `if` is replaced by its sibling as before. */
  function EliminateDeadCodeAfterReturn(t: Tree): (r: Tree)
    ensures t.Node? && ValidNode(t) && t.kind == KindReturn ==> Chain(r) == Chain(t)[..1]
    ensures IsDead(t) && t.kind == KindIf ==> r == t.next
    ensures !IsDead(t) ==> r == t
    ensures Size(r) <= Size(t)
  {
    if IsDead(t) && t.kind == KindReturn then t.(next := Nil) else EliminateDeadCode(t)
  }

  /** The first pass `optimize_ast` runs: constant folding, when enabled. */
  function FoldPass(root: Tree, flags: Flags, fixed: bool): Tree {
    if !flags.constantFolding then root
    else if fixed then FoldKeepingSiblings(root)
    else Fold(root)
  }

  /** The second pass: dead-code elimination, when enabled, on what folding left. */
  function PrunePass(folded: Tree, flags: Flags, fixed: bool): Tree {
    if !flags.deadCodeElimination then folded
    else if fixed then EliminateDeadCodeAfterReturn(folded)
    else EliminateDeadCode(folded)
  }

  /** The three passes `optimize_ast` applies to one node, each followed by the
      validator: an invalid result makes `optimize_ast` return null (`Ok(Nil)`).
      With `fixed` false these are the passes as written, and a pass that
      leaves a null root is dereferenced by the recursion that follows
      (`NullDeref`). With `fixed` true folding keeps the siblings, a `return`
      keeps its place, and a null root stops the driver with null. */
  function ApplyPasses(root: Tree, flags: Flags, fixed: bool): (r: Outcome)
    requires root.Node? && ValidNode(root)
    ensures r.Ok? ==> ValidNode(r.tree) && Size(r.tree) <= Size(root)
    ensures !flags.loopUnrolling && fixed ==> r.Ok?
    ensures !flags.loopUnrolling && !flags.deadCodeElimination ==> r.Ok? && r.tree.Node?
  {
    var folded := FoldPass(root, flags, fixed);
    if !ValidNode(folded) then Ok(Nil)
    else
      var pruned := PrunePass(folded, flags, fixed);
      if !ValidNode(pruned) then Ok(Nil)
      else
        var unrolled := if flags.loopUnrolling then UnrollLoop(pruned) else Ok(pruned);
        if unrolled.NullDeref? then NullDeref
        else if !ValidNode(unrolled.tree) then Ok(Nil)
        else if unrolled.tree.Nil? then (if fixed then Ok(Nil) else NullDeref)
        else unrolled
  }

  /** `optimize_ast`: run the enabled passes on the node, then optimize its
      `left`, `right` and `next` slots. `fixed` selects the passes as written
      or as corrected (see `ApplyPasses`). */
  function Drive(root: Tree, flags: Flags, fixed: bool): (r: Outcome)
    decreases Size(root)
    ensures root.Nil? ==> r == Ok(Nil)
    ensures root.Node? && !ValidNode(root) ==> r == Ok(root)
    ensures r.Ok? ==> (ValidNode(root) ==> ValidNode(r.tree)) && Size(r.tree) <= Size(root)
  {
    if root.Nil? then Ok(Nil)
    else if !ValidNode(root) then Ok(root)
    else
      var passed := ApplyPasses(root, flags, fixed);
      if passed.NullDeref? || passed.tree.Nil? then passed
      else
        var node := passed.tree;
        var left := Drive(node.left, flags, fixed);
        var right := Drive(node.right, flags, fixed);
        var next := Drive(node.next, flags, fixed);
        if left.NullDeref? || right.NullDeref? || next.NullDeref? then NullDeref
        else
          ValidNodeIsShallow(node, left.tree, right.tree, next.tree);
          Ok(node.(left := left.tree, right := right.tree, next := next.tree))
  }

  /** `optimize_ast` as written. */
  function Optimize(root: Tree, flags: Flags): (r: Outcome)
    ensures root.Nil? ==> r == Ok(Nil)
    ensures root.Node? && !ValidNode(root) ==> r == Ok(root)
    ensures r.Ok? ==> (ValidNode(root) ==> ValidNode(r.tree)) && Size(r.tree) <= Size(root)
  {
    Drive(root, flags, false)
  }

  /** `optimize_ast` with the corrected folding and dead-code elimination and
      a null check after the passes: without loop unrolling it never crashes. */
  function OptimizeCorrected(root: Tree, flags: Flags): (r: Outcome)
    ensures !flags.loopUnrolling ==> r.Ok?
  {
    CorrectedWithoutUnrollingSucceeds(root, flags);
    Drive(root, flags, true)
  }

  lemma {:induction false} CorrectedWithoutUnrollingSucceeds(root: Tree, flags: Flags)
    ensures !flags.loopUnrolling ==> Drive(root, flags, true).Ok?
    decreases Size(root)
  {
    if !flags.loopUnrolling && root.Node? && ValidNode(root) {
      var passed := ApplyPasses(root, flags, true);
      if passed.tree.Node? {
        CorrectedWithoutUnrollingSucceeds(passed.tree.left, flags);
        CorrectedWithoutUnrollingSucceeds(passed.tree.right, flags);
        CorrectedWithoutUnrollingSucceeds(passed.tree.next, flags);
      }
    }
  }

  /** Without dead-code elimination and unrolling no pass leaves null, so the
      driver, as written or corrected, never crashes and keeps a node a node. */
  lemma {:induction false} WithoutPruningSucceeds(root: Tree, flags: Flags, fixed: bool)
    requires !flags.deadCodeElimination && !flags.loopUnrolling
    ensures Drive(root, flags, fixed).Ok?
    ensures root.Node? ==> Drive(root, flags, fixed).tree.Node?
    decreases Size(root)
  {
    if root.Node? && ValidNode(root) {
      var node := ApplyPasses(root, flags, fixed).tree;
      WithoutPruningSucceeds(node.left, flags, fixed);
      WithoutPruningSucceeds(node.right, flags, fixed);
      WithoutPruningSucceeds(node.next, flags, fixed);
    }
  }

  /** The passes run one after another on the node, in the order folding,
      dead-code elimination, unrolling, each on what the one before left.
      Folding never makes a valid node invalid, so the first re-validation
      always passes. */
  lemma PassesRunInOrder(root: Tree, flags: Flags, fixed: bool)
    requires root.Node? && ValidNode(root)
    ensures ValidNode(FoldPass(root, flags, fixed))
    ensures var pruned := PrunePass(FoldPass(root, flags, fixed), flags, fixed);
      ValidNode(pruned) && pruned.Node? && !flags.loopUnrolling ==> ApplyPasses(root, flags, fixed) == Ok(pruned)
    ensures var pruned := PrunePass(FoldPass(root, flags, fixed), flags, fixed);
      (ValidNode(pruned) && flags.loopUnrolling && UnrollLoop(pruned).Ok? && ValidNode(UnrollLoop(pruned).tree)
       && UnrollLoop(pruned).tree.Node?) ==> ApplyPasses(root, flags, fixed) == UnrollLoop(pruned)
  {
  }

  /** When the validator rejects what dead-code elimination or unrolling
      left, `optimize_ast` returns null at once: the node and all its slots
      are gone. */
  lemma InvalidPassResultGivesNull(root: Tree, flags: Flags, fixed: bool)
    requires root.Node? && ValidNode(root)
    ensures var pruned := PrunePass(FoldPass(root, flags, fixed), flags, fixed);
      !ValidNode(pruned) ==> Drive(root, flags, fixed) == Ok(Nil)
    ensures var pruned := PrunePass(FoldPass(root, flags, fixed), flags, fixed);
      (ValidNode(pruned) && flags.loopUnrolling && UnrollLoop(pruned).Ok? && !ValidNode(UnrollLoop(pruned).tree))
      ==> Drive(root, flags, fixed) == Ok(Nil)
  {
    PassesRunInOrder(root, flags, fixed);
  }

  /** After the passes, `optimize_ast` recurses into the `left`, `right` and
      `next` of the node the passes left, not of the node it was given; it
      crashes when one of them does, and otherwise puts their results in
      those slots, keeping the kind and text of the node the passes left. */
  lemma DriveRecursesIntoPassResult(root: Tree, flags: Flags, fixed: bool)
    requires root.Node? && ValidNode(root)
    requires ApplyPasses(root, flags, fixed).Ok? && ApplyPasses(root, flags, fixed).tree.Node?
    ensures var node := ApplyPasses(root, flags, fixed).tree;
      Drive(root, flags, fixed).Ok?
      <==> Drive(node.left, flags, fixed).Ok? && Drive(node.right, flags, fixed).Ok? && Drive(node.next, flags, fixed).Ok?
    ensures var node := ApplyPasses(root, flags, fixed).tree;
      Drive(root, flags, fixed).Ok? ==>
      Drive(root, flags, fixed).tree
      == Node(node.kind, node.value, Drive(node.left, flags, fixed).tree, Drive(node.right, flags, fixed).tree, Drive(node.next, flags, fixed).tree)
  {
  }

  /** Folding runs before elimination: the statement an `if (0)` leaves in
      its place is never folded itself, so `if (0) ...; 1 + 2` becomes the
      unfolded `1 + 2`, with both drivers. */
  lemma SplicedSuccessorIsNotFolded()
    ensures var sum := MakeBinOp('+', MakeInt(1), MakeInt(2));
      var t := Node(KindIf, None, MakeInt(0), Nil, sum);
      Optimize(t, Flags(true, true, false)) == Ok(sum) && Foldable(sum)
      && OptimizeCorrected(t, Flags(true, true, false)) == Ok(sum)
  {
    var one, two := MakeInt(1), MakeInt(2);
    var sum := MakeBinOp('+', one, two);
    var t := Node(KindIf, None, MakeInt(0), Nil, sum);
    var flags := Flags(true, true, false);
    OptimizeWithoutPassesIsIdentity(Nil);
    assert Drive(one, flags, false) == Ok(one) && Drive(two, flags, false) == Ok(two);
    assert Drive(one, flags, true) == Ok(one) && Drive(two, flags, true) == Ok(two);
    assert ApplyPasses(t, flags, false) == Ok(sum);
    assert ApplyPasses(t, flags, true) == Ok(sum);
  }

  /** Elimination runs before unrolling: a loop an `if (0)` leaves in its
      place is unrolled at once. `if (0) ...; for (; 2; i) x` becomes `x`
      followed by a copy of `x`. */
  lemma SplicedLoopIsUnrolled()
    ensures var x := Node(KindVar, Some("x"), Nil, Nil, Nil);
      var loop := Node(KindFor, None, Nil, Node(KindInt, MakeInt(2).value, Nil, Nil, Node(KindVar, Some("i"), Nil, Nil, x)), Nil);
      var t := Node(KindIf, None, MakeInt(0), Nil, loop);
      Optimize(t, Flags(false, true, true)) == Ok(x.(next := x))
  {
    var x := Node(KindVar, Some("x"), Nil, Nil, Nil);
    var loop := Node(KindFor, None, Nil, Node(KindInt, MakeInt(2).value, Nil, Nil, Node(KindVar, Some("i"), Nil, Nil, x)), Nil);
    var t := Node(KindIf, None, MakeInt(0), Nil, loop);
    var flags := Flags(false, true, true);
    assert Chain(x) == [x];
    assert Chain(UnrollLoop(loop).tree) == [x, x];
    LinkChain(UnrollLoop(loop).tree);
    assert Link([x, x]) == x.(next := x) by {
      assert [x, x][1..] == [x];
    }
    assert ApplyPasses(t, flags, false) == Ok(x.(next := x));
    assert ApplyPasses(x, flags, false) == Ok(x);
    assert Drive(x, flags, false) == Ok(x);
  }

  /** With every pass switched off the driver gives back the tree it was given. */
  lemma {:induction false} OptimizeWithoutPassesIsIdentity(t: Tree)
    ensures Optimize(t, Flags(false, false, false)) == Ok(t)
    decreases Size(t)
  {
    if t.Node? && ValidNode(t) {
      OptimizeWithoutPassesIsIdentity(t.left);
      OptimizeWithoutPassesIsIdentity(t.right);
      OptimizeWithoutPassesIsIdentity(t.next);
    }
  }

  const FoldingOnly := Flags(true, false, false)

  /** No node is left that folding would still replace, except below an
      invalid node, where the driver stops. */
  predicate FullyFolded(t: Tree) {
    t.Nil? || !ValidNode(t) ||
    (!Foldable(t) && FullyFolded(t.left) && FullyFolded(t.right) && FullyFolded(t.next))
  }

  /** Folding-only optimization of a non-constant node keeps it non-constant. */
  lemma {:induction false} FoldingKeepsNonConstant(t: Tree)
    requires !IsConstant(t)
    ensures Optimize(t, FoldingOnly).Ok?
    ensures !IsConstant(Optimize(t, FoldingOnly).tree)
    decreases Size(t)
  {
    WithoutPruningSucceeds(t, FoldingOnly, false);
    if ValidNode(t) {
      if t.kind == KindBinOp {
        if !IsConstant(t.left) {
          FoldingKeepsNonConstant(t.left);
        } else {
          FoldingKeepsNonConstant(t.right);
        }
      }
    }
  }

  /** After folding-only optimization no constant `BinOp` is left (outside
      invalid nodes), and the value of the tree is unchanged. */
  lemma {:induction false} FoldingOnlyFoldsEverything(t: Tree)
    ensures Optimize(t, FoldingOnly).Ok?
    ensures FullyFolded(Optimize(t, FoldingOnly).tree)
    ensures Eval(Optimize(t, FoldingOnly).tree) == Eval(t)
    decreases Size(t)
  {
    WithoutPruningSucceeds(t, FoldingOnly, false);
    if t.Node? && ValidNode(t) && !Foldable(t) {
      FoldingOnlyFoldsEverything(t.left);
      FoldingOnlyFoldsEverything(t.right);
      FoldingOnlyFoldsEverything(t.next);
      if t.kind == KindBinOp {
        if !IsConstant(t.left) {
          FoldingKeepsNonConstant(t.left);
        } else {
          FoldingKeepsNonConstant(t.right);
        }
      }
    }
  }

  /** A dead `if` with nothing after it: dead-code elimination leaves null,
      the validator accepts null, and the next line of `optimize_ast`
      dereferences it. The corrected driver stops there with null. */
  lemma DeadLastIfCrashes(t: Tree, flags: Flags)
    requires IsDead(t) && t.kind == KindIf && t.next.Nil? && flags.deadCodeElimination
    ensures Optimize(t, flags) == NullDeref
    ensures OptimizeCorrected(t, flags) == Ok(Nil)
  {
    assert Fold(t) == t && FoldKeepingSiblings(t) == t;
  }

  /** A sequence, a function or a declaration is left alone by every pass, so
      the driver crashes on it when it crashes on one of its slots. */
  lemma CrashPropagates(t: Tree, flags: Flags)
    requires t.Node? && ValidNode(t) && (t.kind == KindSeq || t.kind == KindFuncDef || t.kind == KindDecl)
    requires Optimize(t.left, flags).NullDeref? || Optimize(t.right, flags).NullDeref? || Optimize(t.next, flags).NullDeref?
    ensures Optimize(t, flags).NullDeref?
  {
    assert ApplyPasses(t, flags, false) == Ok(t);
  }

  /** The program the optimizer's test builds: `main` whose body is
      `int x = 1 + 2 * 3; if (0) y = 10; int z = (5 + 3) * 2; return x + z;`,
      each statement added with a new `Seq` node around the ones before. */
  function OptimizerTestProgram(): Tree {
    var decl1 := MakeDecl(Some("x"), MakeBinOp('+', MakeInt(1), MakeBinOp('*', MakeInt(2), MakeInt(3))));
    var ifStmt := MakeIf(MakeInt(0), MakeBinOp('=', MakeVar(Some("y")), MakeInt(10)));
    var decl2 := MakeDecl(Some("z"), MakeBinOp('*', MakeBinOp('+', MakeInt(5), MakeInt(3)), MakeInt(2)));
    var ret := MakeReturn(MakeBinOp('+', MakeVar(Some("x")), MakeVar(Some("z"))));
    var body := MakeSeq(MakeSeq(MakeSeq(MakeSeq(decl1, Nil), ifStmt), decl2), ret);
    Node(KindFuncDef, Some("main"), body, Nil, Nil)
  }

  /** With folding and dead-code elimination on, as in that test, the `if (0)`
      is removed and leaves null in the right slot of its `Seq`, which the
      driver then dereferences; the corrected driver completes. */
  lemma OptimizerTestCrashes()
    ensures Optimize(OptimizerTestProgram(), Flags(true, true, false)) == NullDeref
    ensures OptimizeCorrected(OptimizerTestProgram(), Flags(true, true, false)).Ok?
  {
    var flags := Flags(true, true, false);
    var decl1 := MakeDecl(Some("x"), MakeBinOp('+', MakeInt(1), MakeBinOp('*', MakeInt(2), MakeInt(3))));
    var ifStmt := MakeIf(MakeInt(0), MakeBinOp('=', MakeVar(Some("y")), MakeInt(10)));
    var decl2 := MakeDecl(Some("z"), MakeBinOp('*', MakeBinOp('+', MakeInt(5), MakeInt(3)), MakeInt(2)));
    var ret := MakeReturn(MakeBinOp('+', MakeVar(Some("x")), MakeVar(Some("z"))));
    var seq2 := MakeSeq(MakeSeq(decl1, Nil), ifStmt);
    var seq3 := MakeSeq(seq2, decl2);
    var seq4 := MakeSeq(seq3, ret);
    var root := Node(KindFuncDef, Some("main"), seq4, Nil, Nil);
    assert root == OptimizerTestProgram();
    DeadLastIfCrashes(ifStmt, flags);
    CrashPropagates(seq2, flags);
    CrashPropagates(seq3, flags);
    CrashPropagates(seq4, flags);
    CrashPropagates(root, flags);
  }

  /** `for (init; 1 + 2; update) body` with folding alone: the condition
      becomes `3`, and the update and the body, its siblings, are released
      with the old condition. The corrected driver keeps all three. */
  lemma FoldingDropsLoopUpdateAndBody(init: Tree, cond: Tree, update: Tree, body: Tree)
    requires Foldable(cond) && cond.next.Nil? && update.Node? && update.next.Nil? && body.Node? && body.next.Nil?
    ensures var r := Optimize(MakeFor(init, cond, update, body), FoldingOnly);
      r.Ok? && r.tree.right.Node? && r.tree.right.kind == KindInt && r.tree.right.next.Nil?
    ensures var r := OptimizeCorrected(MakeFor(init, cond, update, body), FoldingOnly);
      r.Ok? && |Chain(r.tree.right)| == 3
  {
    var f := MakeFor(init, cond, update, body);
    ForLayout(init, cond, update, body);
    IsConstantIgnoresSibling(cond, f.right.next);
    ValidNodeIsShallow(cond, cond.left, cond.right, f.right.next);
    assert Foldable(f.right);
    WithoutPruningSucceeds(init, FoldingOnly, false);
    assert ApplyPasses(f, FoldingOnly, false) == Ok(f);
    assert ApplyPasses(f, FoldingOnly, true) == Ok(f);
    var folded := Fold(f.right);
    assert Drive(f.right, FoldingOnly, false) == Ok(folded);
    WithoutPruningSucceeds(init, FoldingOnly, true);
    CorrectedFoldingKeepsChains(f.right);
    assert Chain(f.right) == [f.right.(next := Nil)] + [update] + [body];
  }

  /** The corrected driver with folding alone keeps every sibling chain as
      long as it was. */
  lemma {:induction false} CorrectedFoldingKeepsChains(t: Tree)
    ensures Drive(t, FoldingOnly, true).Ok?
    ensures |Chain(Drive(t, FoldingOnly, true).tree)| == |Chain(t)|
    decreases Size(t)
  {
    WithoutPruningSucceeds(t, FoldingOnly, true);
    if t.Node? && ValidNode(t) {
      var node := FoldKeepingSiblings(t);
      assert ApplyPasses(t, FoldingOnly, true) == Ok(node);
      CorrectedFoldingKeepsChains(node.next);
      WithoutPruningSucceeds(node.left, FoldingOnly, true);
      WithoutPruningSucceeds(node.right, FoldingOnly, true);
    }
  }

  /** `k` copies of a chain of statements, one after another. */
  function RepeatChain(cs: seq<Tree>, k: nat): (rs: seq<Tree>)
    ensures |rs| == k * |cs|
    ensures IsChainEntries(cs) ==> IsChainEntries(rs)
  {
    if k == 0 then [] else RepeatChain(cs, k - 1) + cs
  }

  /** Copy `i` of the chain sits at positions `i * |cs|` up to `(i + 1) * |cs|`. */
  lemma {:induction false} RepeatChainCopies(cs: seq<Tree>, k: nat, i: nat)
    requires i < k
    ensures (i + 1) * |cs| <= |RepeatChain(cs, k)|
    ensures RepeatChain(cs, k)[i * |cs| .. (i + 1) * |cs|] == cs
  {
    var before := RepeatChain(cs, k - 1);
    assert RepeatChain(cs, k) == before + cs;
    assert (i + 1) * |cs| == i * |cs| + |cs|;
    if i == k - 1 {
      assert |before| == i * |cs|;
    } else {
      RepeatChainCopies(cs, k - 1, i);
      assert RepeatChain(cs, k)[i * |cs| .. (i + 1) * |cs|] == before[i * |cs| .. (i + 1) * |cs|];
    }
  }

  /** `loop_unrolling` as evidently intended: a small loop with a body becomes
      `bound` copies of the whole body, every statement with its children. A
      copy of a value is the value, so the copies are the body's own entries.
      A loop without an update is left alone instead of read through null. */
  function UnrollLoopDeep(t: Tree): (r: Tree)
    ensures SmallLoop(t) && t.right.next.Node? && t.right.next.next.Node? ==>
      Chain(r) == RepeatChain(Chain(t.right.next.next), Eval(t.right)) + Chain(t.next)
    ensures !(SmallLoop(t) && t.right.next.Node? && t.right.next.next.Node?) ==> r == t
  {
    if SmallLoop(t) && t.right.next.Node? && t.right.next.next.Node? then
      var copies := RepeatChain(Chain(t.right.next.next), Eval(t.right)) + Chain(t.next);
      ChainLink(copies);
      Link(copies)
    else t
  }

  /** Each iteration of the corrected unrolling is the whole body, and the
      statements after the loop follow the last one. */
  lemma DeepUnrollRepeatsBody(t: Tree, i: nat)
    requires SmallLoop(t) && t.right.next.Node? && t.right.next.next.Node? && i < Eval(t.right)
    ensures var n := |Chain(t.right.next.next)|;
      (i + 1) * n <= |Chain(UnrollLoopDeep(t))|
      && Chain(UnrollLoopDeep(t))[i * n .. (i + 1) * n] == Chain(t.right.next.next)
  {
    var body := Chain(t.right.next.next);
    var copies := RepeatChain(body, Eval(t.right));
    var n := |body|;
    RepeatChainCopies(body, Eval(t.right), i);
    assert (copies + Chain(t.next))[i * n .. (i + 1) * n] == copies[i * n .. (i + 1) * n];
  }

  /** The corrected unrolling keeps the statements after the loop, after the
      last iteration. */
  lemma DeepUnrollKeepsSuccessors(t: Tree)
    requires SmallLoop(t) && t.right.next.Node? && t.right.next.next.Node?
    ensures var k := Eval(t.right) * |Chain(t.right.next.next)|;
      k <= |Chain(UnrollLoopDeep(t))| && Chain(UnrollLoopDeep(t))[k..] == Chain(t.next)
  {
    var copies := RepeatChain(Chain(t.right.next.next), Eval(t.right));
    assert (copies + Chain(t.next))[|copies|..] == Chain(t.next);
  }

  /** As written, the unrolled sequence replaces the `for` node, and the
      statements that followed the loop, the `for` node's own `next`, are
      left behind with it: they are not in the result. */
  lemma UnrollDropsLoopSuccessors(t: Tree)
    requires SmallLoop(t) && t.right.next.Node? && t.right.next.next.Node? && t.next.Node?
    ensures UnrollLoop(t).Ok?
    ensures var body := t.right.next.next;
      |Chain(UnrollLoop(t).tree)| == |Chain(body)| + Eval(t.right) - 1
      < |Chain(body)| + Eval(t.right) - 1 + |Chain(t.next)|
  {
  }

  /** As written, the iterations after the first copy only the first
      statement of the body, without its children: a loop of two or more
      iterations whose body has children or more than one statement is not
      unrolled into copies of its body. */
  lemma UnrollCopiesOnlyFirstNode(t: Tree)
    requires SmallLoop(t) && t.right.next.Node? && t.right.next.next.Node? && Eval(t.right) >= 2
    requires var body := t.right.next.next; body.left.Node? || body.right.Node? || body.next.Node?
    ensures UnrollLoop(t).Ok?
    ensures Chain(UnrollLoop(t).tree) != RepeatChain(Chain(t.right.next.next), Eval(t.right))
  {
    var body := t.right.next.next;
    var cs := Chain(body);
    assert Chain(UnrollLoop(t).tree) == cs + Copies(ShallowClone(body), Eval(t.right) - 1);
    if body.next.Node? {
      assert cs == [body.(next := Nil)] + Chain(body.next);
      FewerCopies(cs, ShallowClone(body), Eval(t.right));
    } else {
      ChildlessCopies(cs, ShallowClone(body), Eval(t.right));
    }
  }

  /** Adding `k - 1` single entries to a chain of two or more is shorter than
      `k` copies of the chain. */
  lemma FewerCopies(cs: seq<Tree>, clone: Tree, k: nat)
    requires |cs| >= 2 && k >= 2
    ensures cs + Copies(clone, k - 1) != RepeatChain(cs, k)
  {
    assert k * |cs| == (k - 1) * |cs| + |cs|;
    assert (k - 1) * |cs| >= (k - 1) * 2;
  }

  /** Adding copies of an entry without children differs from repeating a
      chain whose first entry has children. */
  lemma ChildlessCopies(cs: seq<Tree>, clone: Tree, k: nat)
    requires |cs| >= 1 && k >= 2 && cs[0].Node? && (cs[0].left.Node? || cs[0].right.Node?)
    requires clone.Node? && clone.left.Nil? && clone.right.Nil?
    ensures cs + Copies(clone, k - 1) != RepeatChain(cs, k)
  {
    RepeatChainCopies(cs, k, 1);
    assert (cs + Copies(clone, k - 1))[|cs|] == clone;
    assert RepeatChain(cs, k)[|cs|] == cs[0];
  }

  /** An independent reference for constant expressions: integer literals and
      the four arithmetic operators, division truncating toward zero and
      giving 0 for a zero divisor. */
  datatype Expr = Lit(n: int) | Add(a: Expr, b: Expr) | Sub(a: Expr, b: Expr) | Mul(a: Expr, b: Expr) | Div(a: Expr, b: Expr)

  function Value(e: Expr): int {
    match e
    case Lit(n) => n
    case Add(a, b) => Value(a) + Value(b)
    case Sub(a, b) => Value(a) - Value(b)
    case Mul(a, b) => Value(a) * Value(b)
    case Div(a, b) => if Value(b) == 0 then 0 else CDiv(Value(a), Value(b))
  }

  /** The tree the parser builds for an expression. */
  function ToTree(e: Expr): (t: Tree)
    ensures t.Node? && t.next.Nil? && ValidNode(t)
    ensures e.Lit? <==> t.kind == KindInt
  {
    match e
    case Lit(n) => MakeInt(n)
    case Add(a, b) => MakeBinOp('+', ToTree(a), ToTree(b))
    case Sub(a, b) => MakeBinOp('-', ToTree(a), ToTree(b))
    case Mul(a, b) => MakeBinOp('*', ToTree(a), ToTree(b))
    case Div(a, b) => MakeBinOp('/', ToTree(a), ToTree(b))
  }

  /** The evaluator agrees with the reference on every expression tree, and
      every such tree is constant. */
  lemma {:induction false} EvalAgreesWithValue(e: Expr)
    ensures IsConstant(ToTree(e))
    ensures Eval(ToTree(e)) == Value(e)
  {
    match e
    case Lit(n) =>
    case Add(a, b) => EvalAgreesWithValue(a); EvalAgreesWithValue(b);
    case Sub(a, b) => EvalAgreesWithValue(a); EvalAgreesWithValue(b);
    case Mul(a, b) => EvalAgreesWithValue(a); EvalAgreesWithValue(b);
    case Div(a, b) => EvalAgreesWithValue(a); EvalAgreesWithValue(b);
  }

  /** Folding any operator expression leaves one `Int` node whose text reads
      back as the reference value. */
  lemma FoldComputesValue(e: Expr)
    requires !e.Lit?
    ensures var r := Fold(ToTree(e));
      r.Node? && r.kind == KindInt && Size(r) == 1 && Atoi(r.value.value) == Value(e)
  {
    EvalAgreesWithValue(e);
  }
}
