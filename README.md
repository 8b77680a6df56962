# AST optimizer, code generator and DOT exporter — a Dafny model

This project models the middle of a small C compiler. A parsed program is a
tree of nodes. Each node has a kind tag (one of 14), optional text, and three
owned slots: `left`, `right` and the `next` sibling.

The model covers:

- **`src/ast.c`** (module `Ast`, file `ast.dfy`):
  - node construction: `create_node`, `add_sibling`, `add_child` and the `make_*_node` helpers;
  - the layout `make_for_node` gives a `for` loop, where the update and the body hang off the condition's sibling chain;
  - `get_node_type_str`;
  - `print_ast`, as the text it writes;
  - `free_ast`, as the sequence of nodes it releases.
- **`src/optimizer/optimizer.c`** (module `Optimizer`, file `optimizer.dfy`):
  - the validator, the constant test and the evaluator;
  - the three single-node passes: constant folding, dead-code elimination and loop unrolling;
  - the driver `optimize_ast`, which runs the enabled passes, re-validates after each, and then recurses into `left`, `right` and `next`.
- **`src/codegen.c`** (module `Codegen`, file `codegen.dfy`): `write_indentation` and `generate_code`, as the C text they write.
- **`src/visualizer/visualizer.c`** (module `Visualizer`, file `visualizer.dfy`):
  - `get_node_color`;
  - `write_node_to_dot` and `write_edge_to_dot`, as methods of a `DotWriter` class that holds the id counter and the output written so far;
  - `generate_dot`, as the text it writes.
- `decimal.dfy` (module `Decimal`) holds the C library behaviour the core relies on:
  - `snprintf("%d")`;
  - `atoi`;
  - C's division, which truncates toward zero.

## How the C is represented

- **Trees.** A tree is the datatype `Tree = Nil | Node(kind, value, left, right, next)`.
  - `Nil` stands for a NULL pointer, so every NULL branch in the C is an explicit case.
  - `kind` is an integer tag 0..13, so the validator's range check and the `"UNKNOWN"` name are both reachable.
  - A node's sibling chain is `Chain(t)`: the nodes reached by following `next`, each detached from its successor.
  - `Link` is the inverse of `Chain`.
- **In-place updates.** The C helpers that update nodes in place are pure functions that return the rebuilt tree. Since the tree has no sharing, the result is the same tree the C leaves behind.
- **Crashes.** `Outcome = Ok(tree) | NullDeref` records the two places where the optimizer dereferences NULL:
  - the driver, after a pass returns NULL;
  - loop unrolling, on a loop without an update.
- **The `fixed` switch.** The driver `Drive` takes a `fixed` switch. With `fixed` false it is the code as written (`Optimize`). With `fixed` true, the driver:
  - stops instead of dereferencing a NULL pass result;
  - folds without dropping siblings;
  - eliminates the code after a `return` rather than the `return` itself.

  This corrected driver is `OptimizeCorrected`.
- **Code generation.** `generate_code` is the function `Emit`, which has a `detach` switch. With `detach` false it is the code as written (`GenerateCode`). With `detach` true, each part of a `for` header is printed without its siblings (`GenerateCodeDetached`).
- **DOT lines.** The lines of DOT text are first built as values (`DotLine`), one per `fprintf`. `Render` gives the text of a line. `NodeLines` threads the id counter the way `write_node_to_dot` does.

Dead-code elimination on a `return` (`src/optimizer/optimizer.c:248-253`) removes only the `return` and keeps its successors. The model follows the code, and records this under Findings. The corrected elimination (`EliminateDeadCodeAfterReturn`) keeps the `return` and drops only the statements after it. That is what the comment at `src/optimizer/optimizer.c:222` calls dead code, and it is what C does with those statements.

## Model

| member | source | states |
|---|---|---|
| Decimal.IntToString | src/ast.c:49-53 | the `%d` text is a minus sign exactly for negative values, followed by digits |
| Decimal.AtoiIntToString | src/optimizer/optimizer.c:156 | `atoi` of the `%d` text of any integer gives that integer back |
| Decimal.CDiv | src/optimizer/optimizer.c:172 | C division truncates toward zero: the remainder is smaller than the divisor in size, and it is zero or has the dividend's sign |
| Ast.PreOrder | src/ast.c:195-222 | the visiting order of `print_ast` lists one entry per reachable node, starting with the node itself |
| Ast.Levels | src/ast.c:195-222 | `print_ast` gives one level per visited node, the first being the level it was called with |
| Ast.PreOrderPositions | src/ast.c:195-222 | in the visiting order a node is followed by its `left`, its `right` comes after the whole of `left`, and its `next` after the whole of `right`; the children are printed one level deeper than the node and the sibling at the node's own level |
| Ast.AstLineAt | src/ast.c:195-222 | the k-th line printed is the line of the k-th node visited, indented by that node's level |
| Ast.FreeOrderVisitsEachNodeOnce | src/ast.c:225-245 | `free_ast` releases exactly the nodes `print_ast` visits, each once, so it releases one node per reachable node |
| Ast.LinkChain | src/ast.c:41-45 | following `next` to the end and relinking the nodes gives the tree back |
| Ast.ChainLink | src/ast.c:41-45 | linking a list of single nodes and walking the chain again gives the list back |
| Ast.CreateNode | src/ast.c:7-21 | a new node has the given kind and text, and empty `left`, `right` and `next` |
| Ast.AddSibling | src/ast.c:38-46 | with either argument NULL nothing changes; otherwise the sibling's chain is appended at the end of the node's chain, and earlier links are kept |
| Ast.AddChild | src/ast.c:24-35 | with NULL nothing changes; otherwise the child fills `left` if it is empty, else `right` if it is empty, else goes at the end of `right`'s chain; kind, text and `next` of the parent never change |
| Ast.AddChildAppends | src/ast.c:24-35 | attaching a single node appends it to the parent's list of children |
| Ast.MakeInt | src/ast.c:62-67 | an integer node's text reads back with `atoi` as the integer it was made from |
| Ast.MakeBinOp | src/ast.c:80-89 | a binary node holds the one-character operator, with the operands in `left` and `right` |
| Ast.MakeFor | src/ast.c:128-144 | the `for` node has the init in `left` and the condition in `right`; condition, update and body form one sibling chain; with no condition nothing is attached, and with no update no body is attached |
| Ast.ForLayout | src/ast.c:128-144 | with single-node condition and update, the update is the condition's `next` and the body is the update's `next` |
| Ast.TypeName | src/ast.c:174-192 | a kind outside the enumeration, and only such a kind, is named `UNKNOWN`; no name contains a line break |
| Ast.TypeNamesDistinct | src/ast.c:174-192 | different kinds get different names |
| Ast.AstLines | src/ast.c:195-222 | `print_ast` prints one line per reachable node |
| Ast.PrintAstOneLinePerNode | src/ast.c:195-222 | when no node text contains a line break, the printed text has exactly as many line breaks as there are reachable nodes |
| Optimizer.ValidNodeIsShallow | src/optimizer/optimizer.c:38-63 | the validator's verdict on a node does not depend on its `left`, `right` or `next` |
| Optimizer.IsConstantIgnoresSibling | src/optimizer/optimizer.c:125-142 | whether a node is constant does not depend on its `next` sibling |
| Optimizer.EvalAgreesWithValue | src/optimizer/optimizer.c:144-180 | for every arithmetic expression, the tree the parser builds is constant, and the evaluator gives the expression's value under truncating division, with division by zero giving 0 |
| Optimizer.Fold | src/optimizer/optimizer.c:182-211 | a constant binary node becomes one `Int` node with no `left`, `right` or `next`, whose text is the `%d` text of the value; any other node, and NULL, is returned unchanged; the value is kept, validity is kept, and the tree does not grow |
| Optimizer.FoldIdempotent | src/optimizer/optimizer.c:182-211 | folding twice is the same as folding once |
| Optimizer.FoldComputesValue | src/optimizer/optimizer.c:191-208 | folding a parsed arithmetic expression gives a single node whose text reads back as the expression's value |
| Optimizer.EliminateDeadCode | src/optimizer/optimizer.c:240-257 | a dead node is replaced by its old `next`, which may be NULL; a live node is returned unchanged; the released nodes and the kept ones add up to the original tree |
| Optimizer.UnrolledSequence | src/optimizer/optimizer.c:278-291 | the unrolling loop leaves the body followed by bound - 1 copies of the body's first node, each without children; it leaves NULL when there is no body or the bound is not positive |
| Optimizer.AppendClones | src/optimizer/optimizer.c:283-290 | appending k shallow clones keeps the body's kind, text and children, extends its chain by exactly k copies, and grows the tree by k nodes |
| Optimizer.UnrollLoop | src/optimizer/optimizer.c:259-303 | a constant loop with bound 1 to 4 and no update dereferences NULL, and only such a loop does; with update and body, it becomes the body chain followed by bound - 1 shallow copies; every other node is returned unchanged; the tree does not grow |
| Optimizer.ApplyPasses | src/optimizer/optimizer.c:76-104 | after the enabled passes a surviving tree is valid and no larger; with unrolling off the corrected driver always survives, and with unrolling and dead-code elimination off so does the code as written |
| Optimizer.Optimize | src/optimizer/optimizer.c:65-123 | NULL gives NULL; an invalid root is returned unchanged; a tree that survives is valid when the root was, and is no larger than the input |
| Optimizer.PassesRunInOrder | src/optimizer/optimizer.c:79-104 | the passes run in the order folding, dead-code elimination, unrolling, each on what the one before left; folding never makes a valid node invalid, so the first re-validation always passes |
| Optimizer.InvalidPassResultGivesNull | src/optimizer/optimizer.c:87-102 | when the validator rejects what dead-code elimination or unrolling left, `optimize_ast` returns NULL, dropping the node and all its slots |
| Optimizer.DriveRecursesIntoPassResult | src/optimizer/optimizer.c:107-122 | after the passes, the driver optimizes `left`, `right` and `next` of the node the passes left; it crashes exactly when one of those calls does, and otherwise returns that node with its slots replaced by their results |
| Optimizer.SplicedSuccessorIsNotFolded | src/optimizer/optimizer.c:79-120 | folding runs before elimination: with both on, `if (0) ...; 1 + 2` becomes the unfolded `1 + 2`, with either driver |
| Optimizer.SplicedLoopIsUnrolled | src/optimizer/optimizer.c:87-120 | elimination runs before unrolling: a loop that an `if (0)` leaves in its place is unrolled in the same call |
| Optimizer.OptimizeWithoutPassesIsIdentity | src/optimizer/optimizer.c:65-123 | with every pass disabled the driver returns the tree unchanged |
| Optimizer.WithoutPruningSucceeds | src/optimizer/optimizer.c:79-123 | with only folding enabled the driver never dereferences NULL, and a non-empty tree stays non-empty |
| Optimizer.FoldingOnlyFoldsEverything | src/optimizer/optimizer.c:79-123 | folding-only optimization leaves no foldable node anywhere in the tree and keeps the value of the root |
| Optimizer.FoldingKeepsNonConstant | src/optimizer/optimizer.c:79-123 | folding-only optimization of a non-constant tree leaves it non-constant |
| Optimizer.CrashPropagates | src/optimizer/optimizer.c:107-120 | a crash while optimizing a slot of a sequence, function or declaration crashes the whole call |
| Optimizer.DeadLastIfCrashes | src/optimizer/optimizer.c:88-107 | an `if` with a constant false condition and no successor crashes the driver; the corrected driver returns NULL |
| Optimizer.OptimizerTestCrashes | src/optimizer_test.c:13-78 | the program of the optimizer test crashes with folding and dead-code elimination on, and optimizes without crashing under the corrected driver |
| Optimizer.OptimizeCorrected | src/optimizer/optimizer.c:65-123 | with unrolling off, the corrected driver never dereferences NULL |
| Optimizer.CorrectedWithoutUnrollingSucceeds | src/optimizer/optimizer.c:65-123 | with unrolling off, the corrected driver completes on every tree |
| Optimizer.FoldDropsSiblings | src/optimizer/optimizer.c:207 | folding a node that has siblings leaves a chain of one node |
| Optimizer.FoldingDropsLoopUpdateAndBody | src/optimizer/optimizer.c:207 | folding a constant `for` condition loses the loop's update and body as written, and the corrected fold keeps all three |
| Optimizer.FoldKeepingSiblings | src/optimizer/optimizer.c:182-211 | corrected fold: the same replacement as `constant_folding`, with the `%d` text of the value, but the folded node keeps its `next` sibling |
| Optimizer.FoldKeepingSiblingsKeepsChain | src/optimizer/optimizer.c:182-211 | the corrected fold keeps the sibling chain's length and every node after the first |
| Optimizer.CorrectedFoldingKeepsChains | src/optimizer/optimizer.c:65-123 | the corrected driver with folding only never crashes, and keeps the length of the top-level chain |
| Optimizer.ReturnReplacedByDeadCode | src/optimizer/optimizer.c:248-253 | dead-code elimination on a `return` with successors removes the `return` and keeps the code after it |
| Optimizer.EliminateDeadCodeAfterReturn | src/optimizer/optimizer.c:222-253 | corrected elimination: a `return` keeps itself and loses its successors; a dead `if` is replaced by its successor; a live node is unchanged |
| Optimizer.UnrollCopiesOnlyFirstNode | src/optimizer/optimizer.c:284 | when the body has children or more than one statement, and the bound is at least 2, the unrolled chain is not bound copies of the body |
| Optimizer.RepeatChainCopies | src/optimizer/optimizer.c:279-291 | repeating a chain k times puts an exact copy of it in every slot |
| Optimizer.UnrollLoopDeep | src/optimizer/optimizer.c:259-303 | corrected unrolling: a small loop becomes its body chain repeated bound times, followed by the statements after the loop; every other node is unchanged |
| Optimizer.DeepUnrollKeepsSuccessors | src/optimizer/optimizer.c:293-295 | with the corrected unrolling, the statements that followed the loop come right after the last iteration |
| Optimizer.UnrollDropsLoopSuccessors | src/optimizer/optimizer.c:293-295 | as written, the unrolled sequence replaces the `for` node without the statements that followed the loop: its chain holds only the body and the copies |
| Optimizer.DeepUnrollRepeatsBody | src/optimizer/optimizer.c:279-291 | every one of the bound copies produced by corrected unrolling is the whole body chain |
| Codegen.WriteIndentation | src/codegen.c:5-9 | the indentation loop writes four spaces per level, and nothing for a level of zero or less |
| Codegen.Indent | src/codegen.c:5-9 | the indentation is 4 × level spaces |
| Codegen.GenerateCode | src/codegen.c:113-162 | NULL produces no text; when no node text holds a bracket, the C text has as many `{` as `}` and as many `(` as `)` |
| Codegen.EmitBracketsBalanced | src/codegen.c:11-162 | both code generators balance braces and parentheses when no node text holds a bracket |
| Codegen.EmitAddSibling | src/codegen.c:159-161 | the code of a chain extended with `add_sibling` is the code of the chain followed by the code of the added siblings |
| Codegen.IntLiteralCodeReadsBack | src/codegen.c:117-122 | the code for an integer node reads back with `atoi` as the integer |
| Codegen.StatementStartsIndented | src/codegen.c:29-111 | `if`, `for`, `return`, and declarations and functions with a name, start with the indentation of their level |
| Codegen.ForHeaderEchoesSiblings | src/codegen.c:60-86 | the `for` header as written prints condition, update and body where the condition belongs, and update and body where the update belongs |
| Codegen.GenerateCodeDetached | src/codegen.c:113-162 | corrected generator: NULL produces no text, and brackets balance as in the generator as written |
| Codegen.ForHeaderDetached | src/codegen.c:60-86 | with the corrected generator the header holds exactly init, condition and update, and the body follows one level deeper |
| Visualizer.NodeColor | src/visualizer/visualizer.c:5-23 | the eight listed kinds get a colour other than white and all others get white; exactly `if` and `for` are yellow |
| Visualizer.RenderAllConcat | src/visualizer/visualizer.c:31-59 | the text of two runs of lines is the text of the first followed by that of the second |
| Visualizer.NodeLinesNext | src/visualizer/visualizer.c:26-28 | writing a tree advances the counter by exactly its number of nodes; NULL leaves it unchanged |
| Visualizer.NodeLinesDeclarations | src/visualizer/visualizer.c:28-55 | the node declarations appear in pre-order, numbered one after another from the counter's starting value |
| Visualizer.DeclaredIdsInTurn | src/visualizer/visualizer.c:28-55 | the declared ids are the counter's starting value and the values after it, each once, in increasing order |
| Visualizer.NodeLinesEdgesTo | src/visualizer/visualizer.c:38-55 | for a non-empty tree, the edge targets are all the ids assigned after the root's, each exactly once, and every edge starts at an id of the tree and points to a larger one |
| Visualizer.NodeLinesEdges | src/visualizer/visualizer.c:38-53 | an edge from `p` to `c` is written exactly when the node numbered `p` has a `left`, `right` or `next` numbered `c` |
| Visualizer.NodeLinesSameRanks | src/visualizer/visualizer.c:50-54 | a `rank=same` line for `p` and `c` is written exactly when the node numbered `p` has a `next` numbered `c` |
| Visualizer.ChildIdAt | src/visualizer/visualizer.c:28-53 | the node numbered `p` is the node at `p` minus the starting id in the visiting order, and the ids of its children and sibling are counted from `p`: `left` gets `p + 1`, `right` the id after all of `left`, and `next` the id after all of `right` |
| Visualizer.SiblingIdAt | src/visualizer/visualizer.c:28-54 | the same for the sibling alone: the node numbered `p` has a `next` numbered `c` exactly when the node at its place in the visiting order has a `next`, and `c` follows all of that node's `left` and `right` |
| Visualizer.JoinsFollowPreOrder | src/visualizer/visualizer.c:28-54 | an edge from `p` to `c` is written exactly when `p` numbers a node of the tree and `c` numbers one of that node's filled slots; a `rank=same` line exactly when `c` numbers that node's `next` |
| Visualizer.EdgeJoinsParentToChild | src/visualizer/visualizer.c:38-53 | every edge goes from a node to a later node, and that node is its `left`, its `right` or its `next` |
| Visualizer.SameRankJoinsSiblings | src/visualizer/visualizer.c:50-54 | every `rank=same` line pairs a node with a later node that is its `next` |
| Visualizer.NodeLinesEdgeTargets | src/visualizer/visualizer.c:38-53 | the edge targets are the ids after the root's up to the last one assigned, each once |
| Visualizer.NodeLinesEdgesForward | src/visualizer/visualizer.c:38-53 | every edge starts at or after the root's id and points forward to an id within the tree |
| Visualizer.DotWriter.WriteNode | src/visualizer/visualizer.c:25-56 | the output grows by the text of the tree's lines, and the counter ends where numbering the tree leaves it |
| Visualizer.DotWriter.WriteSlot | src/visualizer/visualizer.c:38-55 | writing a present slot appends the child's lines, then the edge from the parent to the child's id, then for `next` the `rank=same` line |
| Visualizer.DotWriter.WriteEdge | src/visualizer/visualizer.c:58-60 | appends one edge line and leaves the counter alone |
| Visualizer.DotWriter.WriteHeader | src/visualizer/visualizer.c:69-73 | appends the four header lines and leaves the counter alone |
| Visualizer.DotText | src/visualizer/visualizer.c:69-80 | the DOT text starts with the header and ends with the closing brace line |
| Visualizer.GenerateDot | src/visualizer/visualizer.c:62-82 | the text written is the header, the tree numbered from 0, and the closing brace line |

## Left out

- Logging (`optimizer_log`, `set_log_level`, the global log level) writes only to stderr and does not change control flow. The `log_level` field of the flags is never read. Neither is modelled.
- Memory management is not modelled. This covers `malloc` failure ending the process, `strdup` copies, `free`, and the nodes the C leaks: the `for` node abandoned by unrolling, and the update and body `make_for_node` drops when there is no condition. Values in the model are not freed; `FreeOrder` states which nodes `free_ast` would release.
- File and stream output is not modelled: opening, writing and closing files, and `generate_html_visualization`. The functions that write to a `FILE*` return the text instead.
- `src/visual.c`, `src/web/app.py`, and the `main.c` files and test drivers are not part of this model. The optimizer test's program appears only as the input of `OptimizerTestCrashes`.
- The parser that builds trees is not part of this model. `ToTree` gives the tree it would build for an arithmetic expression.
- C `int` overflow in `+`, `-`, `*` and in `snprintf`/`atoi` is not modelled: integers are unbounded.
- In-place mutation is modelled by rebuilding values, so aliasing is not captured. For example, after unrolling, the C body is still also reachable from the leaked `for` node.
- Optimizer.UnrollLoopDeep is not used by the corrected driver, whose termination argument needs every pass not to grow the tree. The corrected driver keeps the shallow-copy unrolling as written.
- Codegen.GenerateCode: a binary node with no operator text prints `(null)`, the glibc rendering of a NULL `%s`; other C libraries may behave differently.
- Optimizer.Eval: a binary node with no operator text would make the C read through NULL; the model evaluates it to 0.
- The warning that `generate_code` prints to stderr for unknown kinds is not modelled; those kinds add no text.

## Findings

| source | as written | input that shows it | evidently intended | confidence | as-written member | corrected member |
|---|---|---|---|---|---|---|
| src/optimizer/optimizer.c:88-107 | dead-code elimination can return NULL; the re-validation accepts NULL, and the driver then reads `root->left` | an `if (0)` statement with no successor, such as the second statement of the optimizer test's program, with elimination on | stop at a NULL result and return it | not executed | Optimizer.DeadLastIfCrashes | Optimizer.CorrectedWithoutUnrollingSucceeds |
| src/optimizer/optimizer.c:248-253 | a `return` with successors is removed and the code after it is kept | `return 1;` followed by `x = 2;` becomes `x = 2;` | keep the `return` and remove the unreachable code after it | not executed | Optimizer.ReturnReplacedByDeadCode | Optimizer.EliminateDeadCodeAfterReturn |
| src/optimizer/optimizer.c:207 | `free_ast` on the folded node also releases its `next` chain, so the folded node's siblings are lost | a `for` loop whose condition is `1 + 1`: the update and the body, chained after the condition, disappear | the folded node takes over the old node's `next` | not executed | Optimizer.FoldingDropsLoopUpdateAndBody | Optimizer.FoldKeepingSiblingsKeepsChain |
| src/optimizer/optimizer.c:284 | each extra iteration copies only the kind and text of the body's first node | a loop with bound 2 whose body is `x = 1 + 2` or has two statements | each iteration is a deep copy of the whole body chain | not executed | Optimizer.UnrollCopiesOnlyFirstNode | Optimizer.DeepUnrollRepeatsBody |
| src/optimizer/optimizer.c:293-295 | the unrolled sequence is returned in place of the `for` node, and the `for` node's own `next`, the statements after the loop, is left behind with it | `for (; 2; i) x; return 0;`: the result is `x; x;` and the `return` is gone | the statements after the loop follow the last iteration | not executed | Optimizer.UnrollDropsLoopSuccessors | Optimizer.DeepUnrollKeepsSuccessors |
| src/codegen.c:71 | the condition is printed with `generate_code`, which goes on along its siblings, the update and the body | `for (i = 0; 1; i = 1) { x; }` is printed with update and body inside the header | print the condition and the update without their siblings | not executed | Codegen.ForHeaderEchoesSiblings | Codegen.ForHeaderDetached |
