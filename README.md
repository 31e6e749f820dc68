# arithmeticExpression in Dafny

A model of `arithmeticExpression.cpp`, a two-stage pipeline over
single-character operands:

- `infix_to_postfix` converts an infix expression (binary `+ - * /`,
  parentheses, spaces) to postfix notation with an operator stack
  (shunting-yard).
- `buildTree` reads that postfix string with a stack of tree nodes and builds
  an expression tree. Every node it creates gets the next identifier `key`,
  starting at `'a'`.
- `infix`, `prefix` and `postfix` print the tree's traversals.
- `visualizeTree` writes a Graphviz description of the tree: one label line
  per node and one edge line per child link.

The files:

- `symbols.dfy` (`Symbols`): the character classes, `priority`, and the
  error kinds.
- `tree.dfy` (`ExpressionTree`): the tree as a datatype, and the four
  recursive traversals as functions returning strings or lines.
- `conversion.dfy` (`Conversion`): one step of `infix_to_postfix` per input
  character, over an operator stack (top first) and the output written so
  far, then the final drain.
- `precedence.dfy` (`Precedence`): what the conversion computes on
  well-formed input. A `Form` is a way of writing an expression tree, with
  parentheses wherever the writer chose. `Renders` says that precedence and
  left-associativity read the form as that tree. Every such text converts to
  the tree's postfix traversal, and so does the same text with spaces added
  anywhere. Two renderings are forms of this kind: the fully parenthesised
  `infix` output, and `Show`, which writes only the parentheses that are
  needed.
- `building.dfy` (`Building`): one step of `buildTree` per postfix character,
  over a stack of trees (top last), with the 8-bit key counter.
- `expression.dfy` (`Expressions`): the `arithmeticExpression` object as a
  class with the fields `infixExpression` and `root`.
  - `InfixToPostfix` and `BuildTree` are the source's loops, written as
    loops and proved equal to the step functions.
  - `BuildTree` updates `root`.
- `pipeline.dfy` (`Pipeline`): the two stages composed, and worked examples.

Where the source's behaviour is undefined, the model returns an error
instead (`Malformed`). This covers `top()` on an empty stack: a `)` with no
open `(` at line 104, an operator with fewer than two nodes at lines 28-30,
and an empty postfix string at line 40. On each such error `BuildTree`
leaves `root` unchanged.

Two behaviours of the code that a stricter implementation would treat as
errors are modelled as the code has them:

- When more than one node is left on the stack, the code makes the top one
  the root and drops the others. It does not reject the expression
  (`Building.Build`, `Building.BuildLeftover`, `Pipeline.ExampleLeftover`).
- The traversals of a null root print nothing and report no error. In the
  model the traversals of `Nil` are empty.

The two stages tell operands apart differently. `infix_to_postfix` copies
every character that is neither a space nor one of `+-*/()` to the output as
an operand. `buildTree` uses `isalnum` instead. The model keeps the two tests
apart: `IsOperand` and `IsAlnum` (the "C" locale).

## Model

| member | source | states |
|---|---|---|
| Symbols.Priority | arithmeticExpression.cpp:75-85 | 3 exactly for `(`, 2 exactly for `*` and `/`, 1 exactly for `+` and `-`, 0 for every other character (operands, `)`, space) |
| Expressions.ArithmeticExpression.constructor | arithmeticExpression.cpp:8-11 | the object holds the given expression and a null root |
| Expressions.ArithmeticExpression.InfixToPostfix | arithmeticExpression.cpp:88-132 | the loop with its space skip, `(` push, `)` pop loop, operator pop loop with the break at `(`, operand copy and final drain returns exactly the conversion `Conversion.InfixToPostfix` of the stored text; a `)` that finds the stack empty returns `UnmatchedClose` |
| Conversion.PopHigher | arithmeticExpression.cpp:111-117 | the operator pop loop moves operators from the stack to the output: the drained result is unchanged and the stack does not grow |
| Conversion.PopToOpen | arithmeticExpression.cpp:104-108 | the `)` pop loop fails, with `UnmatchedClose`, exactly when no `(` is on the stack; otherwise the drained result is the new one with the discarded `(` between output and stack |
| Conversion.Step | arithmeticExpression.cpp:96-122 | one input character fails exactly when it is a `)` and no `(` is on the stack, and the failure is `UnmatchedClose` |
| Conversion.Run | arithmeticExpression.cpp:94-123 | the loop over the input can only fail with `UnmatchedClose` |
| Conversion.InfixToPostfix | arithmeticExpression.cpp:88-132 | the conversion can only fail with `UnmatchedClose` |
| Conversion.ConvertFailsIff | arithmeticExpression.cpp:102-108 | the conversion fails if and only if some prefix of the input closes more parentheses than it opens |
| Conversion.ConvertKeepsOperands | arithmeticExpression.cpp:94-129 | the output holds the input's operands in input order, and every binary operator of the input exactly once (as a multiset) |
| Conversion.ConvertDropsParens | arithmeticExpression.cpp:96-108 | the output has no space and no `)`, and holds one `(` for each `(` of the input that is never closed |
| Conversion.BalancedConverts | arithmeticExpression.cpp:99-129 | input with balanced parentheses converts without error, and the output holds only operands and binary operators |
| Conversion.RunGood | arithmeticExpression.cpp:99-119 | the operator stack only ever holds `+ - * /` and `(`, and the output only operands and binary operators |
| Conversion.RunCount | arithmeticExpression.cpp:100-108 | the `(` on the stack are exactly those read and not yet closed |
| Conversion.PopHigherKeeps | arithmeticExpression.cpp:111-117 | the operator pop loop moves operators from the stack top to the output; it stops at an empty stack, at `(`, or at an operator the new one outranks |
| Conversion.PopToOpenKeeps | arithmeticExpression.cpp:104-108 | the `)` pop loop fails exactly when no `(` is on the stack; otherwise it writes the operators above the topmost `(` and discards that `(` |
| Conversion.StepShape | arithmeticExpression.cpp:96-122 | one input character: a space changes nothing; `)` removes one `(`; any other character is inserted between output and stack after the pops; only `)` with no `(` fails |
| Conversion.TwoOperators | arithmeticExpression.cpp:111-118 | in `a o1 b o2 c` the earlier operator is written first unless the later one has strictly higher priority: equal priorities associate to the left (`a-b-c` gives `ab-c-`), and `a+b*c` gives `abc*+` |
| Precedence.PopAll | arithmeticExpression.cpp:111-117 | the operator pop loop writes pending operators the new one does not outrank and stops at what lies below them |
| Precedence.PopToMatching | arithmeticExpression.cpp:104-108 | the `)` loop writes the operators above the matching `(` in pop order and discards the `(` |
| Precedence.PendingCompletes | arithmeticExpression.cpp:111-128 | the operators a subexpression leaves on the stack are binary operators that bind no looser than it, and writing them out completes its postfix form |
| Precedence.FormRuns | arithmeticExpression.cpp:94-123 | reading a subexpression, when the stack top does not outrank it, writes its postfix form except the operators left pending on the stack; a parenthesised one leaves the stack as it found it |
| Precedence.RendersExpression | arithmeticExpression.cpp:99-123 | a text that precedence reads as a tree has operands at that tree's leaves and binary operators at its inner nodes |
| Precedence.RendersConverts | arithmeticExpression.cpp:88-132 | every text that precedence and left-associativity read as an expression tree converts to that tree's postfix traversal, however many redundant parentheses it holds |
| Precedence.SpacedConverts | arithmeticExpression.cpp:94-98 | the same with spaces anywhere in the text |
| Precedence.InfixRenders | arithmeticExpression.cpp:135-147 | the fully parenthesised infix traversal is a text that precedence reads as its tree |
| Precedence.ShowConverts | arithmeticExpression.cpp:88-132 | for every expression tree, its rendering with only the parentheses precedence and left-associativity need converts to its postfix traversal |
| Precedence.InfixConverts | arithmeticExpression.cpp:135-147 | the fully parenthesised infix traversal of any expression tree converts back to its postfix traversal |
| Conversion.RunSkipsSpaces | arithmeticExpression.cpp:94-98 | the loop reads any text, to an error or not, exactly as it reads the text without its spaces |
| Conversion.SpacesIgnored | arithmeticExpression.cpp:94-98 | spaces never change what the conversion returns |
| Building.KeyOf | arithmeticExpression.cpp:17-32 | the key of the n-th node is below 256, and is the character with code 97 + n as long as the counter has not wrapped |
| Building.NextKey | arithmeticExpression.cpp:23-32 | `key++` on an 8-bit `char` adds one, and wraps from 255 to 0 |
| Building.NextKeyOf | arithmeticExpression.cpp:17-23 | `key++` on an 8-bit `char` takes the key of the n-th node to the key of the (n+1)-th |
| Building.KeysDistinct | arithmeticExpression.cpp:17-32 | the keys of the first n nodes are pairwise distinct if and only if n <= 256 |
| Building.KeysLetters | arithmeticExpression.cpp:17-32 | the keys of the first n nodes are all lower-case letters if and only if n <= 26 |
| Expressions.ArithmeticExpression.BuildTree | arithmeticExpression.cpp:14-41 | the loop over the postfix string, pushing a new keyed leaf per letter or digit and combining the two top nodes per other character, returns exactly `Building.BuildFrom` of the stored text; `root` becomes the top node on success and is unchanged on every error |
| Building.Step | arithmeticExpression.cpp:21-35 | one postfix character fails, with `MissingOperand` at its index, exactly when it is not a letter or digit and fewer than two nodes are stacked; otherwise the stack grows by one for a letter or digit and shrinks by one for any other character |
| Building.Run | arithmeticExpression.cpp:20-37 | the loop can only fail with `MissingOperand`, at the index of a character it read |
| Building.Build | arithmeticExpression.cpp:20-40 | an empty postfix string gives `NoOperand`; any other failure is `MissingOperand` at an index inside the string |
| Building.RunHeight | arithmeticExpression.cpp:20-37 | the node stack grows by one per letter or digit and shrinks by one per other character |
| Building.RunFormed | arithmeticExpression.cpp:20-37 | every tree on the node stack has letters or digits at its leaves and two children at every other node |
| Building.FormedIsProper | arithmeticExpression.cpp:21-35 | every node built has no child or two children |
| Building.RunPosts | arithmeticExpression.cpp:28-35 | the postorders of the stacked trees, bottom to top, spell the postfix string read: the left child is the second node popped, the right child the first |
| Building.RunKeyPosts | arithmeticExpression.cpp:17-35 | the keys of the stacked trees in postorder are the keys of the nodes created, in creation order |
| Building.RunFailsIff | arithmeticExpression.cpp:28-31 | the loop fails if and only if some operator finds fewer than two nodes |
| Building.RunErrorAt | arithmeticExpression.cpp:28-31 | a failure names the index of an operator that found fewer than two nodes, and the string before it reads without failure |
| Building.BuildEmpty | arithmeticExpression.cpp:40 | taking the root fails with `NoOperand` if and only if the postfix string is empty |
| Building.BuildFailsIff | arithmeticExpression.cpp:20-40 | building fails if and only if the postfix string is empty or some operator finds fewer than two nodes |
| Building.BuildRoot | arithmeticExpression.cpp:40 | a built root is a well-formed tree whose postorder ends the postfix string |
| Building.BuildLeftover | arithmeticExpression.cpp:40 | the root covers the whole postfix string exactly when one node is left; with more left, it covers a proper suffix and the trees below it are lost |
| Building.BuildWhole | arithmeticExpression.cpp:20-40 | when letters and digits outnumber the other characters by exactly one, the root's postorder is the whole postfix string and its keys in postorder run from `'a'` in creation order |
| Building.BuiltKeysDistinct | arithmeticExpression.cpp:17-40 | the nodes of a tree built from a whole expression have pairwise distinct keys if and only if the postfix string has at most 256 symbols |
| Building.BuildPostfix | arithmeticExpression.cpp:20-40 | building from the postorder of a well-formed tree gives that tree back, with keys renumbered in postorder |
| ExpressionTree.Infix | arithmeticExpression.cpp:135-147 | a tree of n nodes, each with 0 or 2 children, prints as 2n - 1 characters |
| ExpressionTree.Prefix | arithmeticExpression.cpp:150-156 | one symbol per node |
| ExpressionTree.Postfix | arithmeticExpression.cpp:159-165 | one symbol per node |
| ExpressionTree.TraversalsPermute | arithmeticExpression.cpp:150-165 | prefix and postfix list the same symbols, and the same keys, rearranged |
| ExpressionTree.InfixKeepsOperandOrder | arithmeticExpression.cpp:135-147 | the infix traversal lists an expression's operands left to right |
| ExpressionTree.PrefixKeepsOperandOrder | arithmeticExpression.cpp:150-156 | the prefix traversal lists an expression's operands left to right |
| ExpressionTree.PostfixKeepsOperandOrder | arithmeticExpression.cpp:159-165 | the postfix traversal lists an expression's operands left to right |
| ExpressionTree.PrefixReadsBack | arithmeticExpression.cpp:150-156 | the prefix traversal of an expression parses back, as a prefix expression, to its postfix traversal, whatever follows it |
| ExpressionTree.SameShapeTraversals | arithmeticExpression.cpp:135-165 | the traversals depend on the symbols and the shape only, not on the keys |
| ExpressionTree.Visualize | arithmeticExpression.cpp:168-180 | a label line, then for each non-null child its edge line and that child's lines, as lines 170-177 write them: one line per node and one per child link |
| ExpressionTree.LineShapes | arithmeticExpression.cpp:170-176 | a label line carries the key at column 2 and the symbol at column 12; an edge line carries the source key at column 2 and the target key at column 7; the two kinds are told apart |
| ExpressionTree.VisualizeLineCount | arithmeticExpression.cpp:168-180 | one line per node plus one per child link; 2n - 1 lines for a tree of n nodes with 0 or 2 children each |
| ExpressionTree.VisualizeLabelData | arithmeticExpression.cpp:168-180 | the label lines come in preorder: their symbols spell the prefix traversal |
| ExpressionTree.VisualizeLabelKeys | arithmeticExpression.cpp:168-180 | the label lines name every key once, in preorder |
| ExpressionTree.VisualizeEdgeTargets | arithmeticExpression.cpp:171-177 | the root followed by the edge targets lists every key in preorder: every node but the root is the target of exactly one edge |
| ExpressionTree.VisualizeEdgePairs | arithmeticExpression.cpp:171-177 | each edge line runs from a node's parent to the node: the (source, target) keys of the edge lines are every parent-child link once, in preorder of the child |
| ExpressionTree.EdgeThenTarget | arithmeticExpression.cpp:171-177 | every edge line is directly followed by the label line of its target |
| Expressions.ArithmeticExpression.Infix | arithmeticExpression.cpp:44-46 | for an expression tree, converting what infix() prints gives back the root's postfix traversal |
| Expressions.ArithmeticExpression.Prefix | arithmeticExpression.cpp:49-51 | for an expression tree, what prefix() prints reads back to the root's postfix traversal |
| Expressions.ArithmeticExpression.Postfix | arithmeticExpression.cpp:54-56 | postfix() prints one symbol per node, the same symbols prefix() prints |
| Expressions.ArithmeticExpression.VisualizeTree | arithmeticExpression.cpp:65-67 | the file starts with `digraph G {`, ends with `}`, and has one line per node and per child link in between |
| Pipeline.ShowBuilds | arithmeticExpression.cpp:14-41 | building from an expression with only the needed parentheses gives back the same tree, keys renumbered |
| Pipeline.InfixBuilds | arithmeticExpression.cpp:14-41 | building from the fully parenthesised infix form gives back the same tree, keys renumbered |
| Pipeline.RenderingBuilds | arithmeticExpression.cpp:14-41 | building from any text that precedence reads as an expression tree over letters and digits, with redundant parentheses and spaces anywhere, gives back that tree, keys renumbered |
| Pipeline.RebuiltTraversals | arithmeticExpression.cpp:14-41 | the rebuilt tree prints the original's infix, prefix and postfix traversals, and its keys in postorder run from `'a'` |
| Pipeline.ExampleProduct | arithmeticExpression.cpp:111-118 | `a+b*c` converts to `abc*+` and prints as `(a+(b*c))` |
| Pipeline.ExampleGrouped | arithmeticExpression.cpp:100-108 | `(a+b)*c` converts to `ab+c*` and prints as `((a+b)*c)` |
| Pipeline.ExampleLeftAssociative | arithmeticExpression.cpp:111-118 | `a-b-c` converts to `ab-c-` and prints as `((a-b)-c)` |
| Pipeline.ExampleRedundant | arithmeticExpression.cpp:94-118 | `((a)) + (b*c)` converts to `abc*+` and builds the same tree as `a+b*c` |
| Pipeline.ExampleUnmatchedClose | arithmeticExpression.cpp:104 | `)a+b` reports an unmatched `)` |
| Pipeline.ExampleEmpty | arithmeticExpression.cpp:40 | the empty expression converts to the empty string, from which no root can be taken |
| Pipeline.ExampleMissingOperand | arithmeticExpression.cpp:28-30 | `+a` converts to `a+`, whose `+` at index 1 finds only one node |
| Pipeline.ExampleLeftover | arithmeticExpression.cpp:40 | `a b` converts to `ab`; the top node, the leaf `b` with key `b`, becomes the root and the leaf `a` is dropped |

## Left out

- Writing to `cout` in `infix`, `prefix` and `postfix` (lines 138-163): each traversal is a function returning the string it would print.
- File handling in `visualizeTree(outputFilename)` (lines 59-64 and 68): opening and closing the file and the open-error message are not modelled. The file's lines are returned as a sequence of strings, without line ends.
- Building the `.jpg` file name and running `dot` through `system` (lines 69-71): this is a call to an outside process.
- Memory: `new TreeNode` (lines 23 and 32), the nodes dropped when more than one is left, and the absence of any deletion. The tree is a datatype value, so two nodes never share a child, and pointer identity is not modelled.
- The locale dependence of `isalnum` (line 21): the model uses the "C" locale's ASCII letters and digits.
- Bytes: the source's `char` and `std::string` hold bytes, while a Dafny `char` is a Unicode scalar value. The model agrees with the source only on ASCII input. A non-ASCII character such as `é` is one operand in the model but two bytes in the source. `isalnum` on a negative `char` at line 21 is undefined, while the model's `IsAlnum` simply rejects the character, so `buildTree` treats it as an operator. The keys of the 32nd and later nodes have codes from 128 up. The model gives them the character with code `(97 + n) % 256`, while the source writes a raw byte, negative where `char` is signed.
- `arithmeticExpression.h` is not part of this model. The `TreeNode` fields (`data`, `key`, `left`, `right`) are inferred from their uses. `key` is taken to be a `char`, like the counter at line 17. The label and edge lines, and their column positions, depend on this.
- Undefined behaviour is modelled as an error result, not as whatever the program might do. This covers `top()` or `pop()` on an empty stack at lines 28-31, 40 and 104.
- Expressions.ArithmeticExpression.BuildTree: when the conversion fails, the source would carry on with undefined behaviour. The model stops and reports the conversion's error, with `root` unchanged.
