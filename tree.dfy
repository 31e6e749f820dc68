/** The expression tree: TreeNode as a value, the three recursive
    traversals and the body lines of the Graphviz description. */
module ExpressionTree {
  import opened Symbols

  /** A node holds its symbol (`data`), its Graphviz identifier (`key`) and
      two nullable, exclusively owned children. */
  datatype Tree = Nil | Node(data: char, key: char, left: Tree, right: Tree)

  function Size(t: Tree): nat {
    match t
    case Nil => 0
    case Node(_, _, l, r) => 1 + Size(l) + Size(r)
  }

  /** Every node has no child or two children. */
  predicate Proper(t: Tree) {
    match t
    case Nil => true
    case Node(_, _, l, r) => (l == Nil <==> r == Nil) && Proper(l) && Proper(r)
  }

  /** A well-formed arithmetic expression: leaves hold operands, inner nodes
      hold binary operators, and every node has 0 or 2 children. */
  predicate IsExpression(t: Tree) {
    match t
    case Nil => false
    case Node(d, _, l, r) =>
      if l == Nil && r == Nil then IsOperand(d)
      else IsBinary(d) && IsExpression(l) && IsExpression(r)
  }

  /** All leaves hold letters or digits. */
  predicate AlnumLeaves(t: Tree) {
    match t
    case Nil => true
    case Node(d, _, l, r) =>
      (l == Nil && r == Nil ==> IsAlnum(d)) && AlnumLeaves(l) && AlnumLeaves(r)
  }

  /** The same symbols in the same shape; keys may differ. */
  predicate SameShape(a: Tree, b: Tree) {
    match a
    case Nil => b == Nil
    case Node(d, _, l, r) =>
      b.Node? && b.data == d && SameShape(l, b.left) && SameShape(r, b.right)
  }

  /** The operand symbols at the leaves, left to right. */
  function Leaves(t: Tree): string {
    match t
    case Nil => []
    case Node(d, _, l, r) =>
      if l == Nil && r == Nil then [d] else Leaves(l) + Leaves(r)
  }

  /** Fully parenthesised infix: a node with a child is wrapped in parentheses. */
  function Infix(t: Tree): (s: string)
    ensures Proper(t) && t != Nil ==> |s| == 2 * Size(t) - 1
  {
    match t
    case Nil => []
    case Node(d, _, l, r) =>
      if l != Nil || r != Nil then "(" + Infix(l) + [d] + Infix(r) + ")"
      else Infix(l) + [d] + Infix(r)
  }

  /** Node, then left, then right. */
  function Prefix(t: Tree): (s: string)
    ensures |s| == Size(t)
  {
    match t
    case Nil => []
    case Node(d, _, l, r) => [d] + Prefix(l) + Prefix(r)
  }

  /** Left, then right, then node. */
  function Postfix(t: Tree): (s: string)
    ensures |s| == Size(t)
  {
    match t
    case Nil => []
    case Node(d, _, l, r) => Postfix(l) + Postfix(r) + [d]
  }

  /** The keys in preorder and in postorder. */
  function PreKeys(t: Tree): (s: seq<char>)
    ensures |s| == Size(t)
  {
    match t
    case Nil => []
    case Node(_, k, l, r) => [k] + PreKeys(l) + PreKeys(r)
  }

  function PostKeys(t: Tree): (s: seq<char>)
    ensures |s| == Size(t)
  {
    match t
    case Nil => []
    case Node(_, k, l, r) => PostKeys(l) + PostKeys(r) + [k]
  }

  /** The number of non-null child links. */
  function Links(t: Tree): nat {
    match t
    case Nil => 0
    case Node(_, _, l, r) =>
      (if l != Nil then 1 else 0) + (if r != Nil then 1 else 0) + Links(l) + Links(r)
  }

  /** `  k [label="d"];` */
  function LabelLine(key: char, data: char): string {
    "  " + [key] + " [label=\"" + [data] + "\"];"
  }

  /** `  k -> c;` */
  function EdgeLine(from: char, to: char): string {
    "  " + [from] + " -> " + [to] + ";"
  }

  /** The lines visualizeTree writes for t, in order, without line ends:
      one per node and one per child link. */
  function Visualize(t: Tree): (lines: seq<string>)
    ensures |lines| == Size(t) + Links(t)
  {
    match t
    case Nil => []
    case Node(d, k, l, r) =>
      [LabelLine(k, d)]
      + (if l != Nil then [EdgeLine(k, l.key)] + Visualize(l) else [])
      + (if r != Nil then [EdgeLine(k, r.key)] + Visualize(r) else [])
  }

  predicate IsLabelLine(line: string) { |line| == 16 && line[4] == '[' }
  predicate IsEdgeLine(line: string) { |line| == 9 && line[4] == '-' }

  /** The symbols named by the label lines, in order. */
  function LabelData(lines: seq<string>): string {
    if lines == [] then []
    else (if IsLabelLine(lines[0]) then [lines[0][12]] else []) + LabelData(lines[1..])
  }

  /** The node identifiers named by the label lines, in order. */
  function LabelKeys(lines: seq<string>): seq<char> {
    if lines == [] then []
    else (if IsLabelLine(lines[0]) then [lines[0][2]] else []) + LabelKeys(lines[1..])
  }

  /** The targets of the edge lines, in order. */
  function EdgeTargets(lines: seq<string>): seq<char> {
    if lines == [] then []
    else (if IsEdgeLine(lines[0]) then [lines[0][7]] else []) + EdgeTargets(lines[1..])
  }

  /** The (source, target) keys of the edge lines, in order. */
  function EdgePairs(lines: seq<string>): seq<(char, char)> {
    if lines == [] then []
    else (if IsEdgeLine(lines[0]) then [(lines[0][2], lines[0][7])] else []) + EdgePairs(lines[1..])
  }

  /** Every node in preorder, paired with the key of its parent; the root is
      paired with p. */
  function ParentPairs(p: char, t: Tree): seq<(char, char)>
    decreases t
  {
    match t
    case Nil => []
    case Node(_, k, l, r) => [(p, k)] + ParentPairs(k, l) + ParentPairs(k, r)
  }

  lemma LineShapes(k: char, d: char, to: char)
    ensures IsLabelLine(LabelLine(k, d)) && !IsEdgeLine(LabelLine(k, d))
    ensures LabelLine(k, d)[2] == k && LabelLine(k, d)[12] == d
    ensures IsEdgeLine(EdgeLine(k, to)) && !IsLabelLine(EdgeLine(k, to))
    ensures EdgeLine(k, to)[2] == k && EdgeLine(k, to)[7] == to
  {
  }

  lemma {:induction false} ExtractAppend(a: seq<string>, b: seq<string>)
    ensures LabelData(a + b) == LabelData(a) + LabelData(b)
    ensures LabelKeys(a + b) == LabelKeys(a) + LabelKeys(b)
    ensures EdgeTargets(a + b) == EdgeTargets(a) + EdgeTargets(b)
  {
    if a != [] {
      assert (a + b)[0] == a[0] && (a + b)[1..] == a[1..] + b;
      ExtractAppend(a[1..], b);
    } else {
      assert a + b == b;
    }
  }

  lemma {:induction false} EdgePairsAppend(a: seq<string>, b: seq<string>)
    ensures EdgePairs(a + b) == EdgePairs(a) + EdgePairs(b)
  {
    if a != [] {
      assert (a + b)[0] == a[0] && (a + b)[1..] == a[1..] + b;
      EdgePairsAppend(a[1..], b);
    } else {
      assert a + b == b;
    }
  }

  lemma ExtractLabel(k: char, d: char)
    ensures LabelData([LabelLine(k, d)]) == [d]
    ensures LabelKeys([LabelLine(k, d)]) == [k]
    ensures EdgeTargets([LabelLine(k, d)]) == [] && EdgePairs([LabelLine(k, d)]) == []
  {
    LineShapes(k, d, k);
    assert [LabelLine(k, d)][1..] == [];
  }

  lemma ExtractEdge(k: char, to: char)
    ensures LabelData([EdgeLine(k, to)]) == []
    ensures LabelKeys([EdgeLine(k, to)]) == []
    ensures EdgeTargets([EdgeLine(k, to)]) == [to] && EdgePairs([EdgeLine(k, to)]) == [(k, to)]
  {
    LineShapes(k, k, to);
    assert [EdgeLine(k, to)][1..] == [];
  }

  /** The part of the output for one child: the edge line, then the child's lines. */
  function ChildLines(k: char, c: Tree): seq<string> {
    if c != Nil then [EdgeLine(k, c.key)] + Visualize(c) else []
  }

  lemma VisualizeSplit(t: Tree)
    requires t.Node?
    ensures Visualize(t) == [LabelLine(t.key, t.data)] + ChildLines(t.key, t.left) + ChildLines(t.key, t.right)
  {
  }

  /** One line per node and one per child link; a proper tree of n nodes
      takes 2n - 1 lines. */
  lemma {:induction false} VisualizeLineCount(t: Tree)
    ensures |Visualize(t)| == Size(t) + Links(t)
    ensures Proper(t) && t != Nil ==> |Visualize(t)| == 2 * Size(t) - 1
  {
    match t
    case Nil =>
    case Node(_, _, l, r) =>
      VisualizeLineCount(l);
      VisualizeLineCount(r);
  }

  /** The lines of a node split into its label line and its two children's parts. */
  lemma ExtractNode(k: char, d: char, lp: seq<string>, rp: seq<string>)
    ensures LabelData([LabelLine(k, d)] + lp + rp) == [d] + LabelData(lp) + LabelData(rp)
    ensures LabelKeys([LabelLine(k, d)] + lp + rp) == [k] + LabelKeys(lp) + LabelKeys(rp)
    ensures EdgeTargets([LabelLine(k, d)] + lp + rp) == EdgeTargets(lp) + EdgeTargets(rp)
  {
    ExtractLabel(k, d);
    ExtractAppend([LabelLine(k, d)], lp);
    ExtractAppend([LabelLine(k, d)] + lp, rp);
  }

  lemma NodeEdgePairs(k: char, d: char, lp: seq<string>, rp: seq<string>)
    ensures EdgePairs([LabelLine(k, d)] + lp + rp) == EdgePairs(lp) + EdgePairs(rp)
  {
    ExtractLabel(k, d);
    EdgePairsAppend([LabelLine(k, d)], lp);
    EdgePairsAppend([LabelLine(k, d)] + lp, rp);
  }

  lemma ExtractChild(k: char, c: Tree)
    ensures LabelData(ChildLines(k, c)) == LabelData(Visualize(c))
    ensures LabelKeys(ChildLines(k, c)) == LabelKeys(Visualize(c))
    ensures c != Nil ==> EdgeTargets(ChildLines(k, c)) == [c.key] + EdgeTargets(Visualize(c))
    ensures c != Nil ==> EdgePairs(ChildLines(k, c)) == [(k, c.key)] + EdgePairs(Visualize(c))
  {
    if c != Nil {
      ExtractEdge(k, c.key);
      ExtractAppend([EdgeLine(k, c.key)], Visualize(c));
      EdgePairsAppend([EdgeLine(k, c.key)], Visualize(c));
    }
  }

  /** The label lines visit the nodes in preorder, so their symbols spell the
      prefix traversal of the tree. */
  lemma {:induction false} VisualizeLabelData(t: Tree)
    ensures LabelData(Visualize(t)) == Prefix(t)
  {
    if t.Node? {
      VisualizeSplit(t);
      ExtractNode(t.key, t.data, ChildLines(t.key, t.left), ChildLines(t.key, t.right));
      ExtractChild(t.key, t.left);
      ExtractChild(t.key, t.right);
      VisualizeLabelData(t.left);
      VisualizeLabelData(t.right);
    }
  }

  /** The label lines name the node identifiers in preorder: one label line
      per node. */
  lemma {:induction false} VisualizeLabelKeys(t: Tree)
    ensures LabelKeys(Visualize(t)) == PreKeys(t)
  {
    if t.Node? {
      VisualizeSplit(t);
      ExtractNode(t.key, t.data, ChildLines(t.key, t.left), ChildLines(t.key, t.right));
      ExtractChild(t.key, t.left);
      ExtractChild(t.key, t.right);
      VisualizeLabelKeys(t.left);
      VisualizeLabelKeys(t.right);
    }
  }

  lemma ChildTargets(k: char, c: Tree)
    requires c != Nil ==> [c.key] + EdgeTargets(Visualize(c)) == PreKeys(c)
    ensures EdgeTargets(ChildLines(k, c)) == PreKeys(c)
  {
    ExtractChild(k, c);
  }

  /** Each node other than the root is the target of exactly one edge line,
      and the targets come in preorder: the root followed by the targets
      lists every key in preorder. */
  lemma {:induction false} VisualizeEdgeTargets(t: Tree)
    requires t != Nil
    ensures [t.key] + EdgeTargets(Visualize(t)) == PreKeys(t)
  {
    var l, r := t.left, t.right;
    VisualizeSplit(t);
    ExtractNode(t.key, t.data, ChildLines(t.key, l), ChildLines(t.key, r));
    if l != Nil {
      VisualizeEdgeTargets(l);
    }
    if r != Nil {
      VisualizeEdgeTargets(r);
    }
    ChildTargets(t.key, l);
    ChildTargets(t.key, r);
    Assoc([t.key], PreKeys(l), PreKeys(r));
  }

  lemma ChildEdgePairs(k: char, c: Tree)
    requires c != Nil ==> [(k, c.key)] + EdgePairs(Visualize(c)) == ParentPairs(k, c)
    ensures EdgePairs(ChildLines(k, c)) == ParentPairs(k, c)
  {
    ExtractChild(k, c);
  }

  /** Each edge line runs from a node's parent to the node: the edge lines
      list every parent-child link once, in preorder of the child. With the
      root paired with p in front, they are the nodes in preorder, each
      with its parent. */
  lemma {:induction false} VisualizeEdgePairs(t: Tree, p: char)
    requires t != Nil
    ensures [(p, t.key)] + EdgePairs(Visualize(t)) == ParentPairs(p, t)
  {
    var l, r := t.left, t.right;
    VisualizeSplit(t);
    NodeEdgePairs(t.key, t.data, ChildLines(t.key, l), ChildLines(t.key, r));
    if l != Nil {
      VisualizeEdgePairs(l, t.key);
    }
    if r != Nil {
      VisualizeEdgePairs(r, t.key);
    }
    ChildEdgePairs(t.key, l);
    ChildEdgePairs(t.key, r);
    Assoc([(p, t.key)], ParentPairs(t.key, l), ParentPairs(t.key, r));
  }

  /** Every edge line is directly followed by the label line of its target. */
  lemma {:induction false} EdgeThenTarget(t: Tree, i: nat)
    requires i < |Visualize(t)| && IsEdgeLine(Visualize(t)[i])
    ensures i + 1 < |Visualize(t)| && IsLabelLine(Visualize(t)[i + 1])
    ensures Visualize(t)[i + 1][2] == Visualize(t)[i][7]
    decreases t, 1
  {
    match t
    case Node(d, k, l, r) =>
      var lp := ChildLines(k, l);
      var rp := ChildLines(k, r);
      VisualizeSplit(t);
      LineShapes(k, d, k);
      if i == 0 {
        assert false;
      } else if i <= |lp| {
        PartThenTarget([LabelLine(k, d)], lp, rp, i - 1);
        ChildThenTarget(k, l, i - 1);
      } else {
        PartThenTarget([LabelLine(k, d)] + lp, rp, [], i - 1 - |lp|);
        ChildThenTarget(k, r, i - 1 - |lp|);
        assert [LabelLine(k, d)] + lp + rp + [] == Visualize(t);
      }
  }

  /** Lines inside the middle part of a listing are those of the part. */
  lemma PartThenTarget(a: seq<string>, m: seq<string>, b: seq<string>, j: nat)
    requires j < |m|
    ensures (a + m + b)[|a| + j] == m[j]
    ensures j + 1 < |m| ==> (a + m + b)[|a| + j + 1] == m[j + 1]
  {
  }

  /** The index fact ChildThenTarget needs: an edge line put before a
      node's lines shifts them by one. */
  lemma ConsIndex(e: string, v: seq<string>, j: nat)
    requires j < |v|
    ensures ([e] + v)[0] == e && ([e] + v)[j + 1] == v[j]
  {
  }

  /** A node's lines start with its label line. */
  lemma FirstLine(t: Tree)
    requires t.Node?
    ensures |Visualize(t)| >= 1 && Visualize(t)[0] == LabelLine(t.key, t.data)
  {
    VisualizeSplit(t);
  }

  /** The same within one child's part: its edge line is followed by the
      child's own first line, the child's label line. */
  lemma {:induction false} ChildThenTarget(k: char, c: Tree, j: nat)
    requires j < |ChildLines(k, c)| && IsEdgeLine(ChildLines(k, c)[j])
    ensures j + 1 < |ChildLines(k, c)| && IsLabelLine(ChildLines(k, c)[j + 1])
    ensures ChildLines(k, c)[j + 1][2] == ChildLines(k, c)[j][7]
    decreases c, 2
  {
    match c
    case Node(d, ck, _, _) =>
      var e, v := EdgeLine(k, ck), Visualize(c);
      FirstLine(c);
      if j == 0 {
        ConsIndex(e, v, 0);
        LineShapes(k, d, ck);
        LineShapes(ck, d, ck);
      } else {
        ConsIndex(e, v, j - 1);
        EdgeThenTarget(c, j - 1);
        ConsIndex(e, v, j);
      }
  }

  /** The three traversals are rearrangements of the same symbols. */
  lemma {:induction false} TraversalsPermute(t: Tree)
    ensures multiset(Prefix(t)) == multiset(Postfix(t))
    ensures multiset(PreKeys(t)) == multiset(PostKeys(t))
  {
    match t
    case Nil =>
    case Node(_, _, l, r) =>
      TraversalsPermute(l);
      TraversalsPermute(r);
  }

  /** All traversals of an expression list its operands in the same
      left-to-right order. */
  lemma {:induction false} PrefixKeepsOperandOrder(t: Tree)
    requires IsExpression(t)
    ensures Operands(Prefix(t)) == Leaves(t)
  {
    match t
    case Node(d, _, l, r) =>
      if l == Nil && r == Nil {
        assert Prefix(t) == [d];
      } else {
        PrefixKeepsOperandOrder(l);
        PrefixKeepsOperandOrder(r);
        OperandsAppend([d], Prefix(l));
        OperandsAppend([d] + Prefix(l), Prefix(r));
      }
  }

  lemma {:induction false} PostfixKeepsOperandOrder(t: Tree)
    requires IsExpression(t)
    ensures Operands(Postfix(t)) == Leaves(t)
  {
    match t
    case Node(d, _, l, r) =>
      if l == Nil && r == Nil {
        assert Postfix(t) == [d];
      } else {
        PostfixKeepsOperandOrder(l);
        PostfixKeepsOperandOrder(r);
        OperandsAppend(Postfix(l), Postfix(r));
        OperandsAppend(Postfix(l) + Postfix(r), [d]);
      }
  }

  /** A parenthesised group `(a d b)` holds the operands of a, then of b. */
  lemma GroupOperands(a: string, d: char, b: string)
    requires IsBinary(d)
    ensures Operands("(" + a + [d] + b + ")") == Operands(a) + Operands(b)
  {
    assert Operands("(") == [] && Operands(")") == [] && Operands([d]) == [];
    OperandsAppend("(", a);
    OperandsAppend("(" + a, [d]);
    OperandsAppend("(" + a + [d], b);
    OperandsAppend("(" + a + [d] + b, ")");
  }

  lemma {:induction false} InfixKeepsOperandOrder(t: Tree)
    requires IsExpression(t)
    ensures Operands(Infix(t)) == Leaves(t)
  {
    match t
    case Node(d, _, l, r) =>
      if l == Nil && r == Nil {
        assert Infix(t) == [d];
      } else {
        InfixKeepsOperandOrder(l);
        InfixKeepsOperandOrder(r);
        GroupOperands(Infix(l), d, Infix(r));
      }
  }

  /** Traversals depend on the symbols and the shape only, not on the keys. */
  lemma {:induction false} SameShapeTraversals(a: Tree, b: Tree)
    requires SameShape(a, b)
    ensures Infix(a) == Infix(b) && Prefix(a) == Prefix(b) && Postfix(a) == Postfix(b)
    ensures Size(a) == Size(b) && Leaves(a) == Leaves(b)
  {
    match a
    case Nil =>
    case Node(_, _, l, r) =>
      SameShapeTraversals(l, b.left);
      SameShapeTraversals(r, b.right);
  }

  /** A prefix reader: one operand, or an operator followed by two prefix
      expressions. It returns the postfix form of the expression it read and
      the rest of the input. */
  function ReadPrefix(s: string): (r: Option<(string, string)>)
    ensures r.Some? ==> |r.value.1| < |s|
    decreases |s|
  {
    if s == [] then None
    else if IsOperand(s[0]) then Some(([s[0]], s[1..]))
    else if !IsBinary(s[0]) then None
    else
      match ReadPrefix(s[1..])
      case None => None
      case Some((left, rest)) =>
        match ReadPrefix(rest)
        case None => None
        case Some((right, rest')) => Some((left + right + [s[0]], rest'))
  }

  datatype Option<T> = None | Some(value: T)

  /** Reading `d a b` where a reads back to pl ahead of b and b to pr. */
  lemma ReadOperator(d: char, a: string, b: string, rest: string, pl: string, pr: string)
    requires IsBinary(d)
    requires ReadPrefix(a + (b + rest)) == Some((pl, b + rest))
    requires ReadPrefix(b + rest) == Some((pr, rest))
    ensures ReadPrefix([d] + a + b + rest) == Some((pl + pr + [d], rest))
  {
    PrefixTail(d, a, b, rest);
  }

  lemma PrefixTail(d: char, a: string, b: string, rest: string)
    ensures ([d] + a + b + rest)[0] == d && ([d] + a + b + rest)[1..] == a + (b + rest)
  {
    var s := [d] + a + b + rest;
    assert s[1..] == a + (b + rest);
  }

  /** Re-reading the prefix traversal of an expression yields its postfix
      traversal, whatever follows it. */
  lemma {:induction false} PrefixReadsBack(t: Tree, rest: string)
    requires IsExpression(t)
    ensures ReadPrefix(Prefix(t) + rest) == Some((Postfix(t), rest))
  {
    match t
    case Node(d, _, l, r) =>
      if l == Nil && r == Nil {
        var s := Prefix(t) + rest;
        assert Prefix(t) == [d] && Postfix(t) == [d];
        assert s[0] == d && s[1..] == rest;
      } else {
        PrefixReadsBack(l, Prefix(r) + rest);
        PrefixReadsBack(r, rest);
        ReadOperator(d, Prefix(l), Prefix(r), rest, Postfix(l), Postfix(r));
      }
  }
}
