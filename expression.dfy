/** The arithmeticExpression object: it holds the infix text and, once
    built, the root of its expression tree. */
module Expressions {
  import opened Symbols
  import ExpressionTree
  import Conversion
  import Building
  import Precedence

  type Tree = ExpressionTree.Tree

  class ArithmeticExpression {
    var infixExpression: string
    var root: Tree

    constructor(expression: string)
      ensures infixExpression == expression && root == ExpressionTree.Nil
    {
      infixExpression := expression;
      root := ExpressionTree.Nil;
    }

    /** infix_to_postfix: one pass over the infix text with an operator stack
        (top first), then the stack is drained to the output. A `)` that
        meets an empty stack is reported rather than read past. */
    method InfixToPostfix() returns (r: Result<string>)
      ensures r == Conversion.InfixToPostfix(infixExpression)
    {
      var s: seq<char> := [];
      var oss: string := [];
      var i := 0;
      while i < |infixExpression|
        invariant 0 <= i <= |infixExpression|
        invariant Conversion.Run(infixExpression, Conversion.Start)
                  == Conversion.Run(infixExpression[i..], Conversion.State(s, oss))
      {
        var c := infixExpression[i];
        ghost var before := Conversion.State(s, oss);
        assert infixExpression[i..][0] == c && infixExpression[i..][1..] == infixExpression[i + 1..];
        if c == ' ' {
        } else if IsOperator(c) {
          if c == '(' {
            s := [c] + s;
          } else if c == ')' {
            while s != [] && s[0] != '('
              invariant Conversion.PopToOpen(Conversion.State(s, oss)) == Conversion.PopToOpen(before)
              decreases |s|
            {
              oss := oss + [s[0]];
              s := s[1..];
            }
            if s == [] {
              return Err(UnmatchedClose);
            }
            s := s[1..];
          } else {
            while s != [] && Priority(c) <= Priority(s[0])
              invariant Conversion.PopHigher(c, Conversion.State(s, oss)) == Conversion.PopHigher(c, before)
              decreases |s|
            {
              if s[0] == '(' {
                break;
              }
              oss := oss + [s[0]];
              s := s[1..];
            }
            s := [c] + s;
          }
        } else {
          oss := oss + [c];
        }
        assert Conversion.Step(before, c) == Ok(Conversion.State(s, oss));
        i := i + 1;
      }
      assert infixExpression[i..] == [];
      ghost var final := Conversion.State(s, oss);
      while s != []
        invariant oss + s == Conversion.Flat(final)
        decreases |s|
      {
        oss := oss + [s[0]];
        s := s[1..];
      }
      assert oss + s == oss;
      return Ok(oss);
    }

    /** buildTree: converts the infix text, then reads the postfix string
        with a node stack (top last), giving every new node the next key.
        The top of the stack becomes the root; the root is left as it was
        when the conversion fails, an operator finds fewer than two nodes,
        or no node is left. */
    method BuildTree() returns (r: Result<Tree>)
      modifies this`root
      ensures r == Building.BuildFrom(infixExpression)
      ensures root == (if r.Ok? then r.value else old(root))
    {
      var converted := InfixToPostfix();
      if converted.Err? {
        return Err(converted.error);
      }
      var p := converted.value;
      var s: seq<Tree> := [];
      var key: char := 'a';
      var i := 0;
      while i < |p|
        invariant 0 <= i <= |p|
        invariant key == Building.KeyOf(i)
        invariant root == old(root)
        invariant Building.Run(p, [], 0) == Building.Run(p[i..], s, i)
      {
        var c := p[i];
        ghost var before := s;
        assert p[i..][0] == c && p[i..][1..] == p[i + 1..];
        Building.NextKeyOf(i);
        if IsAlnum(c) {
          var newNode := ExpressionTree.Node(c, key, ExpressionTree.Nil, ExpressionTree.Nil);
          key := Building.NextKey(key);
          s := s + [newNode];
        } else {
          if |s| < 2 {
            assert Building.Step(s, i, c) == Err(MissingOperand(i));
            assert Building.Run(p, [], 0) == Err(MissingOperand(i));
            assert Building.Build(p) == Err(MissingOperand(i));
            assert Building.BuildFrom(infixExpression) == Err(MissingOperand(i));
            return Err(MissingOperand(i));
          }
          var rightNode := s[|s| - 1];
          s := s[..|s| - 1];
          var leftNode := s[|s| - 1];
          s := s[..|s| - 1];
          var opNode := ExpressionTree.Node(c, key, leftNode, rightNode);
          key := Building.NextKey(key);
          s := s + [opNode];
          assert before[..|before| - 2] == s[..|s| - 1];
        }
        assert Building.Step(before, i, c) == Ok(s);
        i := i + 1;
      }
      assert p[i..] == [];
      if s == [] {
        return Err(NoOperand);
      }
      root := s[|s| - 1];
      return Ok(root);
    }

    /** infix(): the fully parenthesised traversal of the current tree; for
        an expression tree it converts back to the tree's postfix form. */
    function Infix(): (s: string)
      reads this
      ensures ExpressionTree.IsExpression(root) ==>
        Conversion.InfixToPostfix(s) == Ok(ExpressionTree.Postfix(root))
    {
      if ExpressionTree.IsExpression(root) then
        Precedence.InfixConverts(root);
        ExpressionTree.Infix(root)
      else ExpressionTree.Infix(root)
    }

    /** prefix(): the preorder symbols of the current tree; for an expression
        tree they read back to its postfix form. */
    function Prefix(): (s: string)
      reads this
      ensures ExpressionTree.IsExpression(root) ==>
        ExpressionTree.ReadPrefix(s) == ExpressionTree.Some((ExpressionTree.Postfix(root), []))
    {
      if ExpressionTree.IsExpression(root) then
        ExpressionTree.PrefixReadsBack(root, []);
        assert ExpressionTree.Prefix(root) + [] == ExpressionTree.Prefix(root);
        ExpressionTree.Prefix(root)
      else ExpressionTree.Prefix(root)
    }

    /** postfix(): the postorder symbols of the current tree, the same
        symbols as the preorder ones. */
    function Postfix(): (s: string)
      reads this
      ensures multiset(s) == multiset(ExpressionTree.Prefix(root))
      ensures |s| == ExpressionTree.Size(root)
    {
      ExpressionTree.TraversalsPermute(root);
      ExpressionTree.Postfix(root)
    }

    /** visualizeTree(filename): the lines of the graph description file, a
        header, one label line per node and one edge line per link, and a
        closing brace. */
    function VisualizeTree(): (lines: seq<string>)
      reads this
      ensures |lines| == ExpressionTree.Size(root) + ExpressionTree.Links(root) + 2
      ensures lines[0] == "digraph G {" && lines[|lines| - 1] == "}"
    {
      ExpressionTree.VisualizeLineCount(root);
      ["digraph G {"] + ExpressionTree.Visualize(root) + ["}"]
    }
  }
}
