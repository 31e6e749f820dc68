/** The two stages together: an expression over letters and digits, written
    with any parentheses precedence reads it by and any spaces, is rebuilt by
    buildTree with the same shape, and printing that tree gives the fully
    parenthesised form back. */
module Pipeline {
  import opened Symbols
  import opened ExpressionTree
  import Conversion
  import Precedence
  import Building

  /** Rebuilding from the minimally parenthesised rendering. */
  lemma ShowBuilds(t: Tree)
    requires IsExpression(t) && AlnumLeaves(t)
    ensures Building.BuildFrom(Precedence.Show(t)) == Ok(Building.Rekey(t, 0))
    ensures SameShape(Building.Rekey(t, 0), t)
  {
    Precedence.ShowConverts(t);
    Building.ExpressionIsFormed(t);
    Building.BuildPostfix(t);
    Building.RekeyShape(t, 0);
  }

  /** Rebuilding from the fully parenthesised infix traversal. */
  lemma InfixBuilds(t: Tree)
    requires IsExpression(t) && AlnumLeaves(t)
    ensures Building.BuildFrom(Infix(t)) == Ok(Building.Rekey(t, 0))
  {
    Precedence.InfixConverts(t);
    Building.ExpressionIsFormed(t);
    Building.BuildPostfix(t);
  }

  /** Rebuilding from any text that precedence reads as t, with redundant
      parentheses and spaces anywhere. */
  lemma RenderingBuilds(s: string, f: Precedence.Form, t: Tree)
    requires Precedence.Renders(f, t) && AlnumLeaves(t)
    requires Conversion.NoSpaces(s) == Precedence.Text(f)
    ensures Building.BuildFrom(s) == Ok(Building.Rekey(t, 0))
  {
    Precedence.SpacedConverts(s, f, t);
    Precedence.RendersExpression(f, t);
    Building.ExpressionIsFormed(t);
    Building.BuildPostfix(t);
  }

  /** Printing the rebuilt tree: infix() reproduces the fully parenthesised
      form, prefix() and postfix() the original tree's traversals, and the
      root's keys run from 'a' in postorder. */
  lemma RebuiltTraversals(t: Tree)
    requires IsExpression(t) && AlnumLeaves(t)
    ensures Building.BuildFrom(Precedence.Show(t)).Ok?
    ensures var u := Building.BuildFrom(Precedence.Show(t)).value;
      && Infix(u) == Infix(t) && Prefix(u) == Prefix(t) && Postfix(u) == Postfix(t)
      && PostKeys(u) == Building.Keys(0, Size(t))
  {
    ShowBuilds(t);
    var u := Building.Rekey(t, 0);
    SameShapeTraversals(u, t);
    Building.ExpressionIsFormed(t);
    Building.BuildPostfix(t);
    assert Building.Build(Postfix(t)) == Ok(u);
    assert Building.Net(Postfix(t)) == 1 by {
      Building.RunHeight(Postfix(t), [], 0);
      Building.RunPostfix(t, [], 0);
    }
    Building.BuildWhole(Postfix(t));
  }

  function Leaf(c: char): Tree {
    Node(c, c, Nil, Nil)
  }

  /** The trees of the three worked examples. */
  const ProductTree := Node('+', '+', Leaf('a'), Node('*', '*', Leaf('b'), Leaf('c')))
  const GroupedTree := Node('*', '*', Node('+', '+', Leaf('a'), Leaf('b')), Leaf('c'))
  const ChainTree := Node('-', '-', Node('-', '-', Leaf('a'), Leaf('b')), Leaf('c'))

  lemma ProductShows()
    ensures Precedence.Show(ProductTree) == "a+b*c"
  {
    assert Precedence.Show(ProductTree.right) == "b*c" by {
      assert Precedence.Show(Leaf('b')) == "b" && Precedence.Show(Leaf('c')) == "c";
    }
    assert Precedence.Rank(ProductTree.left) == 3 && Precedence.Rank(ProductTree.right) == 2;
  }

  lemma ProductPrints()
    ensures Infix(ProductTree) == "(a+(b*c))"
  {
    assert Infix(ProductTree.right) == "(b*c)";
  }

  lemma ProductPostfix()
    ensures Postfix(ProductTree) == "abc*+"
  {
  }

  lemma ProductIsExpression()
    ensures IsExpression(ProductTree) && AlnumLeaves(ProductTree)
  {
  }

  lemma GroupedShows()
    ensures Precedence.Show(GroupedTree) == "(a+b)*c"
  {
    assert Precedence.Show(GroupedTree.left) == "a+b" by {
      assert Precedence.Show(Leaf('a')) == "a" && Precedence.Show(Leaf('b')) == "b";
    }
    assert Precedence.Rank(GroupedTree.left) == 1 && Precedence.Rank(GroupedTree.right) == 3;
  }

  lemma GroupedPrints()
    ensures Infix(GroupedTree) == "((a+b)*c)"
  {
    assert Infix(GroupedTree.left) == "(a+b)";
  }

  lemma GroupedPostfix()
    ensures Postfix(GroupedTree) == "ab+c*"
  {
  }

  lemma GroupedIsExpression()
    ensures IsExpression(GroupedTree) && AlnumLeaves(GroupedTree)
  {
  }

  lemma ChainShows()
    ensures Precedence.Show(ChainTree) == "a-b-c"
  {
    assert Precedence.Show(ChainTree.left) == "a-b" by {
      assert Precedence.Show(Leaf('a')) == "a" && Precedence.Show(Leaf('b')) == "b";
    }
    assert Precedence.Rank(ChainTree.left) == 1 && Precedence.Rank(ChainTree.right) == 3;
  }

  lemma ChainPrints()
    ensures Infix(ChainTree) == "((a-b)-c)"
  {
    assert Infix(ChainTree.left) == "(a-b)";
  }

  lemma ChainPostfix()
    ensures Postfix(ChainTree) == "ab-c-"
  {
  }

  lemma ChainIsExpression()
    ensures IsExpression(ChainTree) && AlnumLeaves(ChainTree)
  {
  }

  /** "a+b*c" converts to "abc*+" and prints as "(a+(b*c))". */
  lemma ExampleProduct()
    ensures Conversion.InfixToPostfix("a+b*c") == Ok("abc*+")
    ensures Building.BuildFrom("a+b*c").Ok?
    ensures Infix(Building.BuildFrom("a+b*c").value) == "(a+(b*c))"
  {
    ProductShows();
    ProductPrints();
    ProductPostfix();
    ProductIsExpression();
    Precedence.ShowConverts(ProductTree);
    RebuiltTraversals(ProductTree);
  }

  /** "(a+b)*c" converts to "ab+c*" and prints as "((a+b)*c)". */
  lemma ExampleGrouped()
    ensures Conversion.InfixToPostfix("(a+b)*c") == Ok("ab+c*")
    ensures Building.BuildFrom("(a+b)*c").Ok?
    ensures Infix(Building.BuildFrom("(a+b)*c").value) == "((a+b)*c)"
  {
    GroupedShows();
    GroupedPrints();
    GroupedPostfix();
    GroupedIsExpression();
    Precedence.ShowConverts(GroupedTree);
    RebuiltTraversals(GroupedTree);
  }

  /** "a-b-c" groups to the left: it converts to "ab-c-" and prints as
      "((a-b)-c)". */
  lemma ExampleLeftAssociative()
    ensures Conversion.InfixToPostfix("a-b-c") == Ok("ab-c-")
    ensures Building.BuildFrom("a-b-c").Ok?
    ensures Infix(Building.BuildFrom("a-b-c").value) == "((a-b)-c)"
  {
    ChainShows();
    ChainPrints();
    ChainPostfix();
    ChainIsExpression();
    Precedence.ShowConverts(ChainTree);
    RebuiltTraversals(ChainTree);
  }

  /** "((a))+(b*c)" written as a form. */
  const RedundantForm := Precedence.Apply('+',
    Precedence.Group(Precedence.Group(Precedence.Atom('a'))),
    Precedence.Group(Precedence.Apply('*', Precedence.Atom('b'), Precedence.Atom('c'))))

  lemma RedundantText()
    ensures Precedence.Text(RedundantForm) == "((a))+(b*c)"
  {
    var a := Precedence.Group(Precedence.Group(Precedence.Atom('a')));
    var bc := Precedence.Group(Precedence.Apply('*', Precedence.Atom('b'), Precedence.Atom('c')));
    assert Precedence.Text(a) == "((a))";
    assert Precedence.Text(bc) == "(b*c)";
  }

  lemma RedundantRenders()
    ensures Precedence.Renders(RedundantForm, ProductTree)
  {
  }

  lemma DropSpace(a: string, b: string)
    ensures Conversion.NoSpaces(a + " " + b) == Conversion.NoSpaces(a) + Conversion.NoSpaces(b)
  {
    assert Conversion.NoSpaces(" ") == [] by {
      assert " "[1..] == [];
    }
    Conversion.NoSpacesAppend(a, " ");
    Conversion.NoSpacesAppend(a + " ", b);
    assert Conversion.NoSpaces(a) + [] == Conversion.NoSpaces(a);
  }

  /** `a op b` with a space on each side of op. */
  lemma SpacedOperator(a: string, op: string, b: string)
    requires ' ' !in a && ' ' !in op && ' ' !in b
    ensures Conversion.NoSpaces(a + " " + op + " " + b) == a + op + b
  {
    DropSpace(a + " " + op, b);
    DropSpace(a, op);
  }

  lemma RedundantSpaces()
    ensures Conversion.NoSpaces("((a)) + (b*c)") == "((a))+(b*c)"
  {
    assert "((a)) + (b*c)" == "((a))" + " " + "+" + " " + "(b*c)";
    assert "((a))+(b*c)" == "((a))" + "+" + "(b*c)";
    SpacedOperator("((a))", "+", "(b*c)");
  }

  /** Redundant parentheses and spaces: "((a)) + (b*c)" is read as the tree
      of "a+b*c", converts to "abc*+" and builds the same tree. */
  lemma ExampleRedundant()
    ensures Conversion.InfixToPostfix("((a)) + (b*c)") == Ok("abc*+")
    ensures Building.BuildFrom("((a)) + (b*c)") == Building.BuildFrom("a+b*c")
  {
    RedundantText();
    RedundantRenders();
    RedundantSpaces();
    ProductPostfix();
    ProductIsExpression();
    ProductShows();
    Precedence.SpacedConverts("((a)) + (b*c)", RedundantForm, ProductTree);
    RenderingBuilds("((a)) + (b*c)", RedundantForm, ProductTree);
    ShowBuilds(ProductTree);
  }

  /** A leading `)` finds the operator stack empty. */
  lemma ExampleUnmatchedClose()
    ensures Conversion.InfixToPostfix(")a+b") == Err(UnmatchedClose)
    ensures Building.BuildFrom(")a+b") == Err(UnmatchedClose)
  {
    assert ")a+b"[0] == ')';
  }

  /** The empty expression converts to the empty postfix string, from which
      no root can be taken. */
  lemma ExampleEmpty()
    ensures Conversion.InfixToPostfix("") == Ok("")
    ensures Building.BuildFrom("") == Err(NoOperand)
  {
    assert Conversion.Run("", Conversion.Start) == Ok(Conversion.Start);
    assert Conversion.Flat(Conversion.Start) == "";
    assert Building.Run("", [], 0) == Ok([]);
  }

  /** An operator short of an operand: "+a" converts to "a+", whose `+`
      at index 1 finds a single node. */
  lemma ExampleMissingOperand()
    ensures Conversion.InfixToPostfix("+a") == Ok("a+")
    ensures Building.BuildFrom("+a") == Err(MissingOperand(1))
  {
    MissingOperandConverts();
    assert "a+"[0] == 'a' && "a+"[1..] == "+" && "+"[1..] == "";
    var leaf := Node('a', Building.KeyOf(0), Nil, Nil);
    assert [] + [leaf] == [leaf];
    assert Building.Run("+", [leaf], 1) == Err(MissingOperand(1)) by {
      assert Building.Step([leaf], 1, '+') == Err(MissingOperand(1));
    }
    assert Building.Step([], 0, 'a') == Ok([leaf]);
  }

  lemma MissingOperandConverts()
    ensures Conversion.InfixToPostfix("+a") == Ok("a+")
  {
    var s0, s1, s2 := Conversion.State([], []), Conversion.State("+", []), Conversion.State("+", "a");
    assert Conversion.Start == s0;
    assert ['+'] + [] == "+" && [] + ['a'] == "a" && "a" + "+" == "a+";
    assert "+a"[0] == '+' && "+a"[1..] == "a" && "a"[1..] == "";
    assert Conversion.Run("a", s1) == Ok(s2) by {
      assert Conversion.Step(s1, 'a') == Ok(s2);
    }
    assert Conversion.Run("+a", s0) == Ok(s2) by {
      assert Conversion.PopHigher('+', s0) == s0;
      assert Conversion.Step(s0, '+') == Ok(s1);
    }
    assert Conversion.Flat(s2) == "a+";
  }

  /** Operands left over: "a b" converts to "ab", which leaves two trees on
      the node stack; the top one, the leaf `b` with key 'b', becomes the
      root and the leaf `a` is dropped. */
  lemma ExampleLeftover()
    ensures Conversion.InfixToPostfix("a b") == Ok("ab")
    ensures Building.BuildFrom("a b") == Ok(Node('b', 'b', Nil, Nil))
  {
    LeftoverConverts();
    assert "ab"[0] == 'a' && "ab"[1..] == "b" && "b"[1..] == "";
    assert Building.KeyOf(0) == 'a' && Building.KeyOf(1) == 'b';
    assert [] + [Leaf('a')] == [Leaf('a')] && [Leaf('a')] + [Leaf('b')] == [Leaf('a'), Leaf('b')];
    assert Building.Step([], 0, 'a') == Ok([Leaf('a')]);
    assert Building.Step([Leaf('a')], 1, 'b') == Ok([Leaf('a'), Leaf('b')]);
    assert Building.Run("ab", [], 0) == Ok([Leaf('a'), Leaf('b')]);
  }

  lemma LeftoverConverts()
    ensures Conversion.InfixToPostfix("a b") == Ok("ab")
  {
    var s0, s1, s2 := Conversion.State([], []), Conversion.State([], "a"), Conversion.State([], "ab");
    assert Conversion.Start == s0;
    assert !IsOperator('a') && !IsOperator('b');
    assert [] + ['a'] == "a" && "a" + ['b'] == "ab" && "ab" + [] == "ab";
    assert "a b"[0] == 'a' && "a b"[1..] == " b" && " b"[1..] == "b" && "b"[1..] == "";
    assert Conversion.Run("b", s1) == Ok(s2) by {
      assert Conversion.Step(s1, 'b') == Ok(s2);
    }
    assert Conversion.Run(" b", s1) == Ok(s2) by {
      assert Conversion.Step(s1, ' ') == Ok(s1);
    }
    assert Conversion.Run("a b", s0) == Ok(s2) by {
      assert Conversion.Step(s0, 'a') == Ok(s1);
    }
    assert Conversion.Flat(s2) == "ab";
  }
}
