/** What infix_to_postfix computes on well-formed input: every text of an
    expression tree that precedence and left-associativity read as that
    tree, however many redundant parentheses and spaces it holds, converts
    to the tree's postfix traversal. The fully parenthesised infix
    traversal and the rendering with only the parentheses needed are two
    such texts. */
module Precedence {
  import opened Symbols
  import opened ExpressionTree
  import opened Conversion

  predicate Inner(t: Tree) {
    t.Node? && (t.left != Nil || t.right != Nil)
  }

  /** An inner node ranks as its operator; a leaf binds tighter than any
      binary operator. */
  function Rank(t: Tree): int {
    if Inner(t) then Priority(t.data) else 3
  }

  function Paren(s: string, wrap: bool): string {
    if wrap then "(" + s + ")" else s
  }

  /** Infix with the fewest parentheses: a left operand is wrapped when it
      ranks below its operator, a right operand when it does not rank above
      it (operators of equal rank group to the left). */
  function Show(t: Tree): string {
    match t
    case Nil => []
    case Node(d, _, l, r) =>
      if l == Nil && r == Nil then [d]
      else Paren(Show(l), Rank(l) < Priority(d)) + [d] + Paren(Show(r), Rank(r) <= Priority(d))
  }

  /** Regroup, GroupState, ShiftState, Completed and Bracketed only regroup
      concatenations of plain strings. The proofs about the loop call them
      instead of leaving the solver to regroup terms that also occur inside
      the recursive Run. */
  lemma Regroup(a: string, b: string, c: string, d: string)
    requires b + c == d
    ensures a + b + c == a + d
  {
  }

  /** Reading a then b is reading b from where a left off. */
  lemma RunThen(a: string, b: string, st: State, mid: State, last: State)
    requires Run(a, st) == Ok(mid)
    requires Run(b, mid) == Ok(last)
    ensures Run(a + b, st) == Ok(last)
  {
    RunAppend(a, b, st);
  }

  /** Reading `(` pushes it. */
  lemma OpenStep(st: State)
    ensures Run("(", st) == Ok(State("(" + st.stack, st.out))
  {
    RunChar('(', st);
  }

  /** The operator loop pops every pending operator that c does not outrank
      and stops at what lies below them. */
  lemma {:induction false} PopAll(c: char, pending: string, below: seq<char>, out: string)
    requires forall x | x in pending :: IsBinary(x) && Priority(c) <= Priority(x)
    requires below == [] || below[0] == '(' || Priority(below[0]) < Priority(c)
    ensures PopHigher(c, State(pending + below, out)) == State(below, out + pending)
    decreases |pending|
  {
    if pending == [] {
      assert pending + below == below;
    } else {
      var x := pending[0];
      assert x in pending;
      assert (pending + below)[0] == x && (pending + below)[1..] == pending[1..] + below;
      PopAll(c, pending[1..], below, out + [x]);
      assert out + [x] + pending[1..] == out + pending;
    }
  }

  /** Reading a binary operator d above pending operators it does not outrank:
      they are written and d is pushed. */
  lemma OperatorStep(d: char, pending: string, below: seq<char>, out: string)
    requires IsBinary(d)
    requires forall x | x in pending :: IsBinary(x) && Priority(d) <= Priority(x)
    requires below == [] || below[0] == '(' || Priority(below[0]) < Priority(d)
    ensures Run([d], State(pending + below, out)) == Ok(State([d] + below, out + pending))
  {
    PopAll(d, pending, below, out);
    RunChar(d, State(pending + below, out));
  }

  /** The `)` loop pops every pending operator and discards the `(` below them. */
  lemma {:induction false} PopToMatching(pending: string, below: seq<char>, out: string)
    requires '(' !in pending
    ensures PopToOpen(State(pending + ("(" + below), out)) == Ok(State(below, out + pending))
    decreases |pending|
  {
    if pending == [] {
      assert pending + ("(" + below) == "(" + below;
      assert ("(" + below)[1..] == below;
      assert out + pending == out;
    } else {
      var x := pending[0];
      assert (pending + ("(" + below))[0] == x;
      assert (pending + ("(" + below))[1..] == pending[1..] + ("(" + below);
      PopToMatching(pending[1..], below, out + [x]);
      assert out + [x] + pending[1..] == out + pending;
    }
  }

  /** Reading `)` once a group's pending operators sit above its `(`. */
  lemma CloseStep(pending: string, below: seq<char>, out: string)
    requires '(' !in pending
    ensures Run(")", State(pending + ("(" + below), out)) == Ok(State(below, out + pending))
  {
    PopToMatching(pending, below, out);
    RunChar(')', State(pending + ("(" + below), out));
  }

  /** The state after a group, once its pending operators are written. */
  lemma GroupState(below: seq<char>, out: string, emitted: string, pending: string, post: string)
    requires emitted + pending == post
    ensures State(below, out + emitted + pending) == State([] + below, out + post)
  {
    Regroup(out, emitted, pending, post);
  }

  /** The state after `l d r`: r's pending operators lie above d. */
  lemma ShiftState(pr: string, d: char, below: seq<char>, out: string, pl: string, er: string)
    ensures State(pr + ([d] + below), out + pl + er) == State(pr + [d] + below, out + (pl + er))
  {
  }

  /** Reading `left d right`: d pops the left operand's pending operators,
      none of which it outranks, and is pushed; then right is read. */
  lemma Combine(left: string, d: char, right: string, st: State,
                pl: string, el: string, postL: string, pr: string, er: string)
    requires IsBinary(d)
    requires st.stack == [] || st.stack[0] == '(' || Priority(st.stack[0]) < Priority(d)
    requires forall x | x in pl :: IsBinary(x) && Priority(d) <= Priority(x)
    requires Run(left, st) == Ok(State(pl + st.stack, st.out + el))
    requires el + pl == postL
    requires Run(right, State([d] + st.stack, st.out + postL))
             == Ok(State(pr + ([d] + st.stack), st.out + postL + er))
    ensures Run(left + [d] + right, st) == Ok(State(pr + [d] + st.stack, st.out + (postL + er)))
  {
    var afterLeft := State(pl + st.stack, st.out + el);
    var afterOp := State([d] + st.stack, st.out + postL);
    OperatorStep(d, pl, st.stack, st.out + el);
    Regroup(st.out, el, pl, postL);
    RunThen(left, [d], st, afterLeft, afterOp);
    RunThen(left + [d], right, st, afterOp, State(pr + ([d] + st.stack), st.out + postL + er));
    ShiftState(pr, d, st.stack, st.out, postL, er);
  }

  /** Reading `(s)` where reading s leaves pending operators above the `(`:
      `)` writes them, and the stack is as before. */
  lemma Grouped(s: string, st: State, pending: string, emitted: string, post: string)
    requires '(' !in pending
    requires emitted + pending == post
    requires Run(s, State("(" + st.stack, st.out)) == Ok(State(pending + ("(" + st.stack), st.out + emitted))
    ensures Run("(" + s + ")", st) == Ok(State([] + st.stack, st.out + post))
  {
    var open := State("(" + st.stack, st.out);
    var inside := State(pending + ("(" + st.stack), st.out + emitted);
    OpenStep(st);
    RunThen("(", s, st, open, inside);
    CloseStep(pending, st.stack, st.out + emitted);
    RunThen("(" + s, ")", st, inside, State(st.stack, st.out + emitted + pending));
    GroupState(st.stack, st.out, emitted, pending, post);
  }

  /** The conversion result once the loop has read s. */
  lemma Drained(s: string, pending: string, emitted: string, post: string)
    requires emitted + pending == post
    requires Run(s, Start) == Ok(State(pending + [], [] + emitted))
    ensures InfixToPostfix(s) == Ok(post)
  {
    assert pending + [] == pending && [] + emitted == emitted;
  }

  /** How an infix text is written: an operand, `l d r`, or a
      parenthesised subexpression. */
  datatype Form = Atom(c: char) | Apply(op: char, l: Form, r: Form) | Group(inner: Form)

  function Text(f: Form): string {
    match f
    case Atom(c) => [c]
    case Apply(d, l, r) => Text(l) + [d] + Text(r)
    case Group(g) => "(" + Text(g) + ")"
  }

  /** How tightly a form holds together: `l d r` as tightly as d, an
      operand or a group as tightly as `(`. */
  function Binding(f: Form): int {
    if f.Apply? then Priority(f.op) else 3
  }

  /** f writes the expression tree t as precedence and left-associativity
      read it: operands are t's leaves, and in every `l d r` the left side
      binds no looser than d and the right side binds tighter. Any
      subexpression may be parenthesised, once or more often. */
  predicate Renders(f: Form, t: Tree) {
    match f
    case Atom(c) => t.Node? && t.data == c && t.left == Nil && t.right == Nil && IsOperand(c)
    case Apply(d, l, r) =>
      && t.Node? && t.data == d && IsBinary(d)
      && Priority(d) <= Binding(l) && Priority(d) < Binding(r)
      && Renders(l, t.left) && Renders(r, t.right)
    case Group(g) => Renders(g, t)
  }

  lemma {:induction false} RendersExpression(f: Form, t: Tree)
    requires Renders(f, t)
    ensures IsExpression(t)
  {
    match f
    case Atom(_) =>
    case Apply(_, l, r) =>
      RendersExpression(l, t.left);
      RendersExpression(r, t.right);
    case Group(g) => RendersExpression(g, t);
  }

  /** The operators of f still on the stack once Text(f) has been read, top
      first: those down its right side outside any parentheses. */
  function Pending(f: Form): string {
    match f
    case Atom(_) => []
    case Apply(d, _, r) => Pending(r) + [d]
    case Group(_) => []
  }

  /** What has been written by then. */
  function Emitted(f: Form): string {
    match f
    case Atom(c) => [c]
    case Apply(_, l, r) => Emitted(l) + Pending(l) + Emitted(r)
    case Group(g) => Emitted(g) + Pending(g)
  }

  /** Regrouping the postfix form of `l d r` over plain strings. */
  lemma Completed(el: string, pl: string, er: string, pr: string, d: char, postL: string, postR: string)
    requires el + pl == postL && er + pr == postR
    ensures el + pl + er + (pr + [d]) == postL + postR + [d]
  {
  }

  /** Draining the pending operators completes the postfix form; each of them
      is a binary operator that binds no looser than the form. */
  lemma {:induction false} PendingCompletes(f: Form, t: Tree)
    requires Renders(f, t)
    ensures Emitted(f) + Pending(f) == Postfix(t)
    ensures forall x | x in Pending(f) :: IsBinary(x) && Binding(f) <= Priority(x)
  {
    match f
    case Atom(c) =>
      assert Postfix(t) == [] + [] + [c];
    case Apply(d, l, r) =>
      PendingCompletes(l, t.left);
      PendingCompletes(r, t.right);
      Completed(Emitted(l), Pending(l), Emitted(r), Pending(r), d, Postfix(t.left), Postfix(t.right));
    case Group(g) =>
      PendingCompletes(g, t);
      assert Emitted(f) + [] == Emitted(f);
  }

  /** Reading the text of a subexpression, when the stack top does not
      outrank it, writes its postfix form except the operators left pending
      on top of the stack. */
  lemma {:induction false} FormRuns(f: Form, t: Tree, st: State)
    requires Renders(f, t)
    requires st.stack == [] || st.stack[0] == '(' || Priority(st.stack[0]) < Binding(f)
    ensures Run(Text(f), st) == Ok(State(Pending(f) + st.stack, st.out + Emitted(f)))
  {
    match f
    case Atom(c) =>
      RunChar(c, st);
      assert [] + st.stack == st.stack;
    case Group(g) =>
      FormRuns(g, t, State("(" + st.stack, st.out));
      PendingCompletes(g, t);
      assert '(' !in Pending(g);
      Grouped(Text(g), st, Pending(g), Emitted(g), Emitted(g) + Pending(g));
    case Apply(d, l, r) =>
      var postL := Emitted(l) + Pending(l);
      PendingCompletes(l, t.left);
      FormRuns(l, t.left, st);
      FormRuns(r, t.right, State([d] + st.stack, st.out + postL));
      Combine(Text(l), d, Text(r), st, Pending(l), Emitted(l), postL, Pending(r), Emitted(r));
  }

  /** Every text of an expression under the precedence rules, with or
      without redundant parentheses, converts to its postfix traversal. */
  lemma RendersConverts(f: Form, t: Tree)
    requires Renders(f, t)
    ensures InfixToPostfix(Text(f)) == Ok(Postfix(t))
  {
    FormRuns(f, t, Start);
    PendingCompletes(f, t);
    Drained(Text(f), Pending(f), Emitted(f), Postfix(t));
  }

  /** The same with spaces anywhere in the text. */
  lemma SpacedConverts(s: string, f: Form, t: Tree)
    requires Renders(f, t) && NoSpaces(s) == Text(f)
    ensures InfixToPostfix(s) == Ok(Postfix(t))
  {
    SpacesIgnored(s);
    RendersConverts(f, t);
  }

  function Wrap(f: Form, wrap: bool): Form {
    if wrap then Group(f) else f
  }

  /** The form Show writes: parentheses only where precedence or
      left-associativity need them. */
  function ShowForm(t: Tree): Form
    requires IsExpression(t)
  {
    match t
    case Node(d, _, l, r) =>
      if l == Nil && r == Nil then Atom(d)
      else Apply(d, Wrap(ShowForm(l), Rank(l) < Priority(d)), Wrap(ShowForm(r), Rank(r) <= Priority(d)))
  }

  lemma {:induction false} ShowRenders(t: Tree)
    requires IsExpression(t)
    ensures Renders(ShowForm(t), t) && Text(ShowForm(t)) == Show(t) && Binding(ShowForm(t)) == Rank(t)
  {
    match t
    case Node(d, _, l, r) =>
      if l != Nil || r != Nil {
        ShowRenders(l);
        ShowRenders(r);
      }
  }

  /** The form of the fully parenthesised infix traversal: every inner node
      in its own group. */
  function InfixForm(t: Tree): Form
    requires IsExpression(t)
  {
    match t
    case Node(d, _, l, r) =>
      if l == Nil && r == Nil then Atom(d)
      else Group(Apply(d, InfixForm(l), InfixForm(r)))
  }

  /** Regrouping a parenthesised `a d b` over plain strings. */
  lemma Bracketed(a: string, d: char, b: string)
    ensures "(" + (a + [d] + b) + ")" == "(" + a + [d] + b + ")"
  {
  }

  lemma {:induction false} InfixRenders(t: Tree)
    requires IsExpression(t)
    ensures Renders(InfixForm(t), t) && Text(InfixForm(t)) == Infix(t) && Binding(InfixForm(t)) == 3
  {
    match t
    case Node(d, _, l, r) =>
      if l == Nil && r == Nil {
        assert Infix(t) == [] + [d] + [];
      } else {
        InfixRenders(l);
        InfixRenders(r);
        Bracketed(Infix(l), d, Infix(r));
      }
  }

  /** The fully parenthesised infix traversal converts back to the postfix
      traversal. */
  lemma InfixConverts(t: Tree)
    requires IsExpression(t)
    ensures InfixToPostfix(Infix(t)) == Ok(Postfix(t))
  {
    InfixRenders(t);
    RendersConverts(InfixForm(t), t);
  }

  /** Precedence and left-associativity: the minimally parenthesised
      rendering converts to the postfix traversal too. */
  lemma ShowConverts(t: Tree)
    requires IsExpression(t)
    ensures InfixToPostfix(Show(t)) == Ok(Postfix(t))
  {
    ShowRenders(t);
    RendersConverts(ShowForm(t), t);
  }
}
