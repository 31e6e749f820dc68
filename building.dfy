/** buildTree as a state machine: one step per postfix character over a
    stack of subtrees, numbering every node it creates. */
module Building {
  import opened Symbols
  import opened ExpressionTree
  import Conversion

  /** The key of the n-th node created: the source's `char key` starts at
      'a' and is incremented once per node, wrapping around at 8 bits. */
  function KeyOf(n: nat): (k: char)
    ensures k as int < 256
    ensures n < 159 ==> k as int == 97 + n
  {
    ((97 + n) % 256) as char
  }

  /** `key++` on an 8-bit character. */
  function NextKey(k: char): (r: char)
    requires k as int < 256
    ensures k as int < 255 ==> r as int == k as int + 1
    ensures k as int == 255 ==> r as int == 0
  {
    ((k as int + 1) % 256) as char
  }

  lemma NextKeyOf(n: nat)
    ensures NextKey(KeyOf(n)) == KeyOf(n + 1)
  {
    var x := 97 + n;
    var q, v := x / 256, x % 256;
    assert x == 256 * q + v && 0 <= v < 256;
    if v == 255 {
      assert x + 1 == 256 * (q + 1) + 0;
      assert (x + 1) % 256 == 0;
    } else {
      assert x + 1 == 256 * q + (v + 1);
      assert (x + 1) % 256 == v + 1;
    }
  }

  /** Keys from the at-th node on, n of them. */
  function Keys(at: nat, n: nat): (s: seq<char>)
    ensures |s| == n
    decreases n
  {
    if n == 0 then [] else [KeyOf(at)] + Keys(at + 1, n - 1)
  }

  lemma {:induction false} KeysIndex(at: nat, n: nat, i: nat)
    requires i < n
    ensures Keys(at, n)[i] == KeyOf(at + i)
    decreases n
  {
    if i > 0 {
      KeysIndex(at + 1, n - 1, i - 1);
    }
  }

  lemma {:induction false} KeysAppend(at: nat, n: nat, m: nat)
    ensures Keys(at, n) + Keys(at + n, m) == Keys(at, n + m)
    decreases n
  {
    if n == 0 {
      assert Keys(at, n) + Keys(at + n, m) == Keys(at + n, m);
    } else {
      KeysAppend(at + 1, n - 1, m);
      assert Keys(at, n) + Keys(at + n, m) == [KeyOf(at)] + (Keys(at + 1, n - 1) + Keys(at + 1 + (n - 1), m));
    }
  }

  /** The first 256 nodes get pairwise distinct keys; a 257th node repeats
      the first key. */
  lemma KeysDistinct(n: nat)
    ensures (forall i, j | 0 <= i < j < n :: KeyOf(i) != KeyOf(j)) <==> n <= 256
  {
    if n > 256 {
      assert KeyOf(0) == KeyOf(256);
    } else {
      forall i, j | 0 <= i < j < n
        ensures KeyOf(i) != KeyOf(j)
      {
        if 97 + i < 256 {
          assert (97 + i) % 256 == 97 + i;
        } else {
          assert (97 + i) % 256 == 97 + i - 256;
        }
        if 97 + j < 256 {
          assert (97 + j) % 256 == 97 + j;
        } else {
          assert (97 + j) % 256 == 97 + j - 256;
        }
      }
    }
  }

  /** Only the first 26 nodes get lower-case letters as keys. */
  lemma KeysLetters(n: nat)
    ensures (forall i | 0 <= i < n :: 'a' <= KeyOf(i) <= 'z') <==> n <= 26
  {
    if n > 26 {
      assert KeyOf(26) == '{';
    } else {
      forall i | 0 <= i < n
        ensures 'a' <= KeyOf(i) <= 'z'
      {
        assert (97 + i) % 256 == 97 + i;
      }
    }
  }

  /** The trees buildTree creates: a leaf holds a letter or digit, an inner
      node holds any other character and has two children. */
  predicate Formed(t: Tree) {
    match t
    case Nil => false
    case Node(d, _, l, r) =>
      if l == Nil && r == Nil then IsAlnum(d)
      else !IsAlnum(d) && Formed(l) && Formed(r)
  }

  lemma {:induction false} FormedIsProper(t: Tree)
    requires Formed(t)
    ensures Proper(t) && AlnumLeaves(t)
  {
    match t
    case Node(_, _, l, r) =>
      if l != Nil || r != Nil {
        FormedIsProper(l);
        FormedIsProper(r);
      }
  }

  /** An expression over letters and digits is a tree buildTree can create. */
  lemma {:induction false} ExpressionIsFormed(t: Tree)
    requires IsExpression(t) && AlnumLeaves(t)
    ensures Formed(t)
  {
    match t
    case Node(_, _, l, r) =>
      if l != Nil || r != Nil {
        ExpressionIsFormed(l);
        ExpressionIsFormed(r);
      }
  }

  /** One iteration of the loop: a letter or digit pushes a new leaf; any
      other character pops the right and then the left operand and pushes a
      new inner node over them. The node stack has its top last; `at` is the
      index of c in the postfix string, hence also the number of nodes
      created before. */
  function Step(stack: seq<Tree>, at: nat, c: char): (r: Result<seq<Tree>>)
    ensures r.Err? <==> !IsAlnum(c) && |stack| < 2
    ensures r.Err? ==> r.error == MissingOperand(at)
    ensures r.Ok? ==> |r.value| == |stack| + (if IsAlnum(c) then 1 else -1)
  {
    if IsAlnum(c) then Ok(stack + [Node(c, KeyOf(at), Nil, Nil)])
    else if |stack| < 2 then Err(MissingOperand(at))
    else Ok(stack[..|stack| - 2] + [Node(c, KeyOf(at), stack[|stack| - 2], stack[|stack| - 1])])
  }

  /** The loop over the rest p of the postfix string, whose first character
      has index at. */
  function Run(p: string, stack: seq<Tree>, at: nat): (r: Result<seq<Tree>>)
    ensures r.Err? ==> r.error.MissingOperand? && at <= r.error.at < at + |p|
    decreases |p|
  {
    if p == [] then Ok(stack)
    else
      match Step(stack, at, p[0])
      case Err(e) => Err(e)
      case Ok(next) => Run(p[1..], next, at + 1)
  }

  /** buildTree on a postfix string: the loop, then the top of the stack
      becomes the root; nodes below it are dropped. */
  function Build(postfix: string): (r: Result<Tree>)
    ensures postfix == [] ==> r == Err(NoOperand)
    ensures r.Err? ==> r.error == NoOperand || (r.error.MissingOperand? && r.error.at < |postfix|)
  {
    match Run(postfix, [], 0)
    case Err(e) => Err(e)
    case Ok(stack) => if stack == [] then Err(NoOperand) else Ok(stack[|stack| - 1])
  }

  /** buildTree as the source runs it, on the output of infix_to_postfix. */
  function BuildFrom(infix: string): Result<Tree> {
    match Conversion.InfixToPostfix(infix)
    case Err(e) => Err(e)
    case Ok(postfix) => Build(postfix)
  }

  /** Letters and digits minus other characters. */
  function Net(s: string): int {
    if s == [] then 0 else (if IsAlnum(s[0]) then 1 else -1) + Net(s[1..])
  }

  lemma {:induction false} NetAppend(a: string, b: string)
    ensures Net(a + b) == Net(a) + Net(b)
  {
    if a != [] {
      assert (a + b)[0] == a[0] && (a + b)[1..] == a[1..] + b;
      NetAppend(a[1..], b);
    } else {
      assert a + b == b;
    }
  }

  /** Some operator of p finds fewer than two nodes on a stack that held h
      nodes before p. */
  predicate Short(p: string, h: int) {
    exists i :: 0 <= i < |p| && !IsAlnum(p[i]) && h + Net(p[..i]) < 2
  }

  /** The postfix strings of a stack's trees, bottom to top. */
  function Posts(stack: seq<Tree>): string {
    if stack == [] then [] else Posts(stack[..|stack| - 1]) + Postfix(stack[|stack| - 1])
  }

  /** The keys of a stack's trees in postorder, bottom to top. */
  function KeyPosts(stack: seq<Tree>): seq<char> {
    if stack == [] then [] else KeyPosts(stack[..|stack| - 1]) + PostKeys(stack[|stack| - 1])
  }

  predicate AllFormed(stack: seq<Tree>) {
    forall i | 0 <= i < |stack| :: Formed(stack[i])
  }

  lemma {:induction false} RunAppend(a: string, b: string, stack: seq<Tree>, at: nat)
    ensures Run(a + b, stack, at) ==
            match Run(a, stack, at) case Err(e) => Err(e) case Ok(m) => Run(b, m, at + |a|)
    decreases |a|
  {
    if a == [] {
      assert a + b == b;
    } else {
      assert (a + b)[0] == a[0] && (a + b)[1..] == a[1..] + b;
      match Step(stack, at, a[0])
      case Err(e) =>
      case Ok(next) => RunAppend(a[1..], b, next, at + 1);
    }
  }

  lemma PostsPush(stack: seq<Tree>, x: Tree)
    ensures Posts(stack + [x]) == Posts(stack) + Postfix(x)
    ensures KeyPosts(stack + [x]) == KeyPosts(stack) + PostKeys(x)
  {
    assert (stack + [x])[..|stack|] == stack;
  }

  /** Each step appends the character to the stack's postorder. */
  lemma StepPosts(stack: seq<Tree>, at: nat, c: char)
    requires Step(stack, at, c).Ok?
    ensures Posts(Step(stack, at, c).value) == Posts(stack) + [c]
  {
    if IsAlnum(c) {
      var leaf := Node(c, KeyOf(at), Nil, Nil);
      assert Postfix(leaf) == [c];
      PostsPush(stack, leaf);
    } else {
      var below := stack[..|stack| - 2];
      var a, b := stack[|stack| - 2], stack[|stack| - 1];
      var node := Node(c, KeyOf(at), a, b);
      assert stack == below + [a] + [b];
      PostsPush(below, a);
      PostsPush(below + [a], b);
      PostsPush(below, node);
      assert Posts(below) + Postfix(node) == Posts(below) + Postfix(a) + Postfix(b) + [c];
    }
  }

  /** Each step appends the new node's key to the stack's keys. */
  lemma StepKeyPosts(stack: seq<Tree>, at: nat, c: char)
    requires Step(stack, at, c).Ok?
    ensures KeyPosts(Step(stack, at, c).value) == KeyPosts(stack) + [KeyOf(at)]
  {
    var k := KeyOf(at);
    if IsAlnum(c) {
      var leaf := Node(c, k, Nil, Nil);
      assert PostKeys(leaf) == [k];
      PostsPush(stack, leaf);
    } else {
      var below := stack[..|stack| - 2];
      var a, b := stack[|stack| - 2], stack[|stack| - 1];
      var node := Node(c, k, a, b);
      assert stack == below + [a] + [b];
      PostsPush(below, a);
      PostsPush(below + [a], b);
      PostsPush(below, node);
      assert KeyPosts(below) + PostKeys(node) == KeyPosts(below) + PostKeys(a) + PostKeys(b) + [k];
    }
  }

  lemma StepFormed(stack: seq<Tree>, at: nat, c: char)
    requires AllFormed(stack) && Step(stack, at, c).Ok?
    ensures AllFormed(Step(stack, at, c).value)
  {
    var next := Step(stack, at, c).value;
    if !IsAlnum(c) {
      assert Formed(stack[|stack| - 2]) && Formed(stack[|stack| - 1]);
      assert Formed(next[|next| - 1]);
    }
  }

  /** The loop keeps every tree on the stack well formed. */
  lemma {:induction false} RunFormed(p: string, stack: seq<Tree>, at: nat)
    requires AllFormed(stack) && Run(p, stack, at).Ok?
    ensures AllFormed(Run(p, stack, at).value)
    decreases |p|
  {
    if p != [] {
      StepFormed(stack, at, p[0]);
      RunFormed(p[1..], Step(stack, at, p[0]).value, at + 1);
    }
  }

  /** The stack's trees hold, in postorder, the postfix string read. */
  lemma {:induction false} RunPosts(p: string, stack: seq<Tree>, at: nat)
    requires Run(p, stack, at).Ok?
    ensures Posts(Run(p, stack, at).value) == Posts(stack) + p
    decreases |p|
  {
    if p == [] {
      assert Posts(stack) + p == Posts(stack);
    } else {
      StepPosts(stack, at, p[0]);
      RunPosts(p[1..], Step(stack, at, p[0]).value, at + 1);
      assert [p[0]] + p[1..] == p;
      Assoc(Posts(stack), [p[0]], p[1..]);
    }
  }

  /** The stack's keys, in postorder, are those of the nodes created, in
      creation order. */
  lemma {:induction false} RunKeyPosts(p: string, stack: seq<Tree>, at: nat)
    requires Run(p, stack, at).Ok?
    ensures KeyPosts(Run(p, stack, at).value) == KeyPosts(stack) + Keys(at, |p|)
    decreases |p|
  {
    if p == [] {
      assert KeyPosts(stack) + Keys(at, 0) == KeyPosts(stack);
    } else {
      StepKeyPosts(stack, at, p[0]);
      RunKeyPosts(p[1..], Step(stack, at, p[0]).value, at + 1);
      assert Keys(at, |p|) == [KeyOf(at)] + Keys(at + 1, |p| - 1);
      Assoc(KeyPosts(stack), [KeyOf(at)], Keys(at + 1, |p| - 1));
    }
  }

  /** The stack grows by one per letter or digit and shrinks by one per
      other character; it is not empty after a non-empty string. */
  lemma {:induction false} RunHeight(p: string, stack: seq<Tree>, at: nat)
    requires Run(p, stack, at).Ok?
    ensures |Run(p, stack, at).value| == |stack| + Net(p)
    ensures p != [] ==> Run(p, stack, at).value != []
    decreases |p|
  {
    if p != [] {
      var next := Step(stack, at, p[0]).value;
      assert |next| == |stack| + (if IsAlnum(p[0]) then 1 else -1) && next != [];
      RunHeight(p[1..], next, at + 1);
    }
  }

  /** After the loop: the stack's trees are well formed, hold the postfix
      string in postorder with the keys numbered in creation order, and
      number as many as letters and digits outnumber the other characters. */
  lemma RunKeeps(p: string, stack: seq<Tree>, at: nat)
    requires AllFormed(stack) && Run(p, stack, at).Ok?
    ensures AllFormed(Run(p, stack, at).value)
    ensures Posts(Run(p, stack, at).value) == Posts(stack) + p
    ensures KeyPosts(Run(p, stack, at).value) == KeyPosts(stack) + Keys(at, |p|)
    ensures |Run(p, stack, at).value| == |stack| + Net(p)
    ensures p != [] ==> Run(p, stack, at).value != []
  {
    RunFormed(p, stack, at);
    RunPosts(p, stack, at);
    RunKeyPosts(p, stack, at);
    RunHeight(p, stack, at);
  }

  /** The loop fails exactly when some operator finds fewer than two nodes. */
  lemma {:induction false} RunFailsIff(p: string, stack: seq<Tree>, at: nat)
    ensures Run(p, stack, at).Err? <==> Short(p, |stack|)
    decreases |p|
  {
    if p != [] {
      var c := p[0];
      var h := |stack|;
      assert p[..0] == [] && Net(p[..0]) == 0;
      if Step(stack, at, c).Ok? {
        var next := Step(stack, at, c).value;
        var h' := |next|;
        assert h' == h + (if IsAlnum(c) then 1 else -1);
        RunFailsIff(p[1..], next, at + 1);
        forall j | 0 <= j <= |p| - 1
          ensures h' + Net(p[1..][..j]) == h + Net(p[..j + 1])
        {
          assert p[..j + 1] == [c] + p[1..][..j];
          NetAppend([c], p[1..][..j]);
        }
        if Short(p[1..], h') {
          var j :| 0 <= j < |p[1..]| && !IsAlnum(p[1..][j]) && h' + Net(p[1..][..j]) < 2;
          assert !IsAlnum(p[j + 1]) && h + Net(p[..j + 1]) < 2;
        }
        if Short(p, h) {
          var i :| 0 <= i < |p| && !IsAlnum(p[i]) && h + Net(p[..i]) < 2;
          assert i != 0;
          assert h' + Net(p[1..][..i - 1]) < 2;
        }
      }
    }
  }

  /** A failure names the index of an operator short of operands, and the
      postfix string before it builds without failure. */
  lemma {:induction false} RunErrorAt(p: string, stack: seq<Tree>, at: nat)
    requires Run(p, stack, at).Err?
    ensures var k := Run(p, stack, at).error;
      && k.MissingOperand? && at <= k.at < at + |p|
      && !IsAlnum(p[k.at - at]) && |stack| + Net(p[..k.at - at]) < 2
      && Run(p[..k.at - at], stack, at).Ok?
    decreases |p|
  {
    var c := p[0];
    assert p[..0] == [] && Net(p[..0]) == 0;
    if Step(stack, at, c).Ok? {
      var next := Step(stack, at, c).value;
      RunErrorAt(p[1..], next, at + 1);
      var m := Run(p, stack, at).error.at - at;
      var q := p[..m];
      assert q[0] == c && q[1..] == p[1..][..m - 1];
      assert q == [c] + p[1..][..m - 1];
      NetAppend([c], p[1..][..m - 1]);
    }
  }

  /** buildTree reports no operand exactly for the empty postfix string. */
  lemma BuildEmpty(p: string)
    ensures Build(p) == Err(NoOperand) <==> p == []
  {
    assert AllFormed([]);
    if Run(p, [], 0).Ok? {
      RunKeeps(p, [], 0);
    } else {
      RunErrorAt(p, [], 0);
    }
  }

  /** buildTree fails exactly on the empty string and on an operator short
      of operands. */
  lemma BuildFailsIff(p: string)
    ensures Build(p).Err? <==> p == [] || Short(p, 0)
  {
    assert AllFormed([]);
    RunFailsIff(p, [], 0);
    if Run(p, [], 0).Ok? {
      RunKeeps(p, [], 0);
    }
  }

  /** A well-formed tree read back alone leaves one tree on the stack. */
  lemma FormedNet(t: Tree)
    requires Formed(t)
    ensures Net(Postfix(t)) == 1
  {
    RunPostfix(t, [], 0);
    RunHeight(Postfix(t), [], 0);
  }

  /** A built root is well formed and its postorder ends the postfix
      string; the nodes below it are dropped. */
  lemma BuildRoot(p: string)
    requires Build(p).Ok?
    ensures Formed(Build(p).value) && Net(p) >= 1
    ensures exists head :: head + Postfix(Build(p).value) == p
  {
    assert AllFormed([]);
    RunFormed(p, [], 0);
    RunPosts(p, [], 0);
    RunHeight(p, [], 0);
    var stack := Run(p, [], 0).value;
    assert Formed(stack[|stack| - 1]);
    assert Posts(stack) == Posts(stack[..|stack| - 1]) + Postfix(stack[|stack| - 1]);
    assert [] + p == p;
  }

  /** When exactly one tree is left, the root holds the whole postfix
      string in postorder, with keys numbered from 'a'. */
  lemma BuildWhole(p: string)
    requires Build(p).Ok? && Net(p) == 1
    ensures Postfix(Build(p).value) == p && PostKeys(Build(p).value) == Keys(0, |p|)
  {
    RunPosts(p, [], 0);
    RunKeyPosts(p, [], 0);
    RunHeight(p, [], 0);
    var stack := Run(p, [], 0).value;
    var t := stack[|stack| - 1];
    assert stack[..|stack| - 1] == [];
    assert Posts(stack) == [] + Postfix(t) == Postfix(t);
    assert KeyPosts(stack) == [] + PostKeys(t) == PostKeys(t);
    assert [] + p == p && [] + Keys(0, |p|) == Keys(0, |p|);
  }

  /** The root covers the whole postfix string exactly when one tree is
      left; with more left over, it covers a proper suffix and the trees
      below it are lost. */
  lemma BuildLeftover(p: string)
    requires Build(p).Ok?
    ensures Postfix(Build(p).value) == p <==> Net(p) == 1
    ensures Net(p) > 1 ==> |Postfix(Build(p).value)| < |p|
  {
    var t := Build(p).value;
    BuildRoot(p);
    FormedNet(t);
    var head :| head + Postfix(t) == p;
    NetAppend(head, Postfix(t));
    if Net(p) == 1 {
      BuildWhole(p);
    }
    if Net(p) > 1 {
      assert head != [];
    }
  }

  /** The nodes of a tree built from a whole expression carry pairwise
      distinct keys exactly when it has at most 256 symbols; with more, the
      wrapped counter gives two nodes the same key. */
  lemma BuiltKeysDistinct(p: string)
    requires Build(p).Ok? && Net(p) == 1
    ensures var keys := PostKeys(Build(p).value);
      |keys| == |p| &&
      ((forall i, j | 0 <= i < j < |keys| :: keys[i] != keys[j]) <==> |p| <= 256)
  {
    BuildWhole(p);
    KeysDistinct(|p|);
    var keys := PostKeys(Build(p).value);
    forall i | 0 <= i < |p|
      ensures keys[i] == KeyOf(i)
    {
      KeysIndex(0, |p|, i);
    }
  }

  /** The keys buildTree gives a tree's nodes, in postorder from the at-th
      node on. */
  function Rekey(t: Tree, at: nat): Tree {
    match t
    case Nil => Nil
    case Node(d, _, l, r) =>
      Node(d, KeyOf(at + Size(l) + Size(r)), Rekey(l, at), Rekey(r, at + Size(l)))
  }

  /** Renumbering changes the keys only. */
  lemma {:induction false} RekeyShape(t: Tree, at: nat)
    ensures SameShape(Rekey(t, at), t) && SameShape(t, Rekey(t, at))
  {
    match t
    case Nil =>
    case Node(d, _, l, r) =>
      RekeyShape(l, at);
      RekeyShape(r, at + Size(l));
  }

  lemma RunLeaf(t: Tree, stack: seq<Tree>, at: nat)
    requires t.Node? && t.left == Nil && t.right == Nil && IsAlnum(t.data)
    ensures Run(Postfix(t), stack, at) == Ok(stack + [Rekey(t, at)])
  {
    assert Postfix(t) == [t.data];
    assert Rekey(t, at) == Node(t.data, KeyOf(at), Nil, Nil);
  }

  /** Reading a then b is reading b from where a left off. */
  lemma RunThen(a: string, b: string, stack: seq<Tree>, at: nat, mid: seq<Tree>, last: seq<Tree>)
    requires Run(a, stack, at) == Ok(mid)
    requires Run(b, mid, at + |a|) == Ok(last)
    ensures Run(a + b, stack, at) == Ok(last)
  {
    RunAppend(a, b, stack, at);
  }

  /** Reading an operator over two trees combines them under a new node. */
  lemma NodeStep(below: seq<Tree>, a: Tree, b: Tree, d: char, at: nat)
    requires !IsAlnum(d)
    ensures Run([d], below + [a] + [b], at) == Ok(below + [Node(d, KeyOf(at), a, b)])
  {
    var s := below + [a] + [b];
    assert s[..|s| - 2] == below && s[|s| - 2] == a && s[|s| - 1] == b;
  }

  /** Reading `pl pr d`, where reading pl pushes a and reading pr then
      pushes b: d combines them under a node with the next key. */
  lemma ReadNode(pl: string, pr: string, d: char, stack: seq<Tree>, at: nat, mid: nat, top: nat,
                 a: Tree, b: Tree)
    requires !IsAlnum(d) && mid == at + |pl| && top == mid + |pr|
    requires Run(pl, stack, at) == Ok(stack + [a])
    requires Run(pr, stack + [a], mid) == Ok(stack + [a] + [b])
    ensures Run(pl + pr + [d], stack, at) == Ok(stack + [Node(d, KeyOf(top), a, b)])
  {
    RunThen(pl, pr, stack, at, stack + [a], stack + [a] + [b]);
    NodeStep(stack, a, b, d, top);
    RunThen(pl + pr, [d], stack, at, stack + [a] + [b], stack + [Node(d, KeyOf(top), a, b)]);
  }

  /** Reading a well-formed tree's postorder pushes that tree, renumbered. */
  lemma {:induction false} RunPostfix(t: Tree, stack: seq<Tree>, at: nat)
    requires Formed(t)
    ensures Run(Postfix(t), stack, at) == Ok(stack + [Rekey(t, at)])
  {
    if t.left == Nil && t.right == Nil {
      RunLeaf(t, stack, at);
    } else {
      var l, r := t.left, t.right;
      var mid := at + Size(l);
      RunPostfix(l, stack, at);
      RunPostfix(r, stack + [Rekey(l, at)], mid);
      ReadNode(Postfix(l), Postfix(r), t.data, stack, at, mid, mid + Size(r), Rekey(l, at), Rekey(r, mid));
    }
  }

  /** buildTree rebuilds any well-formed tree from its postorder, with keys
      numbered from 'a' in postorder. */
  lemma BuildPostfix(t: Tree)
    requires Formed(t)
    ensures Build(Postfix(t)) == Ok(Rekey(t, 0))
  {
    RunPostfix(t, [], 0);
    assert [] + [Rekey(t, 0)] == [Rekey(t, 0)];
  }
}
