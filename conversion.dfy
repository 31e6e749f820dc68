/** infix_to_postfix as a state machine: one step per input character over
    an operator stack and an output string, then the final drain. */
module Conversion {
  import opened Symbols

  /** The operator stack, top first, and the output written so far. */
  datatype State = State(stack: seq<char>, out: string)

  const Start := State([], [])

  /** What the state will have written once the stack is drained. */
  function Flat(st: State): string {
    st.out + st.stack
  }

  /** The stack holds only binary operators and `(`; the output holds only
      operands and binary operators. */
  predicate Good(st: State) {
    && (forall x | x in st.stack :: IsBinary(x) || x == '(')
    && (forall x | x in st.out :: IsOperand(x) || IsBinary(x))
  }

  /** The pop loop for a binary operator c: pop to the output while the stack
      is non-empty, c does not outrank the top, and the top is not `(`. */
  function PopHigher(c: char, st: State): (r: State)
    ensures Flat(r) == Flat(st)
    ensures |r.stack| <= |st.stack|
    decreases |st.stack|
  {
    if st.stack != [] && Priority(c) <= Priority(st.stack[0]) && st.stack[0] != '(' then
      PopHigher(c, State(st.stack[1..], st.out + [st.stack[0]]))
    else st
  }

  /** The pop loop for `)`: pop to the output until `(`, which is discarded.
      Running out of stack first is the source's unchecked `top()` on an
      empty stack. */
  function PopToOpen(st: State): (r: Result<State>)
    ensures r.Err? <==> '(' !in st.stack
    ensures r.Err? ==> r.error == UnmatchedClose
    ensures r.Ok? ==> Flat(st) == r.value.out + "(" + r.value.stack
    decreases |st.stack|
  {
    if st.stack == [] then Err(UnmatchedClose)
    else if st.stack[0] == '(' then Ok(State(st.stack[1..], st.out))
    else PopToOpen(State(st.stack[1..], st.out + [st.stack[0]]))
  }

  /** One iteration of the loop over the input. */
  function Step(st: State, c: char): (r: Result<State>)
    ensures r.Err? <==> c == ')' && '(' !in st.stack
    ensures r.Err? ==> r.error == UnmatchedClose
  {
    if c == ' ' then Ok(st)
    else if c == '(' then Ok(State([c] + st.stack, st.out))
    else if c == ')' then PopToOpen(st)
    else if IsOperator(c) then
      var popped := PopHigher(c, st);
      Ok(State([c] + popped.stack, popped.out))
    else Ok(State(st.stack, st.out + [c]))
  }

  /** The loop over the remaining input s. */
  function Run(s: string, st: State): (r: Result<State>)
    ensures r.Err? ==> r.error == UnmatchedClose
    decreases |s|
  {
    if s == [] then Ok(st)
    else
      match Step(st, s[0])
      case Err(e) => Err(e)
      case Ok(next) => Run(s[1..], next)
  }

  /** The whole conversion: the loop, then the remaining operators in pop order. */
  function InfixToPostfix(infix: string): (r: Result<string>)
    ensures r.Err? ==> r.error == UnmatchedClose
  {
    match Run(infix, Start)
    case Err(e) => Err(e)
    case Ok(st) => Ok(Flat(st))
  }

  /** Some prefix of s closes more parentheses than the d already open plus
      those it opens. */
  predicate Unmatched(s: string, d: nat) {
    exists i :: 0 < i <= |s| && d + Count('(', s[..i]) < Count(')', s[..i])
  }

  predicate Balanced(s: string) {
    !Unmatched(s, 0) && Count('(', s) == Count(')', s)
  }

  lemma {:induction false} RunAppend(a: string, b: string, st: State)
    ensures Run(a + b, st) == match Run(a, st) case Err(e) => Err(e) case Ok(m) => Run(b, m)
    decreases |a|
  {
    if a == [] {
      assert a + b == b;
    } else {
      assert (a + b)[0] == a[0] && (a + b)[1..] == a[1..] + b;
      match Step(st, a[0])
      case Err(e) =>
      case Ok(next) => RunAppend(a[1..], b, next);
    }
  }

  lemma RunChar(c: char, st: State)
    ensures Run([c], st) == Step(st, c)
  {
    assert [c][1..] == [];
  }

  /** Popping for an operator moves the top of the stack to the end of the
      output, so it never changes the drained result. */
  lemma {:induction false} PopHigherKeeps(c: char, st: State)
    requires Good(st)
    ensures Good(PopHigher(c, st))
    ensures Flat(PopHigher(c, st)) == Flat(st)
    ensures Count('(', PopHigher(c, st).stack) == Count('(', st.stack)
    ensures PopHigher(c, st).stack == [] || PopHigher(c, st).stack[0] == '('
            || Priority(c) > Priority(PopHigher(c, st).stack[0])
    decreases |st.stack|
  {
    if st.stack != [] && Priority(c) <= Priority(st.stack[0]) && st.stack[0] != '(' {
      var next := State(st.stack[1..], st.out + [st.stack[0]]);
      assert Flat(next) == Flat(st) by {
        assert st.stack == [st.stack[0]] + st.stack[1..];
      }
      assert Count('(', st.stack) == Count('(', next.stack);
      PopHigherKeeps(c, next);
    }
  }

  /** Popping for `)` fails exactly when no `(` is on the stack; otherwise it
      removes the topmost `(` and moves the operators above it to the output. */
  lemma {:induction false} PopToOpenKeeps(st: State)
    requires Good(st)
    ensures PopToOpen(st).Err? <==> Count('(', st.stack) == 0
    ensures PopToOpen(st).Ok? ==>
              && Good(PopToOpen(st).value)
              && Flat(st) == PopToOpen(st).value.out + "(" + PopToOpen(st).value.stack
              && Count('(', st.stack) == Count('(', PopToOpen(st).value.stack) + 1
    decreases |st.stack|
  {
    if st.stack != [] {
      var top := st.stack[0];
      assert st.stack == [top] + st.stack[1..];
      CountAppend('(', [top], st.stack[1..]);
      assert Count('(', [top]) == (if top == '(' then 1 else 0) by { assert [top][1..] == []; }
      if top != '(' {
        var next := State(st.stack[1..], st.out + [top]);
        assert Flat(next) == Flat(st);
        PopToOpenKeeps(next);
      }
    }
  }

  lemma NoOperandsOnStack(stack: seq<char>)
    requires forall x | x in stack :: IsBinary(x) || x == '('
    ensures Operands(stack) == []
    decreases |stack|
  {
    if stack != [] {
      assert stack[0] in stack;
      NoOperandsOnStack(stack[1..]);
    }
  }

  /** The state a step inserts its character into, after any popping. */
  function Before(st: State, c: char): State {
    if IsBinary(c) then PopHigher(c, st) else st
  }

  /** A step either changes nothing (a space), removes a `(` from between
      output and stack (a `)`), or inserts its character there, after popping
      for an operator; it fails only on `)` with no `(` on the stack. */
  lemma StepShape(st: State, c: char)
    requires Good(st)
    ensures Step(st, c).Err? <==> c == ')' && Count('(', st.stack) == 0
    ensures Step(st, c).Ok? ==> Good(Step(st, c).value)
    ensures c == ' ' ==> Step(st, c) == Ok(st)
    ensures c == ')' && Step(st, c).Ok? ==>
              Flat(st) == Step(st, c).value.out + "(" + Step(st, c).value.stack
              && Count('(', st.stack) == Count('(', Step(st, c).value.stack) + 1
    ensures c != ' ' && c != ')' ==>
              && Step(st, c).Ok?
              && Good(Before(st, c))
              && Flat(Before(st, c)) == Flat(st)
              && Count('(', Before(st, c).stack) == Count('(', st.stack)
              && Flat(Step(st, c).value) == Before(st, c).out + [c] + Before(st, c).stack
              && Count('(', Step(st, c).value.stack) == Count('(', st.stack) + (if c == '(' then 1 else 0)
  {
    if c == ')' {
      PopToOpenKeeps(st);
    } else if c == '(' || IsBinary(c) {
      PopHigherKeeps(c, st);
      var p := Before(st, c);
      CountAppend('(', [c], p.stack);
      assert Count('(', [c]) == (if c == '(' then 1 else 0) by { assert [c][1..] == []; }
    }
  }

  /** Inserting one character between the output and an operand-free stack. */
  lemma InsertOperand(x: string, c: char, y: string)
    requires Operands(y) == []
    ensures Operands(x + [c] + y) == Operands(x + y) + Operands([c])
  {
    OperandsAppend(x, [c]);
    OperandsAppend(x + [c], y);
    OperandsAppend(x, y);
  }

  lemma InsertBinary(x: string, c: char, y: string)
    ensures multiset(BinaryOps(x + [c] + y)) == multiset(BinaryOps(x + y)) + multiset(BinaryOps([c]))
  {
    BinaryOpsAppend(x, [c]);
    BinaryOpsAppend(x + [c], y);
    BinaryOpsAppend(x, y);
  }

  lemma OneChar(c: char)
    ensures Operands([c]) == (if IsOperand(c) then [c] else [])
    ensures BinaryOps([c]) == (if IsBinary(c) then [c] else [])
    ensures Count('(', [c]) == (if c == '(' then 1 else 0)
    ensures Count(')', [c]) == (if c == ')' then 1 else 0)
  {
    assert [c][1..] == [];
  }

  /** A successful step appends the operand it reads to what the state
      drains to. */
  lemma StepOperands(st: State, c: char)
    requires Good(st) && Step(st, c).Ok?
    ensures Operands(Flat(Step(st, c).value)) == Operands(Flat(st)) + Operands([c])
  {
    StepShape(st, c);
    OneChar(c);
    var r := Step(st, c).value;
    if c == ')' {
      NoOperandsOnStack(r.stack);
      InsertOperand(r.out, '(', r.stack);
    } else if c != ' ' {
      var p := Before(st, c);
      NoOperandsOnStack(p.stack);
      InsertOperand(p.out, c, p.stack);
    }
  }

  /** A successful step adds the operator it reads to what the state drains to. */
  lemma StepBinaries(st: State, c: char)
    requires Good(st) && Step(st, c).Ok?
    ensures multiset(BinaryOps(Flat(Step(st, c).value)))
            == multiset(BinaryOps(Flat(st))) + multiset(BinaryOps([c]))
  {
    StepShape(st, c);
    OneChar(c);
    var r := Step(st, c).value;
    if c == ')' {
      InsertBinary(r.out, '(', r.stack);
    } else if c != ' ' {
      var p := Before(st, c);
      InsertBinary(p.out, c, p.stack);
    }
  }

  lemma StepCount(st: State, c: char)
    requires Good(st) && Step(st, c).Ok?
    ensures Count('(', Step(st, c).value.stack) + Count(')', [c]) == Count('(', st.stack) + Count('(', [c])
  {
    StepShape(st, c);
    OneChar(c);
  }

  /** The first step of a successful loop succeeds and keeps the invariant. */
  lemma StepGood(s: string, st: State)
    requires Good(st) && s != [] && Run(s, st).Ok?
    ensures Step(st, s[0]).Ok? && Good(Step(st, s[0]).value)
    ensures s == [s[0]] + s[1..]
    ensures Run(s, st) == Run(s[1..], Step(st, s[0]).value)
  {
    StepShape(st, s[0]);
  }

  /** The loop keeps the invariant. */
  lemma {:induction false} RunGood(s: string, st: State)
    requires Good(st) && Run(s, st).Ok?
    ensures Good(Run(s, st).value)
    decreases |s|
  {
    if s != [] {
      StepShape(st, s[0]);
      RunGood(s[1..], Step(st, s[0]).value);
    }
  }

  /** The loop accounts for every operand it reads, in order. */
  lemma {:induction false} RunOperands(s: string, st: State)
    requires Good(st) && Run(s, st).Ok?
    ensures Operands(Flat(Run(s, st).value)) == Operands(Flat(st)) + Operands(s)
    decreases |s|
  {
    if s != [] {
      var c := s[0];
      StepGood(s, st);
      StepOperands(st, c);
      RunOperands(s[1..], Step(st, c).value);
      OperandsAppend([c], s[1..]);
      Assoc(Operands(Flat(st)), Operands([c]), Operands(s[1..]));
    }
  }

  /** The loop accounts for every binary operator it reads. */
  lemma {:induction false} RunBinaries(s: string, st: State)
    requires Good(st) && Run(s, st).Ok?
    ensures multiset(BinaryOps(Flat(Run(s, st).value)))
            == multiset(BinaryOps(Flat(st))) + multiset(BinaryOps(s))
    decreases |s|
  {
    if s != [] {
      var c := s[0];
      assert s == [c] + s[1..];
      BinaryOpsAppend([c], s[1..]);
      StepGood(s, st);
      StepBinaries(st, c);
      RunBinaries(s[1..], Step(st, c).value);
    }
  }

  /** The `(` on the stack are those read and not yet closed. */
  lemma {:induction false} RunCount(s: string, st: State)
    requires Good(st) && Run(s, st).Ok?
    ensures Count('(', Run(s, st).value.stack) + Count(')', s) == Count('(', st.stack) + Count('(', s)
    decreases |s|
  {
    if s != [] {
      var c := s[0];
      assert s == [c] + s[1..];
      CountAppend('(', [c], s[1..]);
      CountAppend(')', [c], s[1..]);
      StepShape(st, c);
      StepCount(st, c);
      RunCount(s[1..], Step(st, c).value);
    }
  }

  /** The loop fails exactly when some prefix of the input closes a
      parenthesis that is not open. */
  lemma {:induction false} RunFailsIff(s: string, st: State)
    requires Good(st)
    ensures Run(s, st).Err? <==> Unmatched(s, Count('(', st.stack))
    decreases |s|
  {
    var d := Count('(', st.stack);
    if s == [] {
    } else {
      var c := s[0];
      StepShape(st, c);
      assert s[..1] == [c];
      if Step(st, c).Err? {
        assert d + Count('(', s[..1]) < Count(')', s[..1]);
      } else {
        StepCount(st, c);
        var next := Step(st, c).value;
        var d' := Count('(', next.stack);
        RunFailsIff(s[1..], next);
        assert d' + Count(')', [c]) == d + Count('(', [c]);
        forall j | 0 < j <= |s| - 1
          ensures (d' + Count('(', s[1..][..j]) < Count(')', s[1..][..j]))
                  <==> (d + Count('(', s[..j + 1]) < Count(')', s[..j + 1]))
        {
          assert s[..j + 1] == [c] + s[1..][..j];
          CountAppend('(', [c], s[1..][..j]);
          CountAppend(')', [c], s[1..][..j]);
        }
        assert !(d + Count('(', s[..1]) < Count(')', s[..1]));
        if Unmatched(s[1..], d') {
          var j :| 0 < j <= |s[1..]| && d' + Count('(', s[1..][..j]) < Count(')', s[1..][..j]);
          assert d + Count('(', s[..j + 1]) < Count(')', s[..j + 1]);
        }
        if Unmatched(s, d) {
          var i :| 0 < i <= |s| && d + Count('(', s[..i]) < Count(')', s[..i]);
          assert i != 1;
          assert d' + Count('(', s[1..][..i - 1]) < Count(')', s[1..][..i - 1]);
        }
      }
    }
  }

  /** infix_to_postfix fails exactly on an unmatched `)`, the case where the
      source calls `top()` on an empty stack. */
  lemma ConvertFailsIff(s: string)
    ensures InfixToPostfix(s).Err? <==> Unmatched(s, 0)
  {
    assert Good(Start);
    RunFailsIff(s, Start);
  }

  /** The output keeps the operands in input order and holds each binary
      operator of the input exactly once. */
  lemma ConvertKeepsOperands(s: string)
    requires InfixToPostfix(s).Ok?
    ensures Operands(InfixToPostfix(s).value) == Operands(s)
    ensures multiset(BinaryOps(InfixToPostfix(s).value)) == multiset(BinaryOps(s))
  {
    assert Good(Start) && Flat(Start) == [];
    RunOperands(s, Start);
    RunBinaries(s, Start);
  }

  /** The output has no space and no `)`, and one `(` for each `(` that is
      never closed. */
  lemma ConvertDropsParens(s: string)
    requires InfixToPostfix(s).Ok?
    ensures ' ' !in InfixToPostfix(s).value
    ensures ')' !in InfixToPostfix(s).value
    ensures Count('(', InfixToPostfix(s).value) == Count('(', s) - Count(')', s)
  {
    assert Good(Start);
    RunGood(s, Start);
    RunCount(s, Start);
    var st := Run(s, Start).value;
    CountAppend('(', st.out, st.stack);
    CountZero('(', st.out);
    assert forall x | x in Flat(st) :: x in st.out || x in st.stack;
  }

  /** Balanced input converts, and its output holds only operands and binary
      operators. */
  lemma BalancedConverts(s: string)
    requires Balanced(s)
    ensures InfixToPostfix(s).Ok?
    ensures forall x | x in InfixToPostfix(s).value :: IsOperand(x) || IsBinary(x)
  {
    assert Good(Start);
    RunFailsIff(s, Start);
    RunGood(s, Start);
    RunCount(s, Start);
    var st := Run(s, Start).value;
    CountZero('(', st.stack);
    assert forall x | x in Flat(st) :: x in st.out || x in st.stack;
  }

  /** Reading `a o1 b` leaves `ab` written and o1 on the stack. */
  lemma FirstOperator(a: char, o1: char, b: char)
    requires IsOperand(a) && IsOperand(b) && IsBinary(o1)
    ensures Run([a, o1, b], Start) == Ok(State([o1], [a, b]))
  {
    var s1 := State([], [a]);
    var s2 := State([o1], [a]);
    var s3 := State([o1], [a, b]);
    assert Start.out + [a] == [a];
    assert Step(Start, a) == Ok(s1);
    assert PopHigher(o1, s1) == s1;
    assert [o1] + s1.stack == [o1];
    assert Step(s1, o1) == Ok(s2);
    assert s2.out + [b] == [a, b];
    assert Step(s2, b) == Ok(s3);
    assert [a, o1, b] == [a] + [o1] + [b];
    RunAppend([a] + [o1], [b], Start);
    RunAppend([a], [o1], Start);
    RunChar(a, Start);
    RunChar(o1, s1);
    RunChar(b, s2);
  }

  /** Reading `o2 c` after that. */
  lemma SecondOperator(a: char, o1: char, b: char, o2: char, c: char)
    requires IsOperand(c) && IsBinary(o1) && IsBinary(o2)
    ensures Run([o2, c], State([o1], [a, b]))
            == Ok(if Priority(o2) <= Priority(o1) then State([o2], [a, b, o1, c]) else State([o2, o1], [a, b, c]))
  {
    var s3 := State([o1], [a, b]);
    var s4 := if Priority(o2) <= Priority(o1) then State([o2], [a, b, o1]) else State([o2, o1], [a, b]);
    if Priority(o2) <= Priority(o1) {
      var p := State([], [a, b, o1]);
      assert s3.stack[1..] == [] && s3.out + [s3.stack[0]] == [a, b, o1];
      assert PopHigher(o2, p) == p;
      assert PopHigher(o2, s3) == p;
      assert [o2] + p.stack == [o2];
    } else {
      assert PopHigher(o2, s3) == s3;
      assert [o2] + s3.stack == [o2, o1];
    }
    assert Step(s3, o2) == Ok(s4);
    assert Step(s4, c) == Ok(State(s4.stack, s4.out + [c]));
    assert s4.out + [c] == if Priority(o2) <= Priority(o1) then [a, b, o1, c] else [a, b, c];
    assert [o2, c] == [o2] + [c];
    RunAppend([o2], [c], s3);
    RunChar(o2, s3);
    RunChar(c, s4);
  }

  /** Two operators in a row: the earlier one is written first unless the
      later one outranks it, so equal ranks associate to the left. */
  lemma TwoOperators(a: char, o1: char, b: char, o2: char, c: char)
    requires IsOperand(a) && IsOperand(b) && IsOperand(c)
    requires IsBinary(o1) && IsBinary(o2)
    ensures InfixToPostfix([a, o1, b, o2, c])
            == Ok(if Priority(o2) <= Priority(o1) then [a, b, o1, c, o2] else [a, b, c, o2, o1])
  {
    assert [a, o1, b, o2, c] == [a, o1, b] + [o2, c];
    RunAppend([a, o1, b], [o2, c], Start);
    FirstOperator(a, o1, b);
    SecondOperator(a, o1, b, o2, c);
    assert [a, b, o1, c] + [o2] == [a, b, o1, c, o2];
    assert [a, b, c] + [o2, o1] == [a, b, c, o2, o1];
  }

  /** s without its spaces. */
  function NoSpaces(s: string): (r: string)
    ensures ' ' !in r
    ensures ' ' !in s ==> r == s
  {
    if s == [] then []
    else if s[0] == ' ' then NoSpaces(s[1..])
    else [s[0]] + NoSpaces(s[1..])
  }

  lemma {:induction false} NoSpacesAppend(a: string, b: string)
    ensures NoSpaces(a + b) == NoSpaces(a) + NoSpaces(b)
  {
    if a != [] {
      assert (a + b)[0] == a[0] && (a + b)[1..] == a[1..] + b;
      NoSpacesAppend(a[1..], b);
    } else {
      assert a + b == b;
    }
  }

  /** The loop skips spaces: reading s, to an error or not, is reading s
      without its spaces. */
  lemma {:induction false} RunSkipsSpaces(s: string, st: State)
    ensures Run(s, st) == Run(NoSpaces(s), st)
    decreases |s|
  {
    if s != [] {
      if s[0] == ' ' {
        RunSkipsSpaces(s[1..], st);
      } else {
        var t := NoSpaces(s);
        assert t[0] == s[0] && t[1..] == NoSpaces(s[1..]);
        match Step(st, s[0])
        case Err(_) =>
        case Ok(next) => RunSkipsSpaces(s[1..], next);
      }
    }
  }

  /** Spaces never change what the conversion returns. */
  lemma SpacesIgnored(s: string)
    ensures InfixToPostfix(s) == InfixToPostfix(NoSpaces(s))
  {
    RunSkipsSpaces(s, Start);
  }
}
