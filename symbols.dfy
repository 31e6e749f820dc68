/** Character classes, the precedence table and the error kinds shared by
    both stages of the expression pipeline. */
module Symbols {

  /** The six characters infix_to_postfix handles as operators or grouping. */
  predicate IsOperator(c: char) {
    c == '+' || c == '-' || c == '*' || c == '/' || c == '(' || c == ')'
  }

  /** The four left-associative binary operators. */
  predicate IsBinary(c: char) {
    c == '+' || c == '-' || c == '*' || c == '/'
  }

  /** What infix_to_postfix copies straight to its output: any character that
      is neither a space nor one of the six operator characters. */
  predicate IsOperand(c: char) {
    c != ' ' && !IsOperator(c)
  }

  /** buildTree's operand test, `isalnum` in the "C" locale: ASCII letters and digits. */
  predicate IsAlnum(c: char) {
    ('0' <= c <= '9') || ('A' <= c <= 'Z') || ('a' <= c <= 'z')
  }

  /** The precedence rank of a character: `(` outranks the multiplicative
      operators, which outrank the additive ones; everything else ranks 0. */
  function Priority(op: char): (p: int)
    ensures 0 <= p <= 3
    ensures p == 3 <==> op == '('
    ensures p == 2 <==> op == '*' || op == '/'
    ensures p == 1 <==> op == '+' || op == '-'
    ensures p == 0 <==> IsOperand(op) || op == ')' || op == ' '
  {
    if op == '(' then 3
    else if op == '*' || op == '/' then 2
    else if op == '+' || op == '-' then 1
    else 0
  }

  /** The operand characters of s, in order. */
  function Operands(s: string): string {
    if s == [] then []
    else (if IsOperand(s[0]) then [s[0]] else []) + Operands(s[1..])
  }

  /** The binary operator characters of s, in order. */
  function BinaryOps(s: string): string {
    if s == [] then []
    else (if IsBinary(s[0]) then [s[0]] else []) + BinaryOps(s[1..])
  }

  /** The number of occurrences of c in s. */
  function Count(c: char, s: string): nat {
    if s == [] then 0 else (if s[0] == c then 1 else 0) + Count(c, s[1..])
  }

  lemma {:induction false} OperandsAppend(a: string, b: string)
    ensures Operands(a + b) == Operands(a) + Operands(b)
  {
    if a != [] {
      assert (a + b)[0] == a[0] && (a + b)[1..] == a[1..] + b;
      OperandsAppend(a[1..], b);
    } else {
      assert a + b == b;
    }
  }

  lemma {:induction false} BinaryOpsAppend(a: string, b: string)
    ensures BinaryOps(a + b) == BinaryOps(a) + BinaryOps(b)
  {
    if a != [] {
      assert (a + b)[0] == a[0] && (a + b)[1..] == a[1..] + b;
      BinaryOpsAppend(a[1..], b);
    } else {
      assert a + b == b;
    }
  }

  lemma {:induction false} CountAppend(c: char, a: string, b: string)
    ensures Count(c, a + b) == Count(c, a) + Count(c, b)
  {
    if a != [] {
      assert (a + b)[0] == a[0] && (a + b)[1..] == a[1..] + b;
      CountAppend(c, a[1..], b);
    } else {
      assert a + b == b;
    }
  }

  /** Regrouping a concatenation. Proofs that reason about the conversion
      or the traversals call it on plain variables instead of leaving the
      solver to regroup terms that also occur inside recursive functions. */
  lemma Assoc<T>(a: seq<T>, b: seq<T>, c: seq<T>)
    ensures a + b + c == a + (b + c)
  {
  }

  lemma {:induction false} CountZero(c: char, s: string)
    ensures Count(c, s) == 0 <==> c !in s
  {
    if s != [] {
      CountZero(c, s[1..]);
      assert s == [s[0]] + s[1..];
    }
  }

  /** Error kinds for input the source does not guard against. */
  datatype Malformed =
    | UnmatchedClose        // a `)` with no `(` left on the operator stack
    | MissingOperand(at: nat) // an operator at this postfix index finds fewer than two nodes
    | NoOperand             // the postfix string is empty, so no node is left for the root

  datatype Result<T> = Ok(value: T) | Err(error: Malformed)
}
