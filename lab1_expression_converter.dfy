/** Stack-based conversions between infix, prefix and postfix notation, with the input checks
    that run before them (lab1/expression_converter.py). */
module ExpressionConverter {
  import opened Common
  import opened ExpressionStack

  /** The exceptions a conversion can raise: InvalidExpressionError from the checks and the
      scans, and the stack's Empty from a pop on an empty stack. */
  datatype ConvError = InvalidExpressionError(message: string) | StackEmpty(message: string)

  // ---------------------------------------------------------------------------------------
  // The operator table

  /** A key of `_precedence`. */
  predicate IsOperator(c: char) {
    c == '^' || c == '*' || c == '/' || c == '+' || c == '-'
  }

  /** `_get_precedence`: 3 for '^', 2 for '*' and '/', 1 for '+' and '-', -1 for anything else. */
  function Precedence(c: char): (p: int)
    ensures IsOperator(c) <==> p >= 1
    ensures !IsOperator(c) ==> p == -1
    ensures p <= 3 && (p == 3 <==> c == '^')
  {
    if c == '^' then 3
    else if c == '*' || c == '/' then 2
    else if c == '+' || c == '-' then 1
    else -1
  }

  datatype Assoc = LeftAssoc | RightAssoc

  /** `_get_associativity`: only '^' is right-associative; None for a non-operator. */
  function Associativity(c: char): (a: Option<Assoc>)
    ensures a.None? <==> !IsOperator(c)
    ensures a == Some(RightAssoc) <==> c == '^'
  {
    if c == '^' then Some(RightAssoc)
    else if IsOperator(c) then Some(LeftAssoc)
    else None
  }

  // ---------------------------------------------------------------------------------------
  // The checks

  /** A character `_validate_tokens` accepts. */
  predicate ValidToken(c: char) {
    IsSpace(c) || IsAlpha(c) || IsOperator(c) || c == '(' || c == ')'
  }

  function InvalidCharacter(c: char): ConvError {
    InvalidExpressionError("Invalid character in expression: '" + [c] + "'")
  }

  /** `_validate_tokens`: fails on the first character that is not whitespace, a letter, an
      operator or a parenthesis, and only then. */
  method ValidateTokens(expr: string) returns (r: Outcome<ConvError>)
    ensures r.Pass? <==> forall i :: 0 <= i < |expr| ==> ValidToken(expr[i])
    ensures r.Fail? ==> exists i :: (0 <= i < |expr| && !ValidToken(expr[i]) &&
      (forall j :: 0 <= j < i ==> ValidToken(expr[j])) && r.error == InvalidCharacter(expr[i]))
  {
    var i := 0;
    while i < |expr|
      invariant 0 <= i <= |expr|
      invariant forall j :: 0 <= j < i ==> ValidToken(expr[j])
    {
      var c := expr[i];
      if !(IsSpace(c) || IsAlpha(c) || IsOperator(c) || c == '(' || c == ')') {
        return Fail(InvalidCharacter(c));
      }
      i := i + 1;
    }
    return Pass;
  }

  /** The number of '(' minus the number of ')' in s. */
  function Depth(s: string): int {
    if s == [] then 0
    else Depth(s[..|s| - 1]) + (if s[|s| - 1] == '(' then 1 else if s[|s| - 1] == ')' then -1 else 0)
  }

  /** Some prefix of s closes more parentheses than it opens. */
  predicate ClosesTooSoon(s: string) {
    exists k :: 0 <= k <= |s| && Depth(s[..k]) < 0
  }

  /** No prefix closes more than it opens, and all are closed at the end. */
  predicate Balanced(s: string) {
    !ClosesTooSoon(s) && Depth(s) == 0
  }

  /** `_check_parentheses`: a stack of the open '(' so far. */
  method CheckParentheses(expr: string) returns (r: Outcome<ConvError>)
    ensures r.Pass? <==> Balanced(expr)
    ensures r == Fail(InvalidExpressionError("Unmatched closing parenthesis")) <==> ClosesTooSoon(expr)
    ensures r.Fail? && !ClosesTooSoon(expr) ==> r == Fail(InvalidExpressionError("Unmatched opening parenthesis"))
  {
    var stack := new Stack<char>();
    var i := 0;
    while i < |expr|
      invariant 0 <= i <= |expr|
      invariant |stack.items| == Depth(expr[..i])
      invariant forall k :: 0 <= k <= i ==> Depth(expr[..k]) >= 0
    {
      var c := expr[i];
      assert expr[..i + 1][..i] == expr[..i];
      if c == '(' {
        stack.Push(c);
      } else if c == ')' {
        if stack.IsEmpty() {
          assert Depth(expr[..i + 1]) < 0;
          return Fail(InvalidExpressionError("Unmatched closing parenthesis"));
        }
        var _ := stack.Pop();
      }
      i := i + 1;
    }
    assert expr[..|expr|] == expr;
    if !stack.IsEmpty() {
      return Fail(InvalidExpressionError("Unmatched opening parenthesis"));
    }
    return Pass;
  }

  /** `_require_operator_present`. */
  method RequireOperatorPresent(expr: string) returns (r: Outcome<ConvError>)
    ensures r.Pass? <==> exists i :: 0 <= i < |expr| && IsOperator(expr[i])
    ensures r.Fail? ==> r.error == InvalidExpressionError("Expression must contain at least one operator")
  {
    for i := 0 to |expr|
      invariant forall j :: 0 <= j < i ==> !IsOperator(expr[j])
    {
      if IsOperator(expr[i]) {
        return Pass;
      }
    }
    return Fail(InvalidExpressionError("Expression must contain at least one operator"));
  }

  /** A character that clears `prev_was_operator`. */
  predicate Resets(c: char) {
    IsAlpha(c) || c == '(' || c == ')'
  }

  /** `prev_was_operator` after scanning s: set by an operator, cleared by a letter or a
      parenthesis, kept by anything else. */
  function PrevWasOperator(s: string): bool {
    if s == [] then false
    else if IsOperator(s[|s| - 1]) then true
    else if Resets(s[|s| - 1]) then false
    else PrevWasOperator(s[..|s| - 1])
  }

  function OperatorSequenceError(c: char): ConvError {
    InvalidExpressionError("Invalid operator sequence: two operators in a row near '" + [c] + "'")
  }

  /** `_check_infix_operator_sequence`: fails at the first operator met while the flag is set. */
  method CheckInfixOperatorSequence(expr: string) returns (r: Outcome<ConvError>)
    ensures r.Pass? <==> forall j :: 0 <= j < |expr| ==> !(IsOperator(expr[j]) && PrevWasOperator(expr[..j]))
    ensures r.Fail? ==> exists j :: (0 <= j < |expr| && IsOperator(expr[j]) && PrevWasOperator(expr[..j]) &&
      NoOperatorPairs(expr[..j]) && r.error == OperatorSequenceError(expr[j]))
  {
    var prevWasOperator := false;
    var i := 0;
    while i < |expr|
      invariant 0 <= i <= |expr|
      invariant prevWasOperator == PrevWasOperator(expr[..i])
      invariant forall j :: 0 <= j < i ==> !(IsOperator(expr[j]) && PrevWasOperator(expr[..j]))
    {
      var c := expr[i];
      assert expr[..i + 1][..i] == expr[..i];
      if IsSpace(c) {
      } else if IsOperator(c) {
        if prevWasOperator {
          PairsBefore(expr, i);
          return Fail(OperatorSequenceError(c));
        }
        prevWasOperator := true;
      } else if IsAlpha(c) || c == '(' || c == ')' {
        prevWasOperator := false;
      }
      i := i + 1;
    }
    return Pass;
  }

  /** What the loop has checked so far, restated over the prefix it has read. */
  lemma PairsBefore(s: string, i: nat)
    requires i <= |s| && forall j :: 0 <= j < i ==> !(IsOperator(s[j]) && PrevWasOperator(s[..j]))
    ensures NoOperatorPairs(s[..i])
  {
    forall j | 0 <= j < i
      ensures !(IsOperator(s[..i][j]) && PrevWasOperator(s[..i][..j]))
    {
      assert s[..i][..j] == s[..j];
    }
  }

  /** Two operators with nothing that clears the flag between them. */
  predicate AdjacentOperators(s: string) {
    exists i, j :: 0 <= i < j < |s| && IsOperator(s[i]) && IsOperator(s[j]) &&
      forall k :: i < k < j ==> !Resets(s[k])
  }

  /** The flag is set exactly when an operator occurs with nothing that clears it after it. */
  lemma {:induction false} FlagMeansOperator(s: string)
    ensures PrevWasOperator(s) <==> exists i :: (0 <= i < |s| && IsOperator(s[i]) &&
      forall k :: i < k < |s| ==> !Resets(s[k]))
    decreases |s|
  {
    if s != [] {
      var init := s[..|s| - 1];
      var c := s[|s| - 1];
      FlagMeansOperator(init);
      if IsOperator(c) {
        assert IsOperator(s[|s| - 1]);
      } else if Resets(c) {
      } else {
        if PrevWasOperator(init) {
          var i :| 0 <= i < |init| && IsOperator(init[i]) && forall k :: i < k < |init| ==> !Resets(init[k]);
          assert IsOperator(s[i]);
          forall k | i < k < |s|
            ensures !Resets(s[k])
          {
            if k < |init| {
              assert s[k] == init[k];
            }
          }
        }
        if exists i :: 0 <= i < |s| && IsOperator(s[i]) && forall k :: i < k < |s| ==> !Resets(s[k]) {
          var i :| 0 <= i < |s| && IsOperator(s[i]) && forall k :: i < k < |s| ==> !Resets(s[k]);
          assert i < |init|;
          assert IsOperator(init[i]);
          forall k | i < k < |init|
            ensures !Resets(init[k])
          {
            assert init[k] == s[k];
          }
        }
      }
    }
  }

  /** `_check_infix_operator_sequence` fails exactly when two operators follow each other with
      only characters that do not clear the flag (for valid tokens: whitespace) between them. */
  lemma OperatorSequenceIff(s: string)
    ensures (exists j :: 0 <= j < |s| && IsOperator(s[j]) && PrevWasOperator(s[..j])) <==> AdjacentOperators(s)
  {
    if exists j :: 0 <= j < |s| && IsOperator(s[j]) && PrevWasOperator(s[..j]) {
      var j :| 0 <= j < |s| && IsOperator(s[j]) && PrevWasOperator(s[..j]);
      FlaggedAdjacent(s, j);
    }
    if AdjacentOperators(s) {
      AdjacentFlagged(s);
    }
  }

  lemma FlaggedAdjacent(s: string, j: nat)
    requires j < |s| && IsOperator(s[j]) && PrevWasOperator(s[..j])
    ensures AdjacentOperators(s)
  {
    FlagMeansOperator(s[..j]);
    var i :| 0 <= i < j && IsOperator(s[..j][i]) && forall k :: i < k < j ==> !Resets(s[..j][k]);
    assert IsOperator(s[i]);
    forall k | i < k < j
      ensures !Resets(s[k])
    {
      assert s[k] == s[..j][k];
    }
  }

  lemma AdjacentFlagged(s: string)
    requires AdjacentOperators(s)
    ensures exists j :: 0 <= j < |s| && IsOperator(s[j]) && PrevWasOperator(s[..j])
  {
    var i, j :| 0 <= i < j < |s| && IsOperator(s[i]) && IsOperator(s[j]) &&
      forall k :: i < k < j ==> !Resets(s[k]);
    FlagMeansOperator(s[..j]);
    assert IsOperator(s[..j][i]);
    forall k | i < k < j
      ensures !Resets(s[..j][k])
    {
      assert s[..j][k] == s[k];
    }
  }

  /** The InvalidExpressionError `_validate_expression` raises: that of the first check that
      fails, naming the first offending character where the check names one. */
  predicate RefusedWith(expr: string, infix: bool, e: ConvError) {
    if !Tokens(expr) then FirstBadCharacter(expr, e)
    else if ClosesTooSoon(expr) then e == InvalidExpressionError("Unmatched closing parenthesis")
    else if Depth(expr) != 0 then e == InvalidExpressionError("Unmatched opening parenthesis")
    else if !HasOperator(expr) then e == InvalidExpressionError("Expression must contain at least one operator")
    else infix && FirstOperatorPair(expr, e)
  }

  /** e names the first character that is not a valid token. */
  predicate FirstBadCharacter(expr: string, e: ConvError) {
    exists i :: 0 <= i < |expr| && !ValidToken(expr[i]) && Tokens(expr[..i]) && e == InvalidCharacter(expr[i])
  }

  /** e names the first operator that follows another operator. */
  predicate FirstOperatorPair(expr: string, e: ConvError) {
    exists j :: (0 <= j < |expr| && IsOperator(expr[j]) && PrevWasOperator(expr[..j]) &&
      NoOperatorPairs(expr[..j]) && e == OperatorSequenceError(expr[j]))
  }

  predicate HasOperator(s: string) {
    exists i :: 0 <= i < |s| && IsOperator(s[i])
  }

  /** `_validate_expression(expr, infix)`: the checks in order, the first failure raised. It
      passes exactly on the expressions Valid accepts; otherwise the error is the
      InvalidExpressionError of the first failing check. */
  method ValidateExpression(expr: string, infix: bool) returns (r: Outcome<ConvError>)
    ensures r.Pass? <==> Valid(expr, infix)
    ensures r.Fail? ==> r.error.InvalidExpressionError? && RefusedWith(expr, infix, r.error)
  {
    r := ValidateTokens(expr);
    if r.Fail? {
      FirstBadToken(expr, r.error);
      return;
    }
    r := CheckParentheses(expr);
    if r.Fail? {
      return;
    }
    r := RequireOperatorPresent(expr);
    if r.Fail? {
      return;
    }
    if infix {
      r := CheckInfixOperatorSequence(expr);
    }
  }

  lemma FirstBadToken(expr: string, e: ConvError)
    requires exists i :: (0 <= i < |expr| && !ValidToken(expr[i]) &&
      (forall j :: 0 <= j < i ==> ValidToken(expr[j])) && e == InvalidCharacter(expr[i]))
    ensures !Tokens(expr) && RefusedWith(expr, true, e) && RefusedWith(expr, false, e)
  {
    var i :| 0 <= i < |expr| && !ValidToken(expr[i]) &&
      (forall j :: 0 <= j < i ==> ValidToken(expr[j])) && e == InvalidCharacter(expr[i]);
    assert Tokens(expr[..i]) by {
      forall j | 0 <= j < i
        ensures ValidToken(expr[..i][j])
      {
        assert expr[..i][j] == expr[j];
      }
    }
  }

  /** The refusal is one error: the first failing check and its first offending character fix
      it. */
  lemma RefusalUnique(expr: string, infix: bool, e1: ConvError, e2: ConvError)
    requires RefusedWith(expr, infix, e1) && RefusedWith(expr, infix, e2)
    ensures e1 == e2
  {
    if !Tokens(expr) {
      BadCharacterUnique(expr, e1, e2);
    } else if !ClosesTooSoon(expr) && Depth(expr) == 0 && HasOperator(expr) {
      OperatorPairUnique(expr, e1, e2);
    }
  }

  lemma BadCharacterUnique(expr: string, e1: ConvError, e2: ConvError)
    requires FirstBadCharacter(expr, e1) && FirstBadCharacter(expr, e2)
    ensures e1 == e2
  {
    var i1 :| 0 <= i1 < |expr| && !ValidToken(expr[i1]) && Tokens(expr[..i1]) && e1 == InvalidCharacter(expr[i1]);
    var i2 :| 0 <= i2 < |expr| && !ValidToken(expr[i2]) && Tokens(expr[..i2]) && e2 == InvalidCharacter(expr[i2]);
    FirstIndex(expr, i1, i2);
  }

  lemma OperatorPairUnique(expr: string, e1: ConvError, e2: ConvError)
    requires FirstOperatorPair(expr, e1) && FirstOperatorPair(expr, e2)
    ensures e1 == e2
  {
    var j1 :| 0 <= j1 < |expr| && IsOperator(expr[j1]) && PrevWasOperator(expr[..j1]) &&
      NoOperatorPairs(expr[..j1]) && e1 == OperatorSequenceError(expr[j1]);
    var j2 :| 0 <= j2 < |expr| && IsOperator(expr[j2]) && PrevWasOperator(expr[..j2]) &&
      NoOperatorPairs(expr[..j2]) && e2 == OperatorSequenceError(expr[j2]);
    FirstPair(expr, j1, j2);
  }

  /** Two first invalid characters are the same one. */
  lemma FirstIndex(s: string, i1: nat, i2: nat)
    requires i1 < |s| && i2 < |s| && !ValidToken(s[i1]) && !ValidToken(s[i2])
    requires Tokens(s[..i1]) && Tokens(s[..i2])
    ensures i1 == i2
  {
    TokensUpTo(s, i1);
    TokensUpTo(s, i2);
  }

  lemma TokensUpTo(s: string, i: nat)
    requires i <= |s| && Tokens(s[..i])
    ensures forall k :: 0 <= k < i ==> ValidToken(s[k])
  {
    forall k | 0 <= k < i
      ensures ValidToken(s[k])
    {
      assert s[..i][k] == s[k];
    }
  }

  /** Two first operators met while the flag is set are the same one. */
  lemma FirstPair(s: string, j1: nat, j2: nat)
    requires j1 < |s| && j2 < |s| && IsOperator(s[j1]) && PrevWasOperator(s[..j1]) && NoOperatorPairs(s[..j1])
    requires IsOperator(s[j2]) && PrevWasOperator(s[..j2]) && NoOperatorPairs(s[..j2])
    ensures j1 == j2
  {
    PairsUpTo(s, j1);
    PairsUpTo(s, j2);
  }

  lemma PairsUpTo(s: string, j: nat)
    requires j <= |s| && NoOperatorPairs(s[..j])
    ensures forall k :: 0 <= k < j ==> !(IsOperator(s[k]) && PrevWasOperator(s[..k]))
  {
    forall k | 0 <= k < j
      ensures !(IsOperator(s[k]) && PrevWasOperator(s[..k]))
    {
      assert s[..j][k] == s[k] && s[..j][..k] == s[..k];
    }
  }

  /** Everything `_validate_expression` checks; `infix` adds the operator-sequence check. */
  predicate Valid(expr: string, infix: bool) {
    (forall i :: 0 <= i < |expr| ==> ValidToken(expr[i])) && Balanced(expr) &&
    (exists i :: 0 <= i < |expr| && IsOperator(expr[i])) &&
    (infix ==> forall j :: 0 <= j < |expr| ==> !(IsOperator(expr[j]) && PrevWasOperator(expr[..j])))
  }

  // ---------------------------------------------------------------------------------------
  // The operand-stack conversions

  /** `expr[::-1]`. */
  function Reverse(s: string): (r: string)
    ensures |r| == |s|
    ensures forall i :: 0 <= i < |s| ==> r[i] == s[|s| - 1 - i]
  {
    if s == [] then [] else Reverse(s[1..]) + [s[0]]
  }

  lemma {:induction false} ReverseAppend(a: string, b: string)
    ensures Reverse(a + b) == Reverse(b) + Reverse(a)
  {
    var r, q := Reverse(a + b), Reverse(b) + Reverse(a);
    assert |r| == |q|;
    forall i | 0 <= i < |r|
      ensures r[i] == q[i]
    {
      if i < |b| {
        assert q[i] == Reverse(b)[i];
      } else {
        assert q[i] == Reverse(a)[i - |b|];
      }
    }
  }

  /** The four conversions that work on a stack of operand strings: prefix_to_postfix,
      prefix_to_infix, postfix_to_prefix and postfix_to_infix. */
  datatype Kind = PreToPost | PreToIn | PostToPre | PostToIn

  predicate ReadsPrefix(k: Kind) {
    k.PreToPost? || k.PreToIn?
  }

  /** The characters in the order the conversion scans them: prefix input right to left. */
  function Input(k: Kind, expr: string): string {
    if ReadsPrefix(k) then Reverse(expr) else expr
  }

  /** The string an operator c builds from the two operands on top of the stack, `below` and
      `top`: a postfix scan pops op2 (the top) and then op1; a prefix scan pops op1 (the top)
      and then op2. */
  function Combine(k: Kind, c: char, below: string, top: string): string {
    match k
    case PostToPre => [c] + below + top
    case PostToIn => "(" + below + [c] + top + ")"
    case PreToPost => top + below + [c]
    case PreToIn => "(" + top + [c] + below + ")"
  }

  function NotEnoughOperands(c: char): ConvError {
    InvalidExpressionError("Invalid prefix expression: not enough operands for operator '" + [c] + "'")
  }

  /** One character of the scan: a letter is pushed, an operator replaces the two operands on
      top by their combination (or fails when there are fewer than two), anything else is
      skipped. */
  function OperandStep(k: Kind, st: seq<string>, c: char): Result<seq<string>, ConvError> {
    if IsAlpha(c) then Ok(st + [[c]])
    else if IsOperator(c) then
      if |st| < 2 then Err(NotEnoughOperands(c))
      else Ok(st[..|st| - 2] + [Combine(k, c, st[|st| - 2], st[|st| - 1])])
    else Ok(st)
  }

  /** The stack after scanning s from st; the first error ends the scan. */
  function OperandScan(k: Kind, st: seq<string>, s: string): Result<seq<string>, ConvError>
    decreases |s|
  {
    if s == [] then Ok(st)
    else
      match OperandScan(k, st, s[..|s| - 1])
      case Err(e) => Err(e)
      case Ok(m) => OperandStep(k, m, s[|s| - 1])
  }

  /** The end of the scan: exactly one item must be left. The conversions to postfix and
      prefix check for leftovers before popping, the conversions to infix pop first. */
  function Finish(k: Kind, st: seq<string>): Result<string, ConvError> {
    if k.PreToPost? || k.PostToPre? then
      if |st| > 1 then Err(InvalidExpressionError("Invalid prefix expression: leftover tokens"))
      else if st == [] then Err(StackEmpty("stack is empty"))
      else Ok(st[0])
    else
      if st == [] then Err(StackEmpty("stack is empty"))
      else if |st| > 1 then Err(InvalidExpressionError("Invalid prefix expression: leftover operands"))
      else Ok(st[0])
  }

  /** The result of conversion k on an expression that passed the checks. */
  function Convert(k: Kind, expr: string): Result<string, ConvError> {
    match OperandScan(k, [], Input(k, expr))
    case Err(e) => Err(e)
    case Ok(st) => Finish(k, st)
  }

  /** Once the scan fails it stays failed. */
  lemma {:induction false} ScanErrorSticks(k: Kind, st: seq<string>, s: string, n: nat)
    requires n <= |s| && OperandScan(k, st, s[..n]).Err?
    ensures OperandScan(k, st, s) == OperandScan(k, st, s[..n])
    decreases |s|
  {
    if n < |s| {
      var init := s[..|s| - 1];
      assert init[..n] == s[..n];
      ScanErrorSticks(k, st, init, n);
    } else {
      assert s[..n] == s;
    }
  }

  /** Scanning a + b is scanning a, then b from where a left the stack. */
  lemma {:induction false} ScanAppend(k: Kind, st: seq<string>, a: string, b: string)
    ensures OperandScan(k, st, a + b) ==
      match OperandScan(k, st, a) case Err(e) => Err(e) case Ok(m) => OperandScan(k, m, b)
    decreases |b|
  {
    if b == [] {
      assert a + b == a;
    } else {
      assert (a + b)[..|a + b| - 1] == a + b[..|b| - 1];
      ScanAppend(k, st, a, b[..|b| - 1]);
    }
  }

  /** The loop shared by the four operand-stack conversions, over the characters of `input`
      with a Stack of strings. */
  method ScanOperands(k: Kind, input: string) returns (r: Result<Stack<string>, ConvError>)
    ensures OperandScan(k, [], input).Err? ==> r.Err? && r.error == OperandScan(k, [], input).error
    ensures OperandScan(k, [], input).Ok? ==> r.Ok? && r.value.items == OperandScan(k, [], input).value
    ensures r.Ok? ==> fresh(r.value)
  {
    var stack := new Stack<string>();
    var i := 0;
    while i < |input|
      invariant 0 <= i <= |input|
      invariant OperandScan(k, [], input[..i]) == Ok(stack.items)
      modifies stack
    {
      assert input[..i + 1][..i] == input[..i];
      var e := ScanOperand(k, stack, input[i]);
      if e.Fail? {
        ScanErrorSticks(k, [], input, i + 1);
        return Err(e.error);
      }
      i := i + 1;
    }
    assert input[..|input|] == input;
    return Ok(stack);
  }

  /** The body of the scanning loop for one character c: a letter is pushed, an operator
      combines the two operands on top, or fails when there are fewer than two. */
  method ScanOperand(k: Kind, stack: Stack<string>, c: char) returns (e: Outcome<ConvError>)
    modifies stack
    ensures var step := OperandStep(k, old(stack.items), c);
      if step.Err? then e == Fail(step.error)
      else e.Pass? && stack.items == step.value
  {
    if IsAlpha(c) {
      stack.Push([c]);
    } else if IsOperator(c) {
      if stack.Size() < 2 {
        return Fail(NotEnoughOperands(c));
      }
      ApplyOperator(k, stack, c);
    }
    return Pass;
  }

  /** An operator pops two operands, the top first, and pushes what it builds from them. */
  method ApplyOperator(k: Kind, stack: Stack<string>, c: char)
    requires |stack.items| >= 2
    modifies stack
    ensures var st := old(stack.items);
      stack.items == st[..|st| - 2] + [Combine(k, c, st[|st| - 2], st[|st| - 1])]
  {
    ghost var st := stack.items;
    var first := stack.Pop();
    var second := stack.Pop();
    assert first.value == st[|st| - 1] && second.value == st[|st| - 2];
    var combined := match k
      case PostToPre => [c] + second.value + first.value
      case PostToIn => "(" + second.value + [c] + first.value + ")"
      case PreToPost => first.value + second.value + [c]
      case PreToIn => "(" + first.value + [c] + second.value + ")";
    stack.Push(combined);
  }

  /** Scanning one more character is one more step. */
  lemma ScanSnoc(k: Kind, s: string, c: char)
    ensures var r := OperandScan(k, [], s);
      OperandScan(k, [], s + [c]) == if r.Err? then r else OperandStep(k, r.value, c)
  {
    assert (s + [c])[..|s|] == s;
  }

  /** An operator with fewer than two operands below it ends the scan with an error. */
  lemma MissingOperandExample()
    ensures Convert(PreToPost, "+a") == Err(NotEnoughOperands('+'))
  {
    assert Reverse("+a") == "a" + "+" by {
      assert "+a"[1..] == "a";
    }
    ScanSnoc(PreToPost, "", 'a');
    ScanSnoc(PreToPost, "a", '+');
    assert [] + [['a']] == ["a"];
  }

  /** Operands left over at the end are refused; the conversions to postfix and prefix and
      those to infix report them with different messages. */
  lemma LeftoverExample(k: Kind)
    requires !ReadsPrefix(k)
    ensures Convert(k, "ab+c").Err?
    ensures Convert(k, "ab+c").error.message ==
      if k.PostToPre? then "Invalid prefix expression: leftover tokens"
      else "Invalid prefix expression: leftover operands"
  {
    ScanSnoc(k, "", 'a');
    ScanSnoc(k, "a", 'b');
    ScanSnoc(k, "ab", '+');
    ScanSnoc(k, "ab+", 'c');
    assert [] + [['a']] == ["a"] && ["a"] + [['b']] == ["a", "b"];
    var m: seq<string> := ["a", "b"];
    assert m[..0] == [] && m[0] == "a" && m[1] == "b";
    var ab := Combine(k, '+', "a", "b");
    assert [] + [ab] == [ab] && [ab] + [['c']] == [ab, "c"];
    assert "ab+" + ['c'] == "ab+c";
    assert Convert(k, "ab+c") == Finish(k, [ab, "c"]);
  }

  /** The body shared by the four operand-stack conversions: check the expression, scan it
      (a prefix expression right to left), then pop the one item that must be left. An
      expression that fails the checks is refused with the first failing check's
      InvalidExpressionError; one that passes them gives what Convert says. */
  method RunConversion(k: Kind, expr: string) returns (r: Result<string, ConvError>)
    ensures !Valid(expr, false) ==> r.Err? && r.error.InvalidExpressionError? && RefusedWith(expr, false, r.error)
    ensures Valid(expr, false) ==> r == Convert(k, expr)
  {
    var checked := ValidateExpression(expr, false);
    if checked.Fail? {
      return Err(checked.error);
    }
    var input := if ReadsPrefix(k) then Reverse(expr) else expr;
    var scanned := ScanOperands(k, input);
    if scanned.Err? {
      return Err(scanned.error);
    }
    var stack := scanned.value;
    if k.PreToPost? || k.PostToPre? {
      if stack.Size() > 1 {
        return Err(InvalidExpressionError("Invalid prefix expression: leftover tokens"));
      }
      var top := stack.Pop();
      if top.Err? {
        return Err(StackEmpty(top.error.message));
      }
      return Ok(top.value);
    } else {
      var result := stack.Pop();
      if result.Err? {
        return Err(StackEmpty(result.error.message));
      }
      if !stack.IsEmpty() {
        return Err(InvalidExpressionError("Invalid prefix expression: leftover operands"));
      }
      return Ok(result.value);
    }
  }

  /** `prefix_to_postfix(expr)`. */
  method PrefixToPostfix(expr: string) returns (r: Result<string, ConvError>)
    ensures !Valid(expr, false) ==> r.Err? && r.error.InvalidExpressionError? && RefusedWith(expr, false, r.error)
    ensures Valid(expr, false) ==> r == Convert(PreToPost, expr)
  {
    r := RunConversion(PreToPost, expr);
  }

  /** `prefix_to_infix(expr)`. */
  method PrefixToInfix(expr: string) returns (r: Result<string, ConvError>)
    ensures !Valid(expr, false) ==> r.Err? && r.error.InvalidExpressionError? && RefusedWith(expr, false, r.error)
    ensures Valid(expr, false) ==> r == Convert(PreToIn, expr)
  {
    r := RunConversion(PreToIn, expr);
  }

  /** `postfix_to_prefix(expr)`. */
  method PostfixToPrefix(expr: string) returns (r: Result<string, ConvError>)
    ensures !Valid(expr, false) ==> r.Err? && r.error.InvalidExpressionError? && RefusedWith(expr, false, r.error)
    ensures Valid(expr, false) ==> r == Convert(PostToPre, expr)
  {
    r := RunConversion(PostToPre, expr);
  }

  /** `postfix_to_infix(expr)`. */
  method PostfixToInfix(expr: string) returns (r: Result<string, ConvError>)
    ensures !Valid(expr, false) ==> r.Err? && r.error.InvalidExpressionError? && RefusedWith(expr, false, r.error)
    ensures Valid(expr, false) ==> r == Convert(PostToIn, expr)
  {
    r := RunConversion(PostToIn, expr);
  }

  // ---------------------------------------------------------------------------------------
  // What the operand-stack conversions compute, stated over expression trees

  /** An arithmetic expression over single-letter operands and the five binary operators. */
  datatype Expr = Var(name: char) | Bin(op: char, left: Expr, right: Expr)

  predicate Wf(e: Expr) {
    match e
    case Var(x) => IsAlpha(x)
    case Bin(op, l, r) => IsOperator(op) && Wf(l) && Wf(r)
  }

  function PrefixOf(e: Expr): string {
    match e
    case Var(x) => [x]
    case Bin(op, l, r) => [op] + PrefixOf(l) + PrefixOf(r)
  }

  function PostfixOf(e: Expr): string {
    match e
    case Var(x) => [x]
    case Bin(op, l, r) => PostfixOf(l) + PostfixOf(r) + [op]
  }

  /** The fully parenthesised infix form: every operator with its operands in parentheses. */
  function InfixOf(e: Expr): string {
    match e
    case Var(x) => [x]
    case Bin(op, l, r) => "(" + InfixOf(l) + [op] + InfixOf(r) + ")"
  }

  /** The notation conversion k reads. */
  function Source(k: Kind, e: Expr): string {
    if ReadsPrefix(k) then PrefixOf(e) else PostfixOf(e)
  }

  /** The notation conversion k writes. */
  function Target(k: Kind, e: Expr): string {
    match k
    case PreToPost => PostfixOf(e)
    case PostToPre => PrefixOf(e)
    case PreToIn => InfixOf(e)
    case PostToIn => InfixOf(e)
  }

  /** An operator combines the two operand strings its sub-scans leave on the stack. */
  lemma ScanThree(k: Kind, st: seq<string>, a: string, b: string, op: char, ta: string, tb: string)
    requires IsOperator(op)
    requires OperandScan(k, st, a) == Ok(st + [ta])
    requires OperandScan(k, st + [ta], b) == Ok(st + [ta, tb])
    ensures OperandScan(k, st, a + b + [op]) == Ok(st + [Combine(k, op, ta, tb)])
  {
    ScanAppend(k, st, a, b);
    ScanAppend(k, st, a + b, [op]);
    assert [op][..0] == [];
    var m := st + [ta, tb];
    assert m[..|m| - 2] == st && m[|m| - 2] == ta && m[|m| - 1] == tb;
  }

  /** A prefix expression read backwards is its right operand backwards, then its left operand
      backwards, then its operator. */
  lemma PrefixBackwards(op: char, l: Expr, r: Expr)
    ensures Reverse(PrefixOf(Bin(op, l, r))) == Reverse(PrefixOf(r)) + Reverse(PrefixOf(l)) + [op]
  {
    ReverseAppend([op] + PrefixOf(l), PrefixOf(r));
    ReverseAppend([op], PrefixOf(l));
  }

  /** Scanning the source form of a well-formed expression pushes exactly its target form. */
  lemma {:induction false} ScanExpr(k: Kind, st: seq<string>, e: Expr)
    requires Wf(e)
    ensures OperandScan(k, st, Input(k, Source(k, e))) == Ok(st + [Target(k, e)])
    decreases e
  {
    match e
    case Var(x) =>
      assert Input(k, Source(k, e)) == [x];
      assert [x][..0] == [];
    case Bin(op, l, r) =>
      if ReadsPrefix(k) {
        ScanExpr(k, st, r);
        ScanExpr(k, st + [Target(k, r)], l);
        assert st + [Target(k, r)] + [Target(k, l)] == st + [Target(k, r), Target(k, l)];
        ScanThree(k, st, Reverse(PrefixOf(r)), Reverse(PrefixOf(l)), op, Target(k, r), Target(k, l));
        PrefixBackwards(op, l, r);
      } else {
        ScanExpr(k, st, l);
        ScanExpr(k, st + [Target(k, l)], r);
        assert st + [Target(k, l)] + [Target(k, r)] == st + [Target(k, l), Target(k, r)];
        ScanThree(k, st, PostfixOf(l), PostfixOf(r), op, Target(k, l), Target(k, r));
      }
  }

  /** Only letters and operators. */
  predicate Plain(s: string) {
    forall i :: 0 <= i < |s| ==> IsAlpha(s[i]) || IsOperator(s[i])
  }

  lemma {:induction false} PlainForms(e: Expr)
    requires Wf(e)
    ensures Plain(PrefixOf(e)) && Plain(PostfixOf(e))
  {
    match e
    case Var(_) =>
    case Bin(op, l, r) =>
      PlainForms(l);
      PlainForms(r);
      PlainAppend([op] + PrefixOf(l), PrefixOf(r));
      PlainAppend([op], PrefixOf(l));
      PlainAppend(PostfixOf(l) + PostfixOf(r), [op]);
      PlainAppend(PostfixOf(l), PostfixOf(r));
  }

  lemma PlainAppend(a: string, b: string)
    requires Plain(a) && Plain(b)
    ensures Plain(a + b)
  {
    forall i | 0 <= i < |a + b|
      ensures IsAlpha((a + b)[i]) || IsOperator((a + b)[i])
    {
      if i >= |a| {
        assert (a + b)[i] == b[i - |a|];
      }
    }
  }

  /** Without parentheses the depth never moves from 0. */
  lemma {:induction false} PlainDepth(s: string)
    requires Plain(s)
    ensures Depth(s) == 0
    decreases |s|
  {
    if s != [] {
      PlainDepth(s[..|s| - 1]);
    }
  }

  lemma PlainBalanced(s: string)
    requires Plain(s)
    ensures Balanced(s)
  {
    forall k | 0 <= k <= |s|
      ensures Depth(s[..k]) == 0
    {
      PlainDepth(s[..k]);
    }
    PlainDepth(s);
  }

  /** The operand-stack conversions are correct: the prefix or postfix form of any expression
      with at least one operator passes the checks and converts to the target form, so
      prefix_to_postfix, prefix_to_infix, postfix_to_prefix and postfix_to_infix each
      translate between the notations of one and the same expression. */
  lemma ConvertsExpr(k: Kind, e: Expr)
    requires Wf(e) && e.Bin?
    ensures Valid(Source(k, e), false)
    ensures Convert(k, Source(k, e)) == Ok(Target(k, e))
  {
    var src, dst := Source(k, e), Target(k, e);
    assert OperandScan(k, [], Input(k, src)) == Ok([dst]) by {
      ScanExpr(k, [], e);
      assert [] + [dst] == [dst];
    }
    ConvertSingle(k, src, dst);
    SourceValid(k, e);
  }

  /** A scan that leaves exactly one operand converts to it. */
  lemma ConvertSingle(k: Kind, expr: string, x: string)
    requires OperandScan(k, [], Input(k, expr)) == Ok([x])
    ensures Convert(k, expr) == Ok(x)
  {
  }

  /** The source form of an expression with an operator passes `_validate_expression`. */
  lemma SourceValid(k: Kind, e: Expr)
    requires Wf(e) && e.Bin?
    ensures Valid(Source(k, e), false)
  {
    var src := Source(k, e);
    PlainForms(e);
    PlainBalanced(src);
    if ReadsPrefix(k) {
      assert IsOperator(src[0]);
    } else {
      assert IsOperator(src[|src| - 1]);
    }
  }

  // ---------------------------------------------------------------------------------------
  // What every successful operand-stack conversion keeps

  /** The characters of s that p accepts, in order. */
  function Filter(p: char -> bool, s: string): (r: string)
    ensures forall i :: 0 <= i < |r| ==> p(r[i])
    decreases |s|
  {
    if s == [] then [] else Filter(p, s[..|s| - 1]) + (if p(s[|s| - 1]) then [s[|s| - 1]] else [])
  }

  /** A letter or an operator: the characters the scans act on; the others are skipped. */
  predicate Significant(c: char) {
    IsAlpha(c) || IsOperator(c)
  }

  lemma FilterOne(p: char -> bool, c: char)
    ensures Filter(p, [c]) == if p(c) then [c] else []
  {
    assert [c][..0] == [];
  }

  lemma {:induction false} FilterAppend(p: char -> bool, a: string, b: string)
    ensures Filter(p, a + b) == Filter(p, a) + Filter(p, b)
    decreases |b|
  {
    if b == [] {
      assert a + b == a;
    } else {
      assert (a + b)[..|a + b| - 1] == a + b[..|b| - 1];
      FilterAppend(p, a, b[..|b| - 1]);
    }
  }

  lemma FilterThree(p: char -> bool, a: string, x: string, b: string)
    ensures Filter(p, a + x + b) == Filter(p, a) + Filter(p, x) + Filter(p, b)
  {
    FilterAppend(p, a + x, b);
    FilterAppend(p, a, x);
  }

  /** Filtering commutes with reading backwards. */
  lemma {:induction false} FilterReverse(p: char -> bool, s: string)
    ensures Filter(p, Reverse(s)) == Reverse(Filter(p, s))
    decreases |s|
  {
    if s != [] {
      FilterReverse(p, s[1..]);
      FilterAppend(p, Reverse(s[1..]), [s[0]]);
      assert s == [s[0]] + s[1..];
      FilterAppend(p, [s[0]], s[1..]);
      ReverseAppend(Filter(p, [s[0]]), Filter(p, s[1..]));
      FilterOne(p, s[0]);
      ReverseOne(s[0]);
    }
  }

  lemma {:induction false} ReverseMultiset(s: string)
    ensures multiset(Reverse(s)) == multiset(s)
    decreases |s|
  {
    if s != [] {
      ReverseMultiset(s[1..]);
      assert s == [s[0]] + s[1..];
    }
  }

  /** Dropping the skipped characters first changes neither the letters nor the operators. */
  lemma {:induction false} SignificantKeeps(s: string)
    ensures Filter(IsAlpha, Filter(Significant, s)) == Filter(IsAlpha, s)
    ensures Filter(IsOperator, Filter(Significant, s)) == Filter(IsOperator, s)
    decreases |s|
  {
    if s != [] {
      var init, c := s[..|s| - 1], s[|s| - 1];
      SignificantKeeps(init);
      var kept := if Significant(c) then [c] else [];
      FilterAppend(IsAlpha, Filter(Significant, init), kept);
      FilterAppend(IsOperator, Filter(Significant, init), kept);
      if Significant(c) {
        FilterOne(IsAlpha, c);
        FilterOne(IsOperator, c);
      }
    }
  }

  /** The letters of an expression, left to right. */
  function Leaves(e: Expr): string {
    match e
    case Var(x) => [x]
    case Bin(_, l, r) => Leaves(l) + Leaves(r)
  }

  /** The operators of an expression, each counted once per occurrence. */
  function Operators(e: Expr): multiset<char> {
    match e
    case Var(_) => multiset{}
    case Bin(op, l, r) => multiset{op} + Operators(l) + Operators(r)
  }

  /** The prefix form lists the expression's letters in order and each of its operators once. */
  lemma {:induction false} PrefixAgrees(e: Expr)
    requires Wf(e)
    ensures Filter(IsAlpha, PrefixOf(e)) == Leaves(e)
    ensures multiset(Filter(IsOperator, PrefixOf(e))) == Operators(e)
    decreases e
  {
    match e
    case Var(x) =>
      LetterAlone(x);
    case Bin(op, l, r) =>
      PrefixAgrees(l);
      PrefixAgrees(r);
      PrefixParts(op, PrefixOf(l), PrefixOf(r));
  }

  /** The postfix form lists the expression's letters in order and each of its operators once. */
  lemma {:induction false} PostfixAgrees(e: Expr)
    requires Wf(e)
    ensures Filter(IsAlpha, PostfixOf(e)) == Leaves(e)
    ensures multiset(Filter(IsOperator, PostfixOf(e))) == Operators(e)
    decreases e
  {
    match e
    case Var(x) =>
      LetterAlone(x);
    case Bin(op, l, r) =>
      PostfixAgrees(l);
      PostfixAgrees(r);
      PostfixParts(op, PostfixOf(l), PostfixOf(r));
  }

  /** The fully parenthesised form lists the expression's letters in order and each of its
      operators once. */
  lemma {:induction false} InfixAgrees(e: Expr)
    requires Wf(e)
    ensures Filter(IsAlpha, InfixOf(e)) == Leaves(e)
    ensures multiset(Filter(IsOperator, InfixOf(e))) == Operators(e)
    decreases e
  {
    match e
    case Var(x) =>
      LetterAlone(x);
    case Bin(op, l, r) =>
      InfixAgrees(l);
      InfixAgrees(r);
      InfixParts(op, InfixOf(l), InfixOf(r));
  }

  /** A letter alone is one letter and no operator. */
  lemma LetterAlone(x: char)
    requires IsAlpha(x)
    ensures Filter(IsAlpha, [x]) == [x] && Filter(IsOperator, [x]) == []
  {
    FilterOne(IsAlpha, x);
    FilterOne(IsOperator, x);
  }

  /** An operator alone is one operator and no letter. */
  lemma OperatorAlone(op: char)
    requires IsOperator(op)
    ensures Filter(IsAlpha, [op]) == [] && Filter(IsOperator, [op]) == [op]
  {
    FilterOne(IsAlpha, op);
    FilterOne(IsOperator, op);
  }

  /** A parenthesis is neither. */
  lemma ParenAlone(c: char)
    requires c == '(' || c == ')'
    ensures Filter(IsAlpha, [c]) == [] && Filter(IsOperator, [c]) == []
  {
    FilterOne(IsAlpha, c);
    FilterOne(IsOperator, c);
  }

  lemma PrefixParts(op: char, x: string, y: string)
    requires IsOperator(op)
    ensures Filter(IsAlpha, [op] + x + y) == Filter(IsAlpha, x) + Filter(IsAlpha, y)
    ensures multiset(Filter(IsOperator, [op] + x + y))
      == multiset{op} + multiset(Filter(IsOperator, x)) + multiset(Filter(IsOperator, y))
  {
    OperatorAlone(op);
    FilterThree(IsAlpha, [op], x, y);
    assert [] + Filter(IsAlpha, x) == Filter(IsAlpha, x);
    FilterThree(IsOperator, [op], x, y);
  }

  lemma PostfixParts(op: char, x: string, y: string)
    requires IsOperator(op)
    ensures Filter(IsAlpha, x + y + [op]) == Filter(IsAlpha, x) + Filter(IsAlpha, y)
    ensures multiset(Filter(IsOperator, x + y + [op]))
      == multiset{op} + multiset(Filter(IsOperator, x)) + multiset(Filter(IsOperator, y))
  {
    OperatorAlone(op);
    FilterThree(IsAlpha, x, y, [op]);
    assert Filter(IsAlpha, x) + Filter(IsAlpha, y) + [] == Filter(IsAlpha, x) + Filter(IsAlpha, y);
    FilterThree(IsOperator, x, y, [op]);
  }

  lemma InfixParts(op: char, x: string, y: string)
    requires IsOperator(op)
    ensures Filter(IsAlpha, "(" + x + [op] + y + ")") == Filter(IsAlpha, x) + Filter(IsAlpha, y)
    ensures multiset(Filter(IsOperator, "(" + x + [op] + y + ")"))
      == multiset{op} + multiset(Filter(IsOperator, x)) + multiset(Filter(IsOperator, y))
  {
    OperatorAlone(op);
    ParenAlone('(');
    ParenAlone(')');
    InfixPieces(IsAlpha, op, x, y);
    Glue(Filter(IsAlpha, x), Filter(IsAlpha, y));
    InfixPieces(IsOperator, op, x, y);
    GlueCount(op, Filter(IsOperator, x), Filter(IsOperator, y));
  }

  lemma Glue(a: string, b: string)
    ensures [] + a + [] + b + [] == a + b
  {
  }

  lemma GlueCount(op: char, a: string, b: string)
    ensures multiset([] + a + [op] + b + []) == multiset{op} + multiset(a) + multiset(b)
  {
  }

  lemma InfixPieces(p: char -> bool, op: char, x: string, y: string)
    ensures Filter(p, "(" + x + [op] + y + ")")
      == Filter(p, "(") + Filter(p, x) + Filter(p, [op]) + Filter(p, y) + Filter(p, ")")
  {
    FilterAppend(p, "(" + x + [op] + y, ")");
    FilterAppend(p, "(" + x + [op], y);
    FilterAppend(p, "(" + x, [op]);
    FilterAppend(p, "(", x);
  }

  lemma FormsAgree(k: Kind, e: Expr)
    requires Wf(e)
    ensures Filter(IsAlpha, Source(k, e)) == Filter(IsAlpha, Target(k, e)) == Leaves(e)
    ensures multiset(Filter(IsOperator, Source(k, e))) == multiset(Filter(IsOperator, Target(k, e))) == Operators(e)
  {
    PrefixAgrees(e);
    PostfixAgrees(e);
    InfixAgrees(e);
  }

  /** The expression an operator builds from the two on top of the stack: a postfix scan has
      the left operand below, a prefix scan (which reads backwards) has it on top. */
  function Joined(k: Kind, c: char, below: Expr, top: Expr): Expr {
    if ReadsPrefix(k) then Bin(c, top, below) else Bin(c, below, top)
  }

  /** Scanning the source forms of expressions one after another, in the order the scan reads
      them. */
  function Scanned(k: Kind, es: seq<Expr>): string {
    if es == [] then [] else Scanned(k, es[..|es| - 1]) + Input(k, Source(k, es[|es| - 1]))
  }

  function Targets(k: Kind, es: seq<Expr>): (ts: seq<string>)
    ensures |ts| == |es| && forall i :: 0 <= i < |es| ==> ts[i] == Target(k, es[i])
  {
    if es == [] then [] else [Target(k, es[0])] + Targets(k, es[1..])
  }

  predicate AllWf(es: seq<Expr>) {
    forall i :: 0 <= i < |es| ==> Wf(es[i])
  }

  /** The operator's string is the joined expression's target form, and its source form is read
      as the two operands' followed by the operator. */
  lemma JoinedForms(k: Kind, c: char, below: Expr, top: Expr)
    ensures Target(k, Joined(k, c, below, top)) == Combine(k, c, Target(k, below), Target(k, top))
    ensures Input(k, Source(k, Joined(k, c, below, top))) ==
      Input(k, Source(k, below)) + Input(k, Source(k, top)) + [c]
  {
    if ReadsPrefix(k) {
      PrefixBackwards(c, top, below);
    }
  }

  /** The scan of the last two expressions and the one before them. */
  lemma ScannedLastTwo(k: Kind, es: seq<Expr>)
    requires |es| >= 2
    ensures Scanned(k, es) == Scanned(k, es[..|es| - 2]) + Input(k, Source(k, es[|es| - 2])) + Input(k, Source(k, es[|es| - 1]))
  {
    assert es[..|es| - 1][..|es| - 2] == es[..|es| - 2];
  }

  /** Every stack a scan from the empty stack leaves is the target forms of well-formed
      expressions whose source forms, in scan order, are exactly the letters and operators
      read. */
  lemma {:induction false} ScanSound(k: Kind, t: string, st: seq<string>) returns (es: seq<Expr>)
    requires OperandScan(k, [], t) == Ok(st)
    ensures AllWf(es) && Targets(k, es) == st && Scanned(k, es) == Filter(Significant, t)
    decreases |t|
  {
    if t == [] {
      es := [];
    } else {
      var init, c := t[..|t| - 1], t[|t| - 1];
      var m := OperandScan(k, [], init).value;
      assert OperandStep(k, m, c) == Ok(st);
      var es0 := ScanSound(k, init, m);
      assert Filter(Significant, t) == Filter(Significant, init) + if Significant(c) then [c] else [];
      if IsAlpha(c) {
        es := ScanLetter(k, es0, c);
      } else if IsOperator(c) {
        es := ScanOperator(k, es0, c);
      } else {
        es := es0;
      }
    }
  }

  /** A letter read pushes its own expression. */
  lemma ScanLetter(k: Kind, es0: seq<Expr>, c: char) returns (es: seq<Expr>)
    requires IsAlpha(c) && AllWf(es0)
    ensures AllWf(es) && Targets(k, es) == Targets(k, es0) + [[c]]
    ensures Scanned(k, es) == Scanned(k, es0) + [c]
  {
    es := es0 + [Var(c)];
    assert es[..|es| - 1] == es0;
    ReverseOne(c);
  }

  /** An operator read joins the two expressions on top. */
  lemma ScanOperator(k: Kind, es0: seq<Expr>, c: char) returns (es: seq<Expr>)
    requires IsOperator(c) && AllWf(es0) && |es0| >= 2
    ensures AllWf(es) && Scanned(k, es) == Scanned(k, es0) + [c]
    ensures var m := Targets(k, es0);
      Targets(k, es) == m[..|m| - 2] + [Combine(k, c, m[|m| - 2], m[|m| - 1])]
  {
    var n := |es0|;
    es := es0[..n - 2] + [Joined(k, c, es0[n - 2], es0[n - 1])];
    JoinScanned(k, c, es0, es);
    JoinTargets(k, c, es0, es);
    forall i | 0 <= i < |es|
      ensures Wf(es[i])
    {
      if i < n - 2 {
        assert es[i] == es0[i];
      }
    }
  }

  lemma JoinScanned(k: Kind, c: char, es0: seq<Expr>, es: seq<Expr>)
    requires |es0| >= 2 && es == es0[..|es0| - 2] + [Joined(k, c, es0[|es0| - 2], es0[|es0| - 1])]
    ensures Scanned(k, es) == Scanned(k, es0) + [c]
  {
    var n := |es0|;
    var front, below, top := es0[..n - 2], es0[n - 2], es0[n - 1];
    var a, b := Input(k, Source(k, below)), Input(k, Source(k, top));
    ScannedSnoc(k, front, Joined(k, c, below, top));
    JoinedForms(k, c, below, top);
    ScannedLastTwo(k, es0);
    Regroup(Scanned(k, front), a, b, [c]);
  }

  lemma ScannedSnoc(k: Kind, front: seq<Expr>, e: Expr)
    ensures Scanned(k, front + [e]) == Scanned(k, front) + Input(k, Source(k, e))
  {
    var es := front + [e];
    assert es[..|es| - 1] == front;
  }

  lemma JoinTargets(k: Kind, c: char, es0: seq<Expr>, es: seq<Expr>)
    requires |es0| >= 2 && es == es0[..|es0| - 2] + [Joined(k, c, es0[|es0| - 2], es0[|es0| - 1])]
    ensures var m := Targets(k, es0);
      Targets(k, es) == m[..|m| - 2] + [Combine(k, c, m[|m| - 2], m[|m| - 1])]
  {
    var n := |es0|;
    var m, ts := Targets(k, es0), Targets(k, es);
    assert ts[n - 2] == Combine(k, c, m[n - 2], m[n - 1]) by {
      JoinedForms(k, c, es0[n - 2], es0[n - 1]);
    }
    assert forall i | 0 <= i < n - 2 :: ts[i] == m[i];
    assert ts == m[..n - 2] + [ts[n - 2]];
  }

  /** The scan skips everything but letters and operators. */
  lemma {:induction false} ScanSkips(k: Kind, st: seq<string>, t: string)
    ensures OperandScan(k, st, t) == OperandScan(k, st, Filter(Significant, t))
    decreases |t|
  {
    if t != [] {
      var init, c := t[..|t| - 1], t[|t| - 1];
      ScanSkips(k, st, init);
      var kept := Filter(Significant, init);
      if Significant(c) {
        var f := kept + [c];
        assert Filter(Significant, t) == f;
        assert f[..|f| - 1] == kept;
        assert OperandScan(k, st, f) == match OperandScan(k, st, kept)
          case Err(e) => Err(e)
          case Ok(m) => OperandStep(k, m, c);
      } else {
        assert Filter(Significant, t) == kept + [];
        assert kept + [] == kept;
      }
    }
  }

  /** An operand-stack conversion succeeds exactly on the strings whose letters and operators
      form the source notation of an expression, and then outputs that expression's target
      notation. This direction: every success is of that kind. */
  lemma ConvertSound(k: Kind, s: string, out: string) returns (e: Expr)
    requires Convert(k, s) == Ok(out)
    ensures Wf(e) && Filter(Significant, s) == Source(k, e) && out == Target(k, e)
  {
    var st := OperandScan(k, [], Input(k, s)).value;
    var es := ScanSound(k, Input(k, s), st);
    e := es[0];
    assert es == [e];
    assert Scanned(k, es) == Input(k, Source(k, e)) by {
      assert es[..0] == [];
    }
    if ReadsPrefix(k) {
      FilterReverse(Significant, s);
      ReverseReverse(Filter(Significant, s));
      ReverseReverse(PrefixOf(e));
    }
  }

  /** The other direction: letters and operators forming an expression's source notation, with
      any whitespace or parentheses among them, convert to its target notation. */
  lemma ConvertComplete(k: Kind, s: string, e: Expr)
    requires Wf(e) && Filter(Significant, s) == Source(k, e)
    ensures Convert(k, s) == Ok(Target(k, e))
  {
    ScanSkips(k, [], Input(k, s));
    if ReadsPrefix(k) {
      FilterReverse(Significant, s);
    }
    ScanExpr(k, [], e);
    assert [] + [Target(k, e)] == [Target(k, e)];
  }

  /** Every successful prefix_to_postfix, prefix_to_infix, postfix_to_prefix or
      postfix_to_infix keeps the operand letters in their order and outputs each operator of
      the input exactly once. */
  lemma ConvertKeepsOperands(k: Kind, s: string, out: string)
    requires Convert(k, s) == Ok(out)
    ensures Filter(IsAlpha, out) == Filter(IsAlpha, s)
    ensures multiset(Filter(IsOperator, out)) == multiset(Filter(IsOperator, s))
  {
    var e := ConvertSound(k, s, out);
    SignificantKeeps(s);
    FormsAgree(k, e);
  }

  // ---------------------------------------------------------------------------------------
  // infix_to_prefix: operators wait on a stack of characters while the infix expression is
  // read right to left

  /** The output built so far and the stack of pending operators and ')' (bottom first). */
  datatype InfixState = InfixState(output: string, stack: string)

  /** An operator on top of the stack is output before c is pushed when it binds tighter than c,
      or as tight and c is right-associative. A ')' never is: its precedence is -1. */
  predicate PopsBefore(top: char, c: char) {
    Precedence(top) > Precedence(c) ||
    (Precedence(top) == Precedence(c) && Associativity(c) == Some(RightAssoc))
  }

  /** The inner loop of an operator: pop to the output while the top pops before c. */
  function PopHigher(out: string, stk: string, c: char): (r: InfixState)
    ensures r.stack == [] || !PopsBefore(r.stack[|r.stack| - 1], c)
    ensures r.output + Reverse(r.stack) == out + Reverse(stk)
    decreases |stk|
  {
    if stk == [] || !PopsBefore(stk[|stk| - 1], c) then InfixState(out, stk)
    else
      ReverseLast(stk);
      PopHigher(out + [stk[|stk| - 1]], stk[..|stk| - 1], c)
  }

  /** The inner loop of a '(': pop to the output until a ')' is on top or the stack is empty. */
  function PopUntilClose(out: string, stk: string): (r: InfixState)
    ensures r.stack == [] || r.stack[|r.stack| - 1] == ')'
    ensures r.output + Reverse(r.stack) == out + Reverse(stk)
    decreases |stk|
  {
    if stk == [] || stk[|stk| - 1] == ')' then InfixState(out, stk)
    else
      ReverseLast(stk);
      PopUntilClose(out + [stk[|stk| - 1]], stk[..|stk| - 1])
  }

  /** Popping the top of a stack puts it first in what is popped. */
  lemma {:induction false} ReverseLast(s: string)
    requires s != []
    ensures Reverse(s) == [s[|s| - 1]] + Reverse(s[..|s| - 1])
    decreases |s|
  {
    if |s| > 1 {
      var t := s[1..];
      ReverseLast(t);
      assert t[|t| - 1] == s[|s| - 1];
      assert s[..|s| - 1][1..] == t[..|t| - 1];
      assert s[..|s| - 1][0] == s[0];
    } else {
      assert s[..|s| - 1] == [];
    }
  }

  /** One character of the right-to-left scan. The pop that discards the '(' fails on an empty
      stack. */
  function InfixStep(st: InfixState, c: char): Result<InfixState, ConvError> {
    if IsSpace(c) then Ok(st)
    else if IsAlpha(c) then Ok(InfixState(st.output + [c], st.stack))
    else if c == ')' then Ok(InfixState(st.output, st.stack + [c]))
    else if c == '(' then
      var p := PopUntilClose(st.output, st.stack);
      if p.stack == [] then Err(StackEmpty("stack is empty"))
      else Ok(InfixState(p.output, p.stack[..|p.stack| - 1]))
    else if IsOperator(c) then
      var p := PopHigher(st.output, st.stack, c);
      Ok(InfixState(p.output, p.stack + [c]))
    else Ok(st)
  }

  /** The state after scanning s from st; the first error ends the scan. */
  function InfixScan(st: InfixState, s: string): Result<InfixState, ConvError>
    decreases |s|
  {
    if s == [] then Ok(st)
    else
      match InfixScan(st, s[..|s| - 1])
      case Err(e) => Err(e)
      case Ok(m) => InfixStep(m, s[|s| - 1])
  }

  /** The result of infix_to_prefix on an expression that passed the checks: the scan of the
      reversed expression, the operators left on the stack popped onto the output, and the
      output reversed. */
  function InfixConvert(expr: string): Result<string, ConvError> {
    match InfixScan(InfixState("", ""), Reverse(expr))
    case Err(e) => Err(e)
    case Ok(st) => Ok(Reverse(st.output + Reverse(st.stack)))
  }

  /** Once the scan fails it stays failed. */
  lemma {:induction false} InfixErrorSticks(st: InfixState, s: string, n: nat)
    requires n <= |s| && InfixScan(st, s[..n]).Err?
    ensures InfixScan(st, s) == InfixScan(st, s[..n])
    decreases |s|
  {
    if n < |s| {
      var init := s[..|s| - 1];
      assert init[..n] == s[..n];
      InfixErrorSticks(st, init, n);
    } else {
      assert s[..n] == s;
    }
  }

  /** Scanning a + b is scanning a, then b from the state a leaves. */
  lemma {:induction false} InfixAppend(st: InfixState, a: string, b: string)
    ensures InfixScan(st, a + b) ==
      match InfixScan(st, a) case Err(e) => Err(e) case Ok(m) => InfixScan(m, b)
    decreases |b|
  {
    if b == [] {
      assert a + b == a;
    } else {
      assert (a + b)[..|a + b| - 1] == a + b[..|b| - 1];
      InfixAppend(st, a, b[..|b| - 1]);
    }
  }

  // ---------------------------------------------------------------------------------------
  // What every successful infix_to_prefix keeps

  /** Only operators and ')' are ever pushed. */
  predicate NoLetters(s: string) {
    forall i :: 0 <= i < |s| ==> !IsAlpha(s[i])
  }

  /** What the output holds once the stack is popped onto it. */
  function Pending(st: InfixState): string {
    st.output + Reverse(st.stack)
  }

  /** After scanning t, every letter read is on the output in scan order, and every operator
      read is either on the output or on the stack. */
  predicate KeepsOperands(st: InfixState, t: string) {
    NoLetters(st.stack) && Filter(IsAlpha, st.output) == Filter(IsAlpha, t) &&
    multiset(Filter(IsOperator, Pending(st))) == multiset(Filter(IsOperator, t))
  }

  lemma FilterSnoc(p: char -> bool, s: string, c: char)
    ensures Filter(p, s + [c]) == Filter(p, s) + if p(c) then [c] else []
  {
    assert (s + [c])[..|s|] == s;
  }

  lemma {:induction false} NoLettersFilter(s: string)
    requires NoLetters(s)
    ensures Filter(IsAlpha, s) == [] && Filter(IsAlpha, Reverse(s)) == []
    decreases |s|
  {
    if s != [] {
      NoLettersFilter(s[..|s| - 1]);
    }
    FilterReverse(IsAlpha, s);
  }

  lemma FilterAppendEmpty(p: char -> bool, a: string, b: string)
    requires Filter(p, b) == []
    ensures Filter(p, a + b) == Filter(p, a)
  {
    FilterAppend(p, a, b);
    assert Filter(p, a) + [] == Filter(p, a);
  }

  /** Inserting x into a + b adds x's characters to the count. */
  lemma FilterInsertCount(p: char -> bool, a: string, x: string, b: string)
    ensures multiset(Filter(p, a + x + b)) == multiset(Filter(p, a + b)) + multiset(Filter(p, x))
  {
    FilterThree(p, a, x, b);
    FilterAppend(p, a, b);
  }

  /** r is st after moving the top of its stack to the output, as PopHigher and
      PopUntilClose do. */
  predicate PoppedFrom(r: InfixState, st: InfixState) {
    Pending(r) == Pending(st) && |r.stack| <= |st.stack| && r.stack == st.stack[..|r.stack|]
  }

  /** Moving operators from the stack to the output leaves the letters output as they were. */
  lemma PopKeepsLetters(st: InfixState, r: InfixState)
    requires NoLetters(st.stack) && PoppedFrom(r, st)
    ensures NoLetters(r.stack) && Filter(IsAlpha, r.output) == Filter(IsAlpha, st.output)
  {
    NoLettersFilter(st.stack);
    NoLettersFilter(r.stack);
    FilterAppendEmpty(IsAlpha, r.output, Reverse(r.stack));
    FilterAppendEmpty(IsAlpha, st.output, Reverse(st.stack));
  }

  lemma PopPending(st: InfixState)
    requires st.stack != []
    ensures Pending(st) == st.output + [st.stack[|st.stack| - 1]] + Reverse(st.stack[..|st.stack| - 1])
  {
    ReverseLast(st.stack);
  }

  lemma PushPending(st: InfixState, c: char)
    ensures Pending(InfixState(st.output, st.stack + [c])) == st.output + [c] + Reverse(st.stack)
  {
    ReverseAppend(st.stack, [c]);
    ReverseOne(c);
  }

  /** A character that is neither a letter nor an operator changes nothing that is kept. */
  lemma SkipKeeps(st: InfixState, t: string, c: char)
    requires KeepsOperands(st, t) && !IsAlpha(c) && !IsOperator(c)
    ensures KeepsOperands(st, t + [c])
  {
    FilterSnoc(IsAlpha, t, c);
    FilterSnoc(IsOperator, t, c);
  }

  lemma LetterKeeps(st: InfixState, t: string, c: char)
    requires KeepsOperands(st, t) && IsAlpha(c)
    ensures KeepsOperands(InfixState(st.output + [c], st.stack), t + [c])
  {
    CharClasses(c);
    FilterSnoc(IsAlpha, t, c);
    FilterSnoc(IsOperator, t, c);
    FilterSnoc(IsAlpha, st.output, c);
    LetterAlone(c);
    FilterInsertCount(IsOperator, st.output, [c], Reverse(st.stack));
  }

  lemma CloseKeeps(st: InfixState, t: string, c: char)
    requires KeepsOperands(st, t) && c == ')'
    ensures KeepsOperands(InfixState(st.output, st.stack + [c]), t + [c])
  {
    var next := InfixState(st.output, st.stack + [c]);
    assert NoLetters(next.stack);
    assert Filter(IsAlpha, next.output) == Filter(IsAlpha, t + [c]) by {
      FilterSnoc(IsAlpha, t, c);
      assert Filter(IsAlpha, t) + [] == Filter(IsAlpha, t);
    }
    assert multiset(Filter(IsOperator, Pending(next))) == multiset(Filter(IsOperator, t + [c])) by {
      FilterSnoc(IsOperator, t, c);
      PushPending(st, c);
      ParenAlone(c);
      FilterInsertCount(IsOperator, st.output, [c], Reverse(st.stack));
    }
  }

  lemma OpenKeeps(st: InfixState, t: string, c: char, p: InfixState)
    requires KeepsOperands(st, t) && c == '(' && PoppedFrom(p, st)
    requires p.stack != [] && p.stack[|p.stack| - 1] == ')'
    ensures KeepsOperands(InfixState(p.output, p.stack[..|p.stack| - 1]), t + [c])
  {
    PopThenSkipLetters(st, t, c, p);
    OpenCount(st, t, c, p);
  }

  lemma OperatorKeeps(st: InfixState, t: string, c: char, p: InfixState)
    requires KeepsOperands(st, t) && IsOperator(c) && PoppedFrom(p, st)
    ensures KeepsOperands(InfixState(p.output, p.stack + [c]), t + [c])
  {
    CharClasses(c);
    PopThenSkipLetters(st, t, c, p);
    OperatorCount(st, t, c, p);
  }

  /** Popping and then reading a character that is not a letter keeps the letters output. */
  lemma PopThenSkipLetters(st: InfixState, t: string, c: char, p: InfixState)
    requires NoLetters(st.stack) && Filter(IsAlpha, st.output) == Filter(IsAlpha, t)
    requires !IsAlpha(c) && PoppedFrom(p, st)
    ensures NoLetters(p.stack) && Filter(IsAlpha, p.output) == Filter(IsAlpha, t + [c])
  {
    PopKeepsLetters(st, p);
    FilterSnoc(IsAlpha, t, c);
    assert Filter(IsAlpha, t) + [] == Filter(IsAlpha, t);
  }

  /** Discarding the ')' that a '(' closes keeps the operators: the '(' is not one. */
  lemma OpenCount(st: InfixState, t: string, c: char, p: InfixState)
    requires multiset(Filter(IsOperator, Pending(st))) == multiset(Filter(IsOperator, t))
    requires !IsOperator(c) && Pending(p) == Pending(st) && p.stack != [] && p.stack[|p.stack| - 1] == ')'
    ensures multiset(Filter(IsOperator, Pending(InfixState(p.output, p.stack[..|p.stack| - 1]))))
      == multiset(Filter(IsOperator, t + [c]))
  {
    DropClose(p);
    assert Filter(IsOperator, t + [c]) == Filter(IsOperator, t) by {
      FilterSnoc(IsOperator, t, c);
      assert Filter(IsOperator, t) + [] == Filter(IsOperator, t);
    }
  }

  /** Discarding a ')' from the top of the stack removes no operator. */
  lemma DropClose(p: InfixState)
    requires p.stack != [] && p.stack[|p.stack| - 1] == ')'
    ensures multiset(Filter(IsOperator, Pending(p)))
      == multiset(Filter(IsOperator, Pending(InfixState(p.output, p.stack[..|p.stack| - 1]))))
  {
    var rest := p.stack[..|p.stack| - 1];
    var close := p.stack[|p.stack| - 1];
    PopPending(p);
    ParenAlone(close);
    FilterInsertCount(IsOperator, p.output, [close], Reverse(rest));
  }

  /** Pushing an operator after the pops keeps the operators. */
  lemma OperatorCount(st: InfixState, t: string, c: char, p: InfixState)
    requires multiset(Filter(IsOperator, Pending(st))) == multiset(Filter(IsOperator, t))
    requires IsOperator(c) && Pending(p) == Pending(st)
    ensures multiset(Filter(IsOperator, Pending(InfixState(p.output, p.stack + [c]))))
      == multiset(Filter(IsOperator, t + [c]))
  {
    FilterSnoc(IsOperator, t, c);
    PushPending(p, c);
    OperatorAlone(c);
    FilterInsertCount(IsOperator, p.output, [c], Reverse(p.stack));
  }

  /** Popping leaves a bottom part of the stack. */
  lemma {:induction false} PopHigherPrefix(out: string, stk: string, c: char)
    ensures var r := PopHigher(out, stk, c); |r.stack| <= |stk| && r.stack == stk[..|r.stack|]
    decreases |stk|
  {
    if stk != [] && PopsBefore(stk[|stk| - 1], c) {
      var rest := stk[..|stk| - 1];
      PopHigherPrefix(out + [stk[|stk| - 1]], rest, c);
      var r := PopHigher(out, stk, c);
      assert rest[..|r.stack|] == stk[..|r.stack|];
    }
  }

  lemma {:induction false} PopUntilClosePrefix(out: string, stk: string)
    ensures var r := PopUntilClose(out, stk); |r.stack| <= |stk| && r.stack == stk[..|r.stack|]
    decreases |stk|
  {
    if stk != [] && stk[|stk| - 1] != ')' {
      var rest := stk[..|stk| - 1];
      PopUntilClosePrefix(out + [stk[|stk| - 1]], rest);
      var r := PopUntilClose(out, stk);
      assert rest[..|r.stack|] == stk[..|r.stack|];
    }
  }

  /** Every character of the scan keeps the letters and the operators. */
  lemma InfixStepKeeps(st: InfixState, t: string, c: char, next: InfixState)
    requires KeepsOperands(st, t) && InfixStep(st, c) == Ok(next)
    ensures KeepsOperands(next, t + [c])
  {
    CharClasses(c);
    if IsSpace(c) {
      SkipKeeps(st, t, c);
    } else if IsAlpha(c) {
      LetterKeeps(st, t, c);
    } else if c == ')' {
      CloseKeeps(st, t, c);
    } else if c == '(' {
      PopUntilClosePrefix(st.output, st.stack);
      OpenKeeps(st, t, c, PopUntilClose(st.output, st.stack));
    } else if IsOperator(c) {
      PopHigherPrefix(st.output, st.stack, c);
      OperatorKeeps(st, t, c, PopHigher(st.output, st.stack, c));
    } else {
      SkipKeeps(st, t, c);
    }
  }

  lemma {:induction false} InfixScanKeeps(t: string, st: InfixState)
    requires InfixScan(InfixState("", ""), t) == Ok(st)
    ensures KeepsOperands(st, t)
    decreases |t|
  {
    if t != [] {
      var init, c := t[..|t| - 1], t[|t| - 1];
      var m := InfixScan(InfixState("", ""), init).value;
      InfixScanKeeps(init, m);
      assert init + [c] == t;
      InfixStepKeeps(m, init, c, st);
    }
  }

  /** Every successful infix_to_prefix keeps the operand letters in their order and outputs
      each operator of the input exactly once. */
  lemma InfixKeepsOperands(s: string, out: string)
    requires InfixConvert(s) == Ok(out)
    ensures Filter(IsAlpha, out) == Filter(IsAlpha, s)
    ensures multiset(Filter(IsOperator, out)) == multiset(Filter(IsOperator, s))
  {
    var st := InfixScan(InfixState("", ""), Reverse(s)).value;
    InfixScanKeeps(Reverse(s), st);
    var pending := Pending(st);
    assert out == Reverse(pending);
    assert Filter(IsAlpha, out) == Filter(IsAlpha, s) by {
      NoLettersFilter(st.stack);
      FilterAppend(IsAlpha, st.output, Reverse(st.stack));
      assert Filter(IsAlpha, pending) == Filter(IsAlpha, st.output) + [];
      FilterReverse(IsAlpha, pending);
      FilterReverse(IsAlpha, s);
      ReverseReverse(Filter(IsAlpha, s));
    }
    assert multiset(Filter(IsOperator, out)) == multiset(Filter(IsOperator, s)) by {
      FilterReverse(IsOperator, pending);
      ReverseMultiset(Filter(IsOperator, pending));
      FilterReverse(IsOperator, s);
      ReverseMultiset(Filter(IsOperator, s));
    }
  }

  /** The operator loop of `infix_to_prefix`: pop while the top pops before c, then push c. */
  method PushOperator(output: string, stack: Stack<char>, c: char) returns (out: string)
    modifies stack
    ensures InfixState(out, stack.items) ==
      var p := PopHigher(output, old(stack.items), c); InfixState(p.output, p.stack + [c])
  {
    out := output;
    while !stack.IsEmpty()
      invariant PopHigher(out, stack.items, c) == PopHigher(output, old(stack.items), c)
      decreases |stack.items|
    {
      var top := stack.Peek();
      if Precedence(top.value) > Precedence(c) {
        var popped := stack.Pop();
        out := out + [popped.value];
      } else if Precedence(top.value) == Precedence(c) && Associativity(c) == Some(RightAssoc) {
        var popped := stack.Pop();
        out := out + [popped.value];
      } else {
        break;
      }
    }
    stack.Push(c);
  }

  /** The '(' loop of `infix_to_prefix`: pop until a ')' is on top, then discard it; the
      discarding pop fails on an empty stack. */
  method CloseGroup(output: string, stack: Stack<char>) returns (r: Result<string, ConvError>)
    modifies stack
    ensures var p := PopUntilClose(output, old(stack.items));
      if p.stack == [] then r == Err(StackEmpty("stack is empty"))
      else r == Ok(p.output) && stack.items == p.stack[..|p.stack| - 1]
  {
    var out := output;
    while !stack.IsEmpty() && stack.Peek() != Some(')')
      invariant PopUntilClose(out, stack.items) == PopUntilClose(output, old(stack.items))
      decreases |stack.items|
    {
      var popped := stack.Pop();
      out := out + [popped.value];
    }
    var discarded := stack.Pop();
    if discarded.Err? {
      return Err(StackEmpty(discarded.error.message));
    }
    return Ok(out);
  }

  /** The last loop of `infix_to_prefix`: pop what is left onto the output. */
  method DrainOperators(output: string, stack: Stack<char>) returns (out: string)
    modifies stack
    ensures out == output + Reverse(old(stack.items)) && stack.items == []
  {
    out := output;
    while !stack.IsEmpty()
      invariant out + Reverse(stack.items) == output + Reverse(old(stack.items))
      decreases |stack.items|
    {
      ReverseLast(stack.items);
      var popped := stack.Pop();
      out := out + [popped.value];
    }
  }

  /** `infix_to_prefix(expr)`: an expression that fails the checks (with the operator-sequence
      check) is refused with the first failing check's InvalidExpressionError; one that passes
      them gives what InfixConvert says. */
  method InfixToPrefix(expr: string) returns (r: Result<string, ConvError>)
    ensures !Valid(expr, true) ==> r.Err? && r.error.InvalidExpressionError? && RefusedWith(expr, true, r.error)
    ensures Valid(expr, true) ==> r == InfixConvert(expr)
  {
    var checked := ValidateExpression(expr, true);
    if checked.Fail? {
      return Err(checked.error);
    }
    r := ConvertInfix(expr);
  }

  /** The conversion `infix_to_prefix` makes once the checks pass: the reversed expression is
      scanned with an operator stack, the operators left are popped onto the output, and the
      output is reversed. */
  method ConvertInfix(expr: string) returns (r: Result<string, ConvError>)
    ensures r == InfixConvert(expr)
  {
    var output := "";
    var stack := new Stack<char>();
    var input := Reverse(expr);
    var i := 0;
    while i < |input|
      invariant 0 <= i <= |input|
      invariant InfixScan(InfixState("", ""), input[..i]) == Ok(InfixState(output, stack.items))
      modifies stack
    {
      var c := input[i];
      assert input[..i + 1][..i] == input[..i];
      var next := ScanCharacter(output, stack, c);
      if next.Err? {
        InfixErrorSticks(InfixState("", ""), input, i + 1);
        return Err(next.error);
      }
      output := next.value;
      i := i + 1;
    }
    assert input[..|input|] == input;
    output := DrainOperators(output, stack);
    return Ok(Reverse(output));
  }

  /** The body of the scanning loop of `infix_to_prefix`, for one character c. */
  method ScanCharacter(output: string, stack: Stack<char>, c: char) returns (r: Result<string, ConvError>)
    modifies stack
    ensures var step := InfixStep(InfixState(output, old(stack.items)), c);
      if step.Err? then r == Err(step.error)
      else r == Ok(step.value.output) && stack.items == step.value.stack
  {
    if IsSpace(c) {
      return Ok(output);
    } else if IsAlpha(c) {
      return Ok(output + [c]);
    } else if c == ')' {
      stack.Push(c);
      return Ok(output);
    } else if c == '(' {
      r := CloseGroup(output, stack);
    } else if IsOperator(c) {
      var out := PushOperator(output, stack, c);
      return Ok(out);
    } else {
      return Ok(output);
    }
  }

  // ---------------------------------------------------------------------------------------
  // What infix_to_prefix computes on fully parenthesised expressions

  lemma ReverseReverse(s: string)
    ensures Reverse(Reverse(s)) == s
  {
  }

  /** A fully parenthesised expression read backwards: ')', the right operand backwards, the
      operator, the left operand backwards, '('. */
  lemma InfixBackwards(op: char, l: Expr, r: Expr)
    ensures Reverse(InfixOf(Bin(op, l, r))) ==
      ")" + Reverse(InfixOf(r)) + [op] + Reverse(InfixOf(l)) + "("
  {
    var a, b := InfixOf(l), InfixOf(r);
    var head := "(" + a;
    var withOp := head + [op];
    var closed := withOp + b;
    assert InfixOf(Bin(op, l, r)) == closed + ")";
    assert Reverse(closed + ")") == ")" + Reverse(closed) by {
      ReverseAppend(closed, ")");
      ReverseOne(')');
    }
    assert Reverse(closed) == Reverse(b) + Reverse(withOp) by {
      ReverseAppend(withOp, b);
    }
    assert Reverse(withOp) == [op] + Reverse(head) by {
      ReverseAppend(head, [op]);
      ReverseOne(op);
    }
    assert Reverse(head) == Reverse(a) + "(" by {
      ReverseAppend("(", a);
      ReverseOne('(');
    }
    Nest(Reverse(closed + ")"), Reverse(closed), Reverse(withOp), Reverse(head), Reverse(b), op, Reverse(a));
  }

  /** Unfolding four nested concatenations. */
  lemma Nest(x: string, y: string, z: string, w: string, rb: string, op: char, ra: string)
    requires x == ")" + y && y == rb + z && z == [op] + w && w == ra + "("
    ensures x == ")" + rb + [op] + ra + "("
  {
  }

  lemma ReverseOne(c: char)
    ensures Reverse([c]) == [c]
  {
    assert [c][1..] == [];
  }

  lemma InfixOne(st: InfixState, c: char)
    ensures InfixScan(st, [c]) == InfixStep(st, c)
  {
    assert [c][..0] == [];
  }

  lemma Regroup(o: string, a: string, b: string, c: string)
    ensures o + a + b + c == o + (a + b + c)
  {
  }

  /** Five scans in a row are one scan of the five pieces. */
  lemma ChainFive(s0: InfixState, a: string, b: string, c: string, d: string, e: string,
                  s1: InfixState, s2: InfixState, s3: InfixState, s4: InfixState, s5: InfixState)
    requires InfixScan(s0, a) == Ok(s1) && InfixScan(s1, b) == Ok(s2) && InfixScan(s2, c) == Ok(s3)
    requires InfixScan(s3, d) == Ok(s4) && InfixScan(s4, e) == Ok(s5)
    ensures InfixScan(s0, a + b + c + d + e) == Ok(s5)
  {
    InfixAppend(s0, a, b);
    InfixAppend(s0, a + b, c);
    InfixAppend(s0, a + b + c, d);
    InfixAppend(s0, a + b + c + d, e);
  }

  /** An operator met with a ')' on top pops nothing and is pushed. */
  lemma OperatorOverClose(o: string, k: string, op: char)
    requires IsOperator(op)
    ensures InfixScan(InfixState(o, k + [')']), [op]) == Ok(InfixState(o, k + [')', op]))
  {
    InfixOne(InfixState(o, k + [')']), op);
    assert k + [')'] + [op] == k + [')', op];
  }

  /** A '(' met with an operator above a ')' outputs the operator and discards the ')'. */
  lemma OpenOverOperator(o: string, k: string, op: char)
    requires IsOperator(op)
    ensures InfixScan(InfixState(o, k + [')', op]), "(") == Ok(InfixState(o + [op], k))
  {
    var stk := k + [')', op];
    InfixOne(InfixState(o, stk), '(');
    assert stk[..|stk| - 1] == k + [')'];
    assert PopUntilClose(o, stk) == PopUntilClose(o + [op], k + [')']);
    assert PopUntilClose(o + [op], k + [')']) == InfixState(o + [op], k + [')']);
    assert (k + [')'])[..|k|] == k;
  }

  lemma CloseFirst(o: string, k: string)
    ensures InfixScan(InfixState(o, k), ")") == Ok(InfixState(o, k + [')']))
  {
    InfixOne(InfixState(o, k), ')');
  }

  /** Scanning the backwards form of a fully parenthesised expression appends its prefix form
      backwards to the output and leaves the stack as it found it: every operator waits above
      the ')' of its own group and is output when the group's '(' is met. */
  lemma {:induction false} InfixExpr(st: InfixState, e: Expr)
    requires Wf(e)
    ensures InfixScan(st, Reverse(InfixOf(e))) == Ok(InfixState(st.output + Reverse(PrefixOf(e)), st.stack))
    decreases e
  {
    match e
    case Var(x) =>
      assert Reverse(InfixOf(e)) == [x] && Reverse(PrefixOf(e)) == [x];
      InfixOne(st, x);
    case Bin(op, l, r) =>
      var o, k := st.output, st.stack;
      var pr, pl := Reverse(PrefixOf(r)), Reverse(PrefixOf(l));
      CloseFirst(o, k);
      InfixExpr(InfixState(o, k + [')']), r);
      OperatorOverClose(o + pr, k, op);
      InfixExpr(InfixState(o + pr, k + [')', op]), l);
      OpenOverOperator(o + pr + pl, k, op);
      ChainFive(st, ")", Reverse(InfixOf(r)), [op], Reverse(InfixOf(l)), "(",
        InfixState(o, k + [')']), InfixState(o + pr, k + [')']), InfixState(o + pr, k + [')', op]),
        InfixState(o + pr + pl, k + [')', op]), InfixState(o + pr + pl + [op], k));
      InfixBackwards(op, l, r);
      PrefixBackwards(op, l, r);
      assert Reverse(PrefixOf(e)) == pr + pl + [op];
      Regroup(o, pr, pl, [op]);
  }

  /** Every character `_validate_tokens` accepts. */
  predicate Tokens(s: string) {
    forall i :: 0 <= i < |s| ==> ValidToken(s[i])
  }

  lemma TokensAppend(a: string, b: string)
    requires Tokens(a) && Tokens(b)
    ensures Tokens(a + b)
  {
    forall i | 0 <= i < |a + b|
      ensures ValidToken((a + b)[i])
    {
      if i >= |a| {
        assert (a + b)[i] == b[i - |a|];
      }
    }
  }

  /** No prefix of s closes more parentheses than it opens. */
  predicate NeverBelowZero(s: string) {
    forall k :: 0 <= k <= |s| ==> Depth(s[..k]) >= 0
  }

  lemma {:induction false} DepthAppend(a: string, b: string)
    ensures Depth(a + b) == Depth(a) + Depth(b)
    decreases |b|
  {
    if b == [] {
      assert a + b == a;
    } else {
      assert (a + b)[..|a + b| - 1] == a + b[..|b| - 1];
      DepthAppend(a, b[..|b| - 1]);
    }
  }

  lemma NeverBelowZeroAppend(a: string, b: string)
    requires NeverBelowZero(a) && NeverBelowZero(b)
    ensures NeverBelowZero(a + b)
  {
    assert a[..|a|] == a;
    forall k | 0 <= k <= |a + b|
      ensures Depth((a + b)[..k]) >= 0
    {
      if k <= |a| {
        assert (a + b)[..k] == a[..k];
      } else {
        assert (a + b)[..k] == a + b[..k - |a|];
        DepthAppend(a, b[..k - |a|]);
      }
    }
  }

  /** A ')' after a prefix that is still open keeps every prefix at or above zero. */
  lemma CloseAfterOpen(a: string)
    requires NeverBelowZero(a) && Depth(a) >= 1
    ensures NeverBelowZero(a + ")") && Depth(a + ")") == Depth(a) - 1
  {
    assert (a + ")")[..|a + ")"| - 1] == a;
    forall k | 0 <= k <= |a + ")"|
      ensures Depth((a + ")")[..k]) >= 0
    {
      if k <= |a| {
        assert (a + ")")[..k] == a[..k];
      } else {
        assert (a + ")")[..k] == a + ")";
      }
    }
  }

  /** After a character that clears the flag, the flag depends only on what follows. */
  lemma {:induction false} PrevAfterReset(a: string, b: string)
    requires b != [] && Resets(b[0])
    ensures PrevWasOperator(a + b) == PrevWasOperator(b)
    decreases |b|
  {
    var c := b[|b| - 1];
    assert (a + b)[|a + b| - 1] == c;
    if !IsOperator(c) && !Resets(c) {
      assert |b| > 1;
      assert (a + b)[..|a + b| - 1] == a + b[..|b| - 1];
      PrevAfterReset(a, b[..|b| - 1]);
    }
  }

  /** No operator is met while the flag is set: what `_check_infix_operator_sequence` accepts. */
  predicate NoOperatorPairs(s: string) {
    forall j :: 0 <= j < |s| ==> !(IsOperator(s[j]) && PrevWasOperator(s[..j]))
  }

  lemma NoOperatorPairsAppend(a: string, b: string)
    requires NoOperatorPairs(a) && NoOperatorPairs(b) && b != [] && Resets(b[0])
    ensures NoOperatorPairs(a + b)
  {
    forall j | 0 <= j < |a + b| && IsOperator((a + b)[j])
      ensures !PrevWasOperator((a + b)[..j])
    {
      if j < |a| {
        assert (a + b)[..j] == a[..j] && (a + b)[j] == a[j];
      } else {
        var i := j - |a|;
        assert (a + b)[j] == b[i];
        assert i > 0;
        assert (a + b)[..j] == a + b[..i];
        PrevAfterReset(a, b[..i]);
      }
    }
  }

  lemma NoOperatorPairsOperator(a: string, op: char)
    requires NoOperatorPairs(a) && a != [] && Resets(a[|a| - 1])
    ensures NoOperatorPairs(a + [op])
  {
    forall j | 0 <= j < |a + [op]| && IsOperator((a + [op])[j])
      ensures !PrevWasOperator((a + [op])[..j])
    {
      if j < |a| {
        assert (a + [op])[..j] == a[..j] && (a + [op])[j] == a[j];
      } else {
        assert (a + [op])[..j] == a;
      }
    }
  }

  /** A fully parenthesised expression starts with a letter or '(' and ends with a letter or
      ')'. */
  lemma {:induction false} InfixEnds(e: Expr)
    requires Wf(e)
    ensures var s := InfixOf(e); s != [] && Resets(s[0]) && Resets(s[|s| - 1])
  {
  }

  /** The fully parenthesised form uses only letters, operators and parentheses. */
  lemma {:induction false} InfixTokens(e: Expr)
    requires Wf(e)
    ensures Tokens(InfixOf(e))
    decreases e
  {
    match e
    case Var(x) =>
    case Bin(op, l, r) =>
      var a, b := InfixOf(l), InfixOf(r);
      InfixTokens(l);
      InfixTokens(r);
      TokensAppend("(", a);
      TokensAppend("(" + a, [op]);
      TokensAppend("(" + a + [op], b);
      TokensAppend("(" + a + [op] + b, ")");
  }

  /** One character other than ')' never takes the depth below zero. */
  lemma OneCharDepth(c: char)
    ensures Depth([c]) == if c == '(' then 1 else if c == ')' then -1 else 0
    ensures c != ')' ==> NeverBelowZero([c])
  {
    assert [c][..0] == [] && [c][..1] == [c];
  }

  /** The parentheses of the fully parenthesised form balance. */
  lemma {:induction false} InfixBalanced(e: Expr)
    requires Wf(e)
    ensures NeverBelowZero(InfixOf(e)) && Depth(InfixOf(e)) == 0
    decreases e
  {
    match e
    case Var(x) =>
      OneCharDepth(x);
    case Bin(op, l, r) =>
      var a, b := InfixOf(l), InfixOf(r);
      InfixBalanced(l);
      InfixBalanced(r);
      OneCharDepth('(');
      OneCharDepth(op);
      NeverBelowZeroAppend("(", a);
      DepthAppend("(", a);
      NeverBelowZeroAppend("(" + a, [op]);
      DepthAppend("(" + a, [op]);
      NeverBelowZeroAppend("(" + a + [op], b);
      DepthAppend("(" + a + [op], b);
      CloseAfterOpen("(" + a + [op] + b);
  }

  /** No two operators of the fully parenthesised form follow each other. */
  lemma {:induction false} InfixNoOperatorPairs(e: Expr)
    requires Wf(e)
    ensures NoOperatorPairs(InfixOf(e))
    decreases e
  {
    match e
    case Var(x) =>
    case Bin(op, l, r) =>
      var a, b := InfixOf(l), InfixOf(r);
      InfixNoOperatorPairs(l);
      InfixNoOperatorPairs(r);
      InfixEnds(l);
      InfixEnds(r);
      NoOperatorPairsAppend("(", a);
      assert ("(" + a)[|"(" + a| - 1] == a[|a| - 1];
      NoOperatorPairsOperator("(" + a, op);
      NoOperatorPairsAppend("(" + a + [op], b);
      NoOperatorPairsAppend("(" + a + [op] + b, ")");
  }

  /** infix_to_prefix is correct on fully parenthesised input: the infix form of any expression
      with at least one operator passes the checks and converts to its prefix form. */
  lemma InfixToPrefixExpr(e: Expr)
    requires Wf(e) && e.Bin?
    ensures Valid(InfixOf(e), true)
    ensures InfixConvert(InfixOf(e)) == Ok(PrefixOf(e))
  {
    var s := InfixOf(e);
    InfixTokens(e);
    InfixBalanced(e);
    InfixNoOperatorPairs(e);
    assert s[|InfixOf(e.left)| + 1] == e.op;
    InfixExpr(InfixState("", ""), e);
    assert "" + Reverse(PrefixOf(e)) + Reverse("") == Reverse(PrefixOf(e));
    ReverseReverse(PrefixOf(e));
  }

  lemma ReverseFive(a: char, b: char, c: char, d: char, e: char)
    ensures Reverse([a, b, c, d, e]) == [e, d, c, b, a]
  {
    assert [a, b, c, d, e][1..] == [b, c, d, e];
    assert [b, c, d, e][1..] == [c, d, e];
    assert [c, d, e][1..] == [d, e];
    assert [d, e][1..] == [e];
  }

  /** Three characters scanned one after another. */
  lemma ScanThreeChars(st: InfixState, x: char, y: char, z: char)
    ensures InfixScan(st, [x, y, z]) ==
      match InfixStep(st, x)
      case Err(e) => Err(e)
      case Ok(s1) =>
        match InfixStep(s1, y)
        case Err(e) => Err(e)
        case Ok(s2) => InfixStep(s2, z)
  {
    ScanTwoChars(st, x, y);
    assert [x, y, z][..2] == [x, y];
  }

  lemma ScanTwoChars(st: InfixState, x: char, y: char)
    ensures InfixScan(st, [x, y]) ==
      match InfixStep(st, x)
      case Err(e) => Err(e)
      case Ok(s1) => InfixStep(s1, y)
  {
    InfixOne(st, x);
    assert [x, y][..1] == [x];
  }

  /** Letters, operators, whitespace and parentheses are distinct classes of characters. */
  lemma CharClasses(c: char)
    ensures IsAlpha(c) ==> !IsSpace(c) && !IsOperator(c) && c != '(' && c != ')'
    ensures IsOperator(c) ==> !IsSpace(c) && !IsAlpha(c) && c != '(' && c != ')'
  {
  }

  /** The right half, read first: z, the operator q, y. */
  lemma TwoOperatorsFirstHalf(y: char, q: char, z: char)
    requires IsAlpha(y) && IsAlpha(z) && IsOperator(q)
    ensures InfixScan(InfixState("", ""), [z, q, y]) == Ok(InfixState([z, y], [q]))
  {
    var start := InfixState("", "");
    CharClasses(y);
    CharClasses(q);
    CharClasses(z);
    ScanThreeChars(start, z, q, y);
    assert "" + [z] == [z] && "" + [q] == [q] && [z] + [y] == [z, y];
    assert InfixStep(start, z) == Ok(InfixState([z], ""));
    assert PopHigher([z], "", q) == InfixState([z], "");
    assert InfixStep(InfixState([z], ""), q) == Ok(InfixState([z], [q]));
    assert InfixStep(InfixState([z], [q]), y) == Ok(InfixState([z, y], [q]));
  }

  /** The operator p meets an operator q on top of the stack that pops before it. */
  lemma OperatorPops(z: char, y: char, q: char, p: char)
    requires IsOperator(p) && PopsBefore(q, p)
    ensures InfixStep(InfixState([z, y], [q]), p) == Ok(InfixState([z, y, q], [p]))
  {
    CharClasses(p);
    assert [q][..0] == "" && "" + [p] == [p] && [z, y] + [q] == [z, y, q];
    assert PopHigher([z, y], [q], p) == InfixState([z, y, q], "");
  }

  /** The operator p meets an operator q on top of the stack that does not pop before it. */
  lemma OperatorWaits(z: char, y: char, q: char, p: char)
    requires IsOperator(p) && !PopsBefore(q, p)
    ensures InfixStep(InfixState([z, y], [q]), p) == Ok(InfixState([z, y], [q, p]))
  {
    CharClasses(p);
    assert [q] + [p] == [q, p];
  }

  /** The left half: the operator p meets q on the stack, then x. */
  lemma TwoOperatorsSecondHalf(x: char, p: char, y: char, q: char, z: char)
    requires IsAlpha(x) && IsOperator(p) && IsOperator(q)
    ensures InfixScan(InfixState([z, y], [q]), [p, x]) ==
      if PopsBefore(q, p) then Ok(InfixState([z, y, q, x], [p]))
      else Ok(InfixState([z, y, x], [q, p]))
  {
    CharClasses(x);
    ScanTwoChars(InfixState([z, y], [q]), p, x);
    if PopsBefore(q, p) {
      OperatorPops(z, y, q, p);
    } else {
      OperatorWaits(z, y, q, p);
    }
    assert [z, y, q] + [x] == [z, y, q, x] && [z, y] + [x] == [z, y, x];
  }

  /** Precedence and associativity decide the grouping of x p y q z: it is x p (y q z) when q
      binds tighter than p, or as tight and p is right-associative; otherwise (x p y) q z. */
  lemma TwoOperators(x: char, p: char, y: char, q: char, z: char)
    requires IsAlpha(x) && IsAlpha(y) && IsAlpha(z) && IsOperator(p) && IsOperator(q)
    ensures InfixConvert([x, p, y, q, z]) ==
      if PopsBefore(q, p) then Ok([p, x, q, y, z]) else Ok([q, p, x, y, z])
  {
    ReverseFive(x, p, y, q, z);
    TwoOperatorsFirstHalf(y, q, z);
    TwoOperatorsSecondHalf(x, p, y, q, z);
    InfixAppend(InfixState("", ""), [z, q, y], [p, x]);
    assert [z, q, y] + [p, x] == [z, q, y, p, x];
    if PopsBefore(q, p) {
      assert [z, y, q, x] + Reverse([p]) == [z, y, q, x, p];
      ReverseFive(z, y, q, x, p);
    } else {
      assert Reverse([q, p]) == [p, q];
      assert [z, y, x] + Reverse([q, p]) == [z, y, x, p, q];
      ReverseFive(z, y, x, p, q);
    }
  }

  /** '*' binds tighter than '+'; '^' groups to the right; '-' groups to the left. */
  lemma GroupingExamples()
    ensures InfixConvert("a+b*c") == Ok("+a*bc")
    ensures InfixConvert("a^b^c") == Ok("^a^bc")
    ensures InfixConvert("a-b-c") == Ok("--abc")
  {
    TwoOperators('a', '+', 'b', '*', 'c');
    TwoOperators('a', '^', 'b', '^', 'c');
    TwoOperators('a', '-', 'b', '-', 'c');
  }
}
