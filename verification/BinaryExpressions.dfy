/**
  The operator-precedence parser for binary expressions of the bundled ECMAScript
  parser: a shift-reduce loop over one explicit stack that mixes expressions and
  operator tokens, with a second stack of start markers beside it.

  One `Operand` lexeme stands for everything one call of the exponentiation parser
  consumes; any other lexeme is a token whose precedence decides what happens.
 */
module BinaryExpressions {
  import opened Wrappers

  datatype TokenKind = Punctuator | Keyword | OtherToken

  datatype Token = Token(kind: TokenKind, value: string)

  datatype Lexeme = Operand(start: nat, id: nat) | Symbol(start: nat, token: Token)

  datatype Expr =
    | Leaf(start: nat, id: nat)
    | Binary(start: nat, op: string, left: Expr, right: Expr)

  datatype Item = OperandItem(start: nat, id: nat) | OperatorItem(value: string)

  datatype Result<+T> = Success(value: T) | UnexpectedToken(at: nat)

  // ---------------------------------------------------------------------------
  // Precedence of a token

  function OperatorPrecedence(value: string): nat {
    if value == "||" then 1
    else if value == "&&" then 2
    else if value == "|" then 3
    else if value == "^" then 4
    else if value == "&" then 5
    else if value in ["==", "!=", "===", "!=="] then 6
    else if value in ["<", ">", "<=", ">="] then 7
    else if value in ["<<", ">>", ">>>"] then 8
    else if value in ["+", "-"] then 9
    else if value in ["*", "/", "%"] then 11
    else 0
  }

  function BinaryPrecedence(t: Token, allowIn: bool): nat {
    match t.kind
    case Punctuator => OperatorPrecedence(t.value)
    case Keyword => if t.value == "instanceof" || (allowIn && t.value == "in") then 7 else 0
    case OtherToken => 0
  }

  /** The precedence an operator has inside a finished tree, where only its text is left. */
  function Level(op: string, allowIn: bool): nat {
    if op == "instanceof" || (allowIn && op == "in") then 7 else OperatorPrecedence(op)
  }

  const OPERAND_LEVEL: nat := 12

  lemma TokenLevel(t: Token, allowIn: bool)
    requires BinaryPrecedence(t, allowIn) > 0
    ensures BinaryPrecedence(t, allowIn) == Level(t.value, allowIn) < OPERAND_LEVEL
  {}

  // ---------------------------------------------------------------------------
  // What a correct tree is

  function Flatten(e: Expr): seq<Item> {
    match e
    case Leaf(start, id) => [OperandItem(start, id)]
    case Binary(_, op, l, r) => Flatten(l) + [OperatorItem(op)] + Flatten(r)
  }

  function Rank(e: Expr, allowIn: bool): nat {
    match e
    case Leaf(_, _) => OPERAND_LEVEL
    case Binary(_, op, _, _) => Level(op, allowIn)
  }

  /** Left children bind at least as tightly as their parent, right children strictly tighter. */
  predicate Grouped(e: Expr, allowIn: bool) {
    match e
    case Leaf(_, _) => true
    case Binary(_, op, l, r) =>
      && 0 < Level(op, allowIn) <= Rank(l, allowIn)
      && Level(op, allowIn) < Rank(r, allowIn)
      && Grouped(l, allowIn) && Grouped(r, allowIn)
  }

  /** Every node carries the start of its leftmost operand. */
  predicate Marked(e: Expr) {
    match e
    case Leaf(_, _) => true
    case Binary(start, _, l, r) => start == l.start && Marked(l) && Marked(r)
  }

  // ---------------------------------------------------------------------------
  // The grammar of sections 12.6 to 12.12 of ECMA-262, 6th edition

  datatype Nonterminal =
    | LogicalOr | LogicalAnd | BitwiseOr | BitwiseXor | BitwiseAnd
    | Equality | Relational | Shift | Additive | Multiplicative | Unary

  function Tighter(n: Nonterminal): Nonterminal
    requires n != Unary
  {
    match n
    case LogicalOr => LogicalAnd
    case LogicalAnd => BitwiseOr
    case BitwiseOr => BitwiseXor
    case BitwiseXor => BitwiseAnd
    case BitwiseAnd => Equality
    case Equality => Relational
    case Relational => Shift
    case Shift => Additive
    case Additive => Multiplicative
    case Multiplicative => Unary
  }

  function Depth(n: Nonterminal): nat {
    match n
    case LogicalOr => 10
    case LogicalAnd => 9
    case BitwiseOr => 8
    case BitwiseXor => 7
    case BitwiseAnd => 6
    case Equality => 5
    case Relational => 4
    case Shift => 3
    case Additive => 2
    case Multiplicative => 1
    case Unary => 0
  }

  /** The operators a production of the nonterminal may use; `in` needs the [In] parameter. */
  function Operators(n: Nonterminal, allowIn: bool): set<string> {
    match n
    case LogicalOr => {"||"}
    case LogicalAnd => {"&&"}
    case BitwiseOr => {"|"}
    case BitwiseXor => {"^"}
    case BitwiseAnd => {"&"}
    case Equality => {"==", "!=", "===", "!=="}
    case Relational => {"<", ">", "<=", ">=", "instanceof"} + (if allowIn then {"in"} else {})
    case Shift => {"<<", ">>", ">>>"}
    case Additive => {"+", "-"}
    case Multiplicative => {"*", "/", "%"}
    case Unary => {}
  }

  /** `e` is a parse tree of the nonterminal: one tighter, or N op Tighter(N). */
  predicate Derives(n: Nonterminal, e: Expr, allowIn: bool)
    decreases e, Depth(n)
  {
    if n == Unary then e.Leaf?
    else
      || Derives(Tighter(n), e, allowIn)
      || (&& e.Binary?
          && e.op in Operators(n, allowIn)
          && Derives(n, e.left, allowIn)
          && Derives(Tighter(n), e.right, allowIn))
  }

  function LevelOf(n: Nonterminal): nat {
    match n
    case LogicalOr => 1
    case LogicalAnd => 2
    case BitwiseOr => 3
    case BitwiseXor => 4
    case BitwiseAnd => 5
    case Equality => 6
    case Relational => 7
    case Shift => 8
    case Additive => 9
    case Multiplicative => 11
    case Unary => 12
  }

  lemma {:induction false} OperatorsHaveTheirLevel(n: Nonterminal, op: string, allowIn: bool)
    requires n != Unary
    ensures op in Operators(n, allowIn) <==> Level(op, allowIn) == LevelOf(n)
  {
    match n
    case LogicalOr => case LogicalAnd => case BitwiseOr => case BitwiseXor => case BitwiseAnd =>
    case Equality => case Relational => case Shift => case Additive => case Multiplicative =>
  }

  /** The kind of token that can be the operator: a keyword for the two that are words. */
  predicate RightKind(t: Token) {
    if t.value in {"instanceof", "in"} then t.kind.Keyword? else t.kind.Punctuator?
  }

  /** A token has the precedence of a nonterminal exactly when it is an operator of its production. */
  lemma {:induction false} PrecedenceIffOperator(t: Token, n: Nonterminal, allowIn: bool)
    requires n != Unary
    ensures BinaryPrecedence(t, allowIn) == LevelOf(n) <==> t.value in Operators(n, allowIn) && RightKind(t)
  {
    match n
    case LogicalOr => case LogicalAnd => case BitwiseOr => case BitwiseXor => case BitwiseAnd =>
    case Equality => case Relational => case Shift => case Additive => case Multiplicative =>
  }

  /** The token is an operator of some production of the grammar. */
  predicate IsOperator(t: Token, allowIn: bool) {
    RightKind(t) && exists n: Nonterminal | n != Unary :: t.value in Operators(n, allowIn)
  }

  /** Exactly the operators of the grammar have a precedence. */
  lemma {:induction false} OperatorsHavePrecedence(t: Token, allowIn: bool)
    ensures BinaryPrecedence(t, allowIn) > 0 <==> IsOperator(t, allowIn)
  {
    if IsOperator(t, allowIn) {
      var n: Nonterminal :| n != Unary && t.value in Operators(n, allowIn);
      PrecedenceIffOperator(t, n, allowIn);
    }
    if BinaryPrecedence(t, allowIn) > 0 {
      var n := NonterminalOf(BinaryPrecedence(t, allowIn));
      PrecedenceIffOperator(t, n, allowIn);
    }
  }

  /** The nonterminal with a level that some token has. */
  function NonterminalOf(level: nat): (n: Nonterminal)
    ensures level in {1, 2, 3, 4, 5, 6, 7, 8, 9, 11} ==> n != Unary && LevelOf(n) == level
  {
    match level
    case 1 => LogicalOr
    case 2 => LogicalAnd
    case 3 => BitwiseOr
    case 4 => BitwiseXor
    case 5 => BitwiseAnd
    case 6 => Equality
    case 7 => Relational
    case 8 => Shift
    case 9 => Additive
    case 11 => Multiplicative
    case _ => Unary
  }

  /** The precedence conditions are exactly derivability in the standard's grammar. */
  lemma {:induction false} DerivesIffGrouped(n: Nonterminal, e: Expr, allowIn: bool)
    ensures Derives(n, e, allowIn) <==> Grouped(e, allowIn) && LevelOf(n) <= Rank(e, allowIn)
    decreases e, Depth(n)
  {
    if n != Unary {
      DerivesIffGrouped(Tighter(n), e, allowIn);
      if e.Binary? {
        OperatorsHaveTheirLevel(n, e.op, allowIn);
        DerivesIffGrouped(n, e.left, allowIn);
        DerivesIffGrouped(Tighter(n), e.right, allowIn);
      }
    }
  }

  ghost predicate Correct(e: Expr, allowIn: bool) {
    Grouped(e, allowIn) && Marked(e)
  }

  /** A correct tree is a marked parse tree of the start symbol. */
  lemma CorrectIffDerived(e: Expr, allowIn: bool)
    ensures Correct(e, allowIn) <==> Derives(LogicalOr, e, allowIn) && Marked(e)
  {
    DerivesIffGrouped(LogicalOr, e, allowIn);
  }

  // ---------------------------------------------------------------------------
  // The tree is determined by its leaves and operators

  lemma {:induction false} OperatorsRankAbove(e: Expr, k: nat, allowIn: bool)
    requires Grouped(e, allowIn) && k < |Flatten(e)| && Flatten(e)[k].OperatorItem?
    ensures e.Binary? && Rank(e, allowIn) <= Level(Flatten(e)[k].value, allowIn)
  {
    var n := |Flatten(e.left)|;
    if k < n {
      OperatorsRankAbove(e.left, k, allowIn);
    } else if k > n {
      assert Flatten(e)[k] == Flatten(e.right)[k - n - 1];
      OperatorsRankAbove(e.right, k - n - 1, allowIn);
    }
  }

  lemma LeafIffSingle(e: Expr)
    ensures |Flatten(e)| >= 1
    ensures e.Leaf? <==> |Flatten(e)| == 1
  {}

  /** Two correct trees of one token list have their root at the same operator. */
  lemma {:induction false} RootsMeet(a: Expr, b: Expr, allowIn: bool)
    requires a.Binary? && b.Binary? && Grouped(a, allowIn) && Grouped(b, allowIn)
    requires Flatten(a) == Flatten(b)
    ensures |Flatten(a.left)| == |Flatten(b.left)| && a.op == b.op
  {
    RootsDoNotCross(a, b, allowIn);
    RootsDoNotCross(b, a, allowIn);
    var i := |Flatten(a.left)|;
    assert Flatten(a)[i] == OperatorItem(a.op) && Flatten(b)[i] == OperatorItem(b.op);
  }

  lemma {:induction false} RootsDoNotCross(a: Expr, b: Expr, allowIn: bool)
    requires a.Binary? && b.Binary? && Grouped(a, allowIn) && Grouped(b, allowIn)
    requires Flatten(a) == Flatten(b)
    ensures |Flatten(a.left)| >= |Flatten(b.left)|
  {
    var i, j := |Flatten(a.left)|, |Flatten(b.left)|;
    if i < j {
      assert Flatten(a)[i] == Flatten(b)[i] == Flatten(b.left)[i];
      OperatorsRankAbove(b.left, i, allowIn);
      assert Flatten(b)[j] == Flatten(a)[j] == Flatten(a.right)[j - i - 1];
      OperatorsRankAbove(a.right, j - i - 1, allowIn);
    }
  }

  /** At most one correct tree has a given token list. */
  lemma {:induction false} UniqueTree(a: Expr, b: Expr, allowIn: bool)
    requires Correct(a, allowIn) && Correct(b, allowIn)
    requires Flatten(a) == Flatten(b)
    ensures a == b
  {
    LeafIffSingle(a);
    LeafIffSingle(b);
    if a.Binary? {
      RootsMeet(a, b, allowIn);
      var i := |Flatten(a.left)|;
      assert Flatten(a.left) == Flatten(a)[..i] == Flatten(b)[..i] == Flatten(b.left);
      assert Flatten(a.right) == Flatten(a)[i + 1..] == Flatten(b)[i + 1..] == Flatten(b.right);
      UniqueTree(a.left, b.left, allowIn);
      UniqueTree(a.right, b.right, allowIn);
    }
  }

  // ---------------------------------------------------------------------------
  // The token list a call has to consume

  datatype Reading = Reading(items: seq<Item>, end: nat) | Stuck(at: nat)

  function PrecedenceAt(input: seq<Lexeme>, pos: nat, allowIn: bool): nat {
    if pos < |input| && input[pos].Symbol? then BinaryPrecedence(input[pos].token, allowIn) else 0
  }

  predicate OperandAt(input: seq<Lexeme>, pos: nat) {
    pos < |input| && input[pos].Operand?
  }

  /** After the items `done`: as many operator-operand pairs as follow each other from `pos`
      on, an operator without an operand after it being an error at that place. */
  function ReadOn(input: seq<Lexeme>, pos: nat, allowIn: bool, done: seq<Item>): Reading
    decreases |input| - pos
  {
    if PrecedenceAt(input, pos, allowIn) == 0 then Reading(done, pos)
    else if !OperandAt(input, pos + 1) then Stuck(pos + 1)
    else
      ReadOn(input, pos + 2, allowIn,
             done + [OperatorItem(input[pos].token.value),
                     OperandItem(input[pos + 1].start, input[pos + 1].id)])
  }

  lemma ReadOneMore(input: seq<Lexeme>, pos: nat, allowIn: bool, done: seq<Item>)
    requires PrecedenceAt(input, pos, allowIn) > 0
    ensures ReadOn(input, pos, allowIn, done) ==
      if !OperandAt(input, pos + 1) then Stuck(pos + 1)
      else ReadOn(input, pos + 2, allowIn,
                  done + [OperatorItem(input[pos].token.value),
                          OperandItem(input[pos + 1].start, input[pos + 1].id)])
  {}

  function ReadExpression(input: seq<Lexeme>, pos: nat, allowIn: bool): Reading {
    if !OperandAt(input, pos) then Stuck(pos)
    else ReadOn(input, pos + 1, allowIn, [OperandItem(input[pos].start, input[pos].id)])
  }

  function ItemOf(l: Lexeme): Item {
    match l
    case Operand(start, id) => OperandItem(start, id)
    case Symbol(_, token) => OperatorItem(token.value)
  }

  ghost predicate TokensOf(items: seq<Item>, input: seq<Lexeme>, from: nat, to: nat) {
    && from <= to <= |input| && |items| == to - from
    && forall k | 0 <= k < |items| :: items[k] == ItemOf(input[from + k])
  }

  /** The lexeme at the position is an operator of the grammar. */
  predicate OperatorAt(input: seq<Lexeme>, pos: nat, allowIn: bool) {
    pos < |input| && input[pos].Symbol? && IsOperator(input[pos].token, allowIn)
  }

  lemma OperatorsAreRead(input: seq<Lexeme>, pos: nat, allowIn: bool)
    ensures PrecedenceAt(input, pos, allowIn) > 0 <==> OperatorAt(input, pos, allowIn)
  {
    if pos < |input| && input[pos].Symbol? { OperatorsHavePrecedence(input[pos].token, allowIn); }
  }

  /** A reading is the input itself, in order, up to the first place where no operator of the
      grammar stands. */
  lemma {:induction false} ReadingIsTheInput(input: seq<Lexeme>, pos: nat, allowIn: bool)
    requires ReadExpression(input, pos, allowIn).Reading?
    ensures var r := ReadExpression(input, pos, allowIn);
      pos < r.end && !OperatorAt(input, r.end, allowIn) && TokensOf(r.items, input, pos, r.end)
  {
    ReadOnIsTheInput(input, pos, pos + 1, allowIn, [OperandItem(input[pos].start, input[pos].id)]);
    OperatorsAreRead(input, ReadExpression(input, pos, allowIn).end, allowIn);
  }

  lemma {:induction false} ReadOnIsTheInput(input: seq<Lexeme>, from: nat, pos: nat, allowIn: bool, done: seq<Item>)
    requires TokensOf(done, input, from, pos)
    requires ReadOn(input, pos, allowIn, done).Reading?
    ensures var r := ReadOn(input, pos, allowIn, done);
      pos <= r.end && PrecedenceAt(input, r.end, allowIn) == 0 && TokensOf(r.items, input, from, r.end)
    decreases |input| - pos
  {
    if PrecedenceAt(input, pos, allowIn) != 0 {
      ReadOnIsTheInput(input, from, pos + 2, allowIn,
                       done + [OperatorItem(input[pos].token.value),
                               OperandItem(input[pos + 1].start, input[pos + 1].id)]);
    }
  }

  /** Operands and operators take turns, beginning with an operand. */
  ghost predicate Alternates(input: seq<Lexeme>, from: nat, to: nat, allowIn: bool) {
    forall k | from <= k < to ::
      if (k - from) % 2 == 0 then OperandAt(input, k) else OperatorAt(input, k, allowIn)
  }

  /** Wherever a reading ends, operands and operators alternate up to there: after an operand if
      no operator follows, and after an operator, or nothing, if no operand follows. */
  lemma {:induction false} ReadingAlternates(input: seq<Lexeme>, pos: nat, allowIn: bool)
    ensures match ReadExpression(input, pos, allowIn)
      case Reading(_, end) =>
        pos < end && (end - pos) % 2 == 1 && Alternates(input, pos, end, allowIn)
        && !OperatorAt(input, end, allowIn)
      case Stuck(at) =>
        pos <= at && (at - pos) % 2 == 0 && Alternates(input, pos, at, allowIn) && !OperandAt(input, at)
  {
    if OperandAt(input, pos) {
      ReadOnAlternates(input, pos, pos + 1, allowIn, [OperandItem(input[pos].start, input[pos].id)]);
    }
  }

  lemma {:induction false} ReadOnAlternates(input: seq<Lexeme>, from: nat, pos: nat, allowIn: bool, done: seq<Item>)
    requires from < pos && (pos - from) % 2 == 1 && Alternates(input, from, pos, allowIn)
    ensures match ReadOn(input, pos, allowIn, done)
      case Reading(_, end) =>
        from < end && (end - from) % 2 == 1 && Alternates(input, from, end, allowIn)
        && !OperatorAt(input, end, allowIn)
      case Stuck(at) =>
        from <= at && (at - from) % 2 == 0 && Alternates(input, from, at, allowIn) && !OperandAt(input, at)
    decreases |input| - pos
  {
    OperatorsAreRead(input, pos, allowIn);
    if PrecedenceAt(input, pos, allowIn) != 0 && OperandAt(input, pos + 1) {
      ReadOnAlternates(input, from, pos + 2, allowIn,
                       done + [OperatorItem(input[pos].token.value),
                               OperandItem(input[pos + 1].start, input[pos + 1].id)]);
    }
  }

  // ---------------------------------------------------------------------------
  // The stack

  datatype Entry = Node(expr: Expr) | Op(value: string, prec: nat)

  /** The shape behind the two arrays: expressions and operators alternate, one marker
      belongs to each expression. */
  datatype Stack =
    | Bottom(expr: Expr, mark: nat)
    | Above(below: Stack, op: string, prec: nat, expr: Expr, mark: nat)

  function Entries(st: Stack): (r: seq<Entry>)
    ensures |r| >= 1 && r[|r| - 1] == Node(st.expr)
    ensures st.Bottom? <==> |r| <= 2
    ensures st.Above? ==> r[|r| - 2] == Op(st.op, st.prec)
  {
    match st
    case Bottom(e, _) => [Node(e)]
    case Above(below, op, prec, e, _) => Entries(below) + [Op(op, prec), Node(e)]
  }

  function Marks(st: Stack): (r: seq<nat>)
    ensures |r| >= 1 && r[|r| - 1] == st.mark
  {
    match st
    case Bottom(_, mark) => [mark]
    case Above(below, _, _, _, mark) => Marks(below) + [mark]
  }

  function Tokens(st: Stack): seq<Item> {
    match st
    case Bottom(e, _) => Flatten(e)
    case Above(below, op, _, e, _) => Tokens(below) + [OperatorItem(op)] + Flatten(e)
  }

  /** Precedences strictly increase towards the top, and each expression respects the
      operators beside it. */
  ghost predicate StackOk(st: Stack, allowIn: bool) {
    && Correct(st.expr, allowIn) && st.expr.start == st.mark
    && (st.Above? ==>
          && 0 < st.prec == Level(st.op, allowIn)
          && st.prec <= Rank(st.below.expr, allowIn)
          && st.prec < Rank(st.expr, allowIn)
          && (st.below.Above? ==> st.below.prec < st.prec)
          && StackOk(st.below, allowIn))
  }

  function WithTop(st: Stack, e: Expr): Stack {
    match st
    case Bottom(_, mark) => Bottom(e, mark)
    case Above(below, op, prec, _, mark) => Above(below, op, prec, e, mark)
  }

  /** The stack after its top operator has been applied to the two expressions around it. */
  function Reduced(st: Stack): Stack
    requires st.Above?
  {
    WithTop(st.below, Binary(st.below.mark, st.op, st.below.expr, st.expr))
  }

  lemma {:induction false} ReduceKeepsStack(st: Stack, allowIn: bool)
    requires st.Above? && StackOk(st, allowIn)
    ensures StackOk(Reduced(st), allowIn) && Tokens(Reduced(st)) == Tokens(st)
    ensures Rank(Reduced(st).expr, allowIn) == st.prec
  {
    var b := st.below;
    if b.Above? {
      assert Tokens(b.below) + [OperatorItem(b.op)] + (Flatten(b.expr) + [OperatorItem(st.op)] + Flatten(st.expr))
          == Tokens(b.below) + [OperatorItem(b.op)] + Flatten(b.expr) + [OperatorItem(st.op)] + Flatten(st.expr);
    }
  }

  /** How a reduction shows in the two arrays: three pops and one push, one marker less. */
  lemma {:induction false} ReduceEntries(st: Stack)
    requires st.Above?
    ensures var e := Entries(st); var n := |e|;
      && n >= 3 && e[n - 3] == Node(st.below.expr)
      && Entries(Reduced(st)) == e[..n - 3] + [Node(Reduced(st).expr)]
    ensures var m := Marks(st);
      |m| >= 2 && m[|m| - 2] == st.below.mark && Marks(Reduced(st)) == m[..|m| - 1]
  {
    assert Entries(st) == Entries(st.below) + [Op(st.op, st.prec), Node(st.expr)];
    assert Marks(st)[..|Marks(st)| - 1] == Marks(st.below);
  }

  /** The stack after an operator and the operand behind it have been pushed. */
  ghost function Pushed(st: Stack, op: string, prec: nat, operand: Expr, allowIn: bool): (r: Stack)
    requires StackOk(st, allowIn) && operand.Leaf?
    requires 0 < prec == Level(op, allowIn) < OPERAND_LEVEL && prec <= Rank(st.expr, allowIn)
    requires st.Above? ==> st.prec < prec
    ensures StackOk(r, allowIn) && r.expr == operand
    ensures Entries(r) == Entries(st) + [Op(op, prec), Node(operand)]
    ensures Marks(r) == Marks(st) + [operand.start]
    ensures Tokens(r) == Tokens(st) + [OperatorItem(op), OperandItem(operand.start, operand.id)]
  {
    var r := Above(st, op, prec, operand, operand.start);
    assert Tokens(r) == Tokens(st) + [OperatorItem(op)] + [OperandItem(operand.start, operand.id)];
    r
  }

  /** Applies the operators on top of the stack that bind at least as tightly as `prec`. */
  method ReduceWhile(st: seq<Entry>, marks: seq<nat>, prec: nat, allowIn: bool, ghost shape: Stack)
    returns (stack: seq<Entry>, markers: seq<nat>, ghost reduced: Stack)
    requires st == Entries(shape) && marks == Marks(shape) && StackOk(shape, allowIn)
    requires prec <= Rank(shape.expr, allowIn)
    ensures stack == Entries(reduced) && markers == Marks(reduced) && StackOk(reduced, allowIn)
    ensures Tokens(reduced) == Tokens(shape)
    ensures prec <= Rank(reduced.expr, allowIn)
    ensures reduced.Above? ==> reduced.prec < prec
  {
    stack, markers, reduced := st, marks, shape;
    while |stack| > 2 && prec <= stack[|stack| - 2].prec
      invariant stack == Entries(reduced) && markers == Marks(reduced) && StackOk(reduced, allowIn)
      invariant Tokens(reduced) == Tokens(shape)
      invariant prec <= Rank(reduced.expr, allowIn)
      decreases |stack|
    {
      var n := |stack|;
      ReduceKeepsStack(reduced, allowIn);
      ReduceEntries(reduced);
      var right := stack[n - 1].expr;
      var operator := stack[n - 2].value;
      var left := stack[n - 3].expr;
      markers := markers[..|markers| - 1];
      var start := markers[|markers| - 1];
      stack := stack[..n - 3] + [Node(Binary(start, operator, left, right))];
      reduced := Reduced(reduced);
    }
  }

  /** What is left to fold: the array up to `h` with the tree built so far on top. */
  ghost predicate Folding(stack: seq<Entry>, h: nat, tree: Expr, markers: seq<nat>, rest: Stack)
    requires h <= |stack|
  {
    stack[..h] + [Node(tree)] == Entries(rest) && markers + [tree.start] == Marks(rest)
  }

  lemma FoldStep(stack: seq<Entry>, h: nat, tree: Expr, markers: seq<nat>, rest: Stack)
    requires 1 < h < |stack| && Folding(stack, h, tree, markers, rest)
    ensures rest.Above? && stack[h - 1] == Op(rest.op, rest.prec) && stack[h - 2].Node? && |markers| >= 1
    ensures var t := Binary(markers[|markers| - 1], rest.op, stack[h - 2].expr, tree);
      Folding(stack, h - 2, t, markers[..|markers| - 1], Reduced(rest))
  {
    ReduceEntries(rest);
    var e, m := Entries(rest), Marks(rest);
    assert e[h] == Node(tree) && e[h - 1] == stack[h - 1] && e[h - 2] == stack[h - 2];
    assert e[..h - 2] == stack[..h - 2];
    assert m[|markers| - 1] == markers[|markers| - 1] && m[..|m| - 1] == markers;
  }

  /** Applies all operators of the stack, from the top down. */
  method Fold(stack: seq<Entry>, marks: seq<nat>, allowIn: bool, ghost shape: Stack) returns (tree: Expr)
    requires stack == Entries(shape) && marks == Marks(shape) && StackOk(shape, allowIn)
    ensures Correct(tree, allowIn) && Flatten(tree) == Tokens(shape)
  {
    var h := |stack| - 1;
    tree := stack[h].expr;
    var markers := marks[..|marks| - 1];
    ghost var rest := shape;
    while h > 1
      invariant 0 <= h < |stack|
      invariant Folding(stack, h, tree, markers, rest)
      invariant StackOk(rest, allowIn) && Tokens(rest) == Tokens(shape)
    {
      ReduceKeepsStack(rest, allowIn);
      FoldStep(stack, h, tree, markers, rest);
      var start := markers[|markers| - 1];
      markers := markers[..|markers| - 1];
      tree := Binary(start, stack[h - 1].value, stack[h - 2].expr, tree);
      h := h - 2;
      rest := Reduced(rest);
    }
    assert Entries(rest)[|Entries(rest)| - 1] == Node(tree);
  }

  // ---------------------------------------------------------------------------
  // The parser

  class Parser {
    const input: seq<Lexeme>
    /** Where the end-of-input token starts. */
    const eof: nat
    var allowIn: bool
    var pos: nat

    constructor (input: seq<Lexeme>, eof: nat, allowIn: bool)
      ensures this.input == input && this.eof == eof && this.allowIn == allowIn && pos == 0
    {
      this.input, this.eof, this.allowIn, this.pos := input, eof, allowIn, 0;
    }

    function LookaheadStart(): nat
      reads this
    {
      if pos < |input| then input[pos].start else eof
    }

    method NextToken() returns (value: string)
      requires PrecedenceAt(input, pos, allowIn) > 0
      modifies this`pos
      ensures pos == old(pos) + 1 && value == input[old(pos)].token.value
    {
      value := input[pos].token.value;
      pos := pos + 1;
    }

    method ParseExponentiationExpression() returns (r: Result<Expr>)
      modifies this`pos
      ensures OperandAt(input, old(pos)) ==>
        r == Success(Leaf(input[old(pos)].start, input[old(pos)].id)) && pos == old(pos) + 1
      ensures !OperandAt(input, old(pos)) ==> r == UnexpectedToken(old(pos)) && pos == old(pos)
    {
      if pos < |input| && input[pos].Operand? {
        r := Success(Leaf(input[pos].start, input[pos].id));
        pos := pos + 1;
      } else {
        r := UnexpectedToken(pos);
      }
    }

    /** Pushes the operator at the current position and the operand behind it. */
    method Shift(st: seq<Entry>, marks: seq<nat>, prec: nat, ghost shape: Stack)
      returns (stack: seq<Entry>, markers: seq<nat>, failure: Option<nat>, ghost pushed: Stack)
      requires st == Entries(shape) && marks == Marks(shape) && StackOk(shape, allowIn)
      requires prec == PrecedenceAt(input, pos, allowIn) > 0
      requires prec <= Rank(shape.expr, allowIn)
      requires shape.Above? ==> shape.prec < prec
      modifies this`pos
      ensures failure.Some? ==>
        pos == failure.value && ReadOn(input, old(pos), allowIn, Tokens(shape)) == Stuck(pos)
      ensures failure.None? ==>
        && pos == old(pos) + 2 <= |input|
        && stack == Entries(pushed) && markers == Marks(pushed) && StackOk(pushed, allowIn)
        && pushed.Above? && pushed.expr.Leaf?
        && ReadOn(input, old(pos), allowIn, Tokens(shape)) == ReadOn(input, pos, allowIn, Tokens(pushed))
    {
      ghost var at, done := pos, Tokens(shape);
      TokenLevel(input[pos].token, allowIn);
      ReadOneMore(input, at, allowIn, done);
      var op := NextToken();
      markers := marks + [LookaheadStart()];
      stack := st + [Op(op, prec)];
      pushed := shape;
      var r := ParseExponentiationExpression();
      if r.UnexpectedToken? { return stack, markers, Some(r.at), pushed; }
      stack := stack + [Node(r.value)];
      pushed := Pushed(shape, op, prec, r.value, allowIn);
      assert ReadOn(input, at, allowIn, done) == ReadOn(input, pos, allowIn, Tokens(pushed));
      failure := None;
    }

    /** Returns the only correct tree of the tokens it consumes, which are the longest
        operand-operator chain at the current position, or fails where the chain breaks. */
    method ParseBinaryExpression() returns (r: Result<Expr>)
      modifies this`pos
      ensures match ReadExpression(input, old(pos), allowIn)
        case Stuck(at) => r == UnexpectedToken(at) && pos == at
        case Reading(items, end) =>
          && r.Success? && pos == end
          && Correct(r.value, allowIn)
          && Flatten(r.value) == items
    {
      ghost var reading := ReadExpression(input, pos, allowIn);
      var first := LookaheadStart();
      r := ParseExponentiationExpression();
      if r.UnexpectedToken? { return; }
      var prec := PrecedenceAt(input, pos, allowIn);
      if prec > 0 {
        ghost var shape := Bottom(r.value, first);
        var stack, markers, failure;
        stack, markers, failure, shape := Shift([Node(r.value)], [first], prec, shape);
        if failure.Some? { return UnexpectedToken(failure.value); }

        while true
          invariant stack == Entries(shape) && markers == Marks(shape) && StackOk(shape, allowIn)
          invariant shape.expr.Leaf?
          invariant ReadOn(input, pos, allowIn, Tokens(shape)) == reading
          decreases |input| - pos
        {
          prec := PrecedenceAt(input, pos, allowIn);
          if prec == 0 { break; }
          TokenLevel(input[pos].token, allowIn);
          stack, markers, shape := ReduceWhile(stack, markers, prec, allowIn, shape);
          stack, markers, failure, shape := Shift(stack, markers, prec, shape);
          if failure.Some? { return UnexpectedToken(failure.value); }
        }

        var tree := Fold(stack, markers, allowIn, shape);
        r := Success(tree);
      }
    }
  }
}
