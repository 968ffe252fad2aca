// Running an expression's code pushes what the expression evaluates to.
module CompilerCorrect {
  import opened Base
  import opened Words
  import opened Expressions
  import opened Bytecode

  ghost predicate Has<T>(code: seq<T>, at: nat, block: seq<T>) {
    at + |block| <= |code| && code[at..at + |block|] == block
  }

  lemma HasParts<T>(code: seq<T>, at: nat, a: seq<T>, b: seq<T>)
    requires Has(code, at, a + b)
    ensures Has(code, at, a) && Has(code, at + |a|, b)
  {
    assert code[at..at + |a|] == (a + b)[..|a|];
    assert code[at + |a|..at + |a| + |b|] == (a + b)[|a|..];
  }

  lemma HasByte<T>(code: seq<T>, at: nat, x: T)
    requires Has(code, at, [x])
    ensures at < |code| && code[at] == x
  {
    assert code[at..at + 1][0] == x;
  }

  /** Every column is one of the table's n. */
  predicate Resolved(e: Expr, n: nat)
    decreases e
  {
    match e
    case Column(i) => i < n
    case Or(l, r) => Resolved(l, n) && Resolved(r, n)
    case And(l, r) => Resolved(l, n) && Resolved(r, n)
    case Compare(_, l, r) => Resolved(l, n) && Resolved(r, n)
    case Arith(_, l, r) => Resolved(l, n) && Resolved(r, n)
    case Not(x) => Resolved(x, n)
    case Negate(x) => Resolved(x, n)
    case IsNull(x, _) => Resolved(x, n)
    case Between(x, a, b) => Resolved(x, n) && Resolved(a, n) && Resolved(b, n)
    case In(x, list, _) => Resolved(x, n) && ResolvedList(list, n)
    case _ => true
  }

  predicate ResolvedList(list: Exprs, n: nat)
    decreases list
  {
    Resolved(list.head, n) && (list.More? ==> ResolvedList(list.rest, n))
  }

  ghost predicate InPool(p: Program, consts: seq<Value>, k: nat) {
    Has(p.constants, k, consts) && k + |consts| <= 256 && |p.row| <= 256
  }

  lemma PoolParts(p: Program, a: seq<Value>, b: seq<Value>, k: nat)
    requires InPool(p, a + b, k)
    ensures InPool(p, a, k) && InPool(p, b, k + |a|)
  {
    HasParts(p.constants, k, a, b);
  }

  /** e's code is at at, within reach of a 16-bit jump, and its constants, of which there are fewer than 256, are from number k on. */
  ghost predicate Emitted(p: Program, e: Expr, k: nat, at: nat) {
    Has(p.code, at, Gen(e, k)) && |Gen(e, k)| < 0x8000 && InPool(p, Consts(e), k) && Resolved(e, |p.row|)
  }

  function Start(at: nat, s: seq<Value>): State { Running(Machine(at, s)) }

  lemma OneByte(p: Program, at: nat, s: seq<Value>, op: Byte)
    requires Has(p.code, at, [op])
    ensures at < |p.code| && p.code[at] == op && Leads(p, Start(at, s), Step(p, Machine(at, s)))
  {
    HasByte(p.code, at, op);
    LeadsStep(p, Machine(at, s));
  }

  /** An unconditional jump, or a conditional one with v on the stack. */
  lemma JumpRuns(p: Program, at: nat, op: Byte, n: nat, s: seq<Value>, v: Value)
    requires Has(p.code, at, [op] + Offset(n)) && n < 0x8000
    ensures op == OP_JUMP ==> Leads(p, Start(at, s), Start(at + 3 + n, s))
    ensures op == OP_JUMP_TRUE || op == OP_JUMP_FALSE ==>
              Leads(p, Start(at, s + [v]), Start(if Taken(op, v) then at + 3 + n else at + 3, s))
  {
    var block := [op] + Offset(n);
    assert p.code[at..at + 3][0] == op && p.code[at..at + 3][1] == Offset(n)[0] && p.code[at..at + 3][2] == Offset(n)[1];
    OffsetBack(n);
    LeadsStep(p, Machine(at, s));
    LeadsStep(p, Machine(at, s + [v]));
    hide Offset;
    assert (s + [v])[..|s|] == s;
  }

  /** What one of a pair of operands in a row evaluates to, and then the operator. */
  function Both(op: Byte, l: Expr, r: Expr, row: seq<Value>): Outcome
    requires forall a, b :: Binary(op, a, b).Some?
  {
    var a := Eval(l, row);
    if !a.Value? then a else var b := Eval(r, row); if !b.Value? then b else Binary(op, a.v, b.v).value
  }

  predicate TakesTwo(op: Byte) { OP_ADD <= op <= OP_DIVIDE || OP_EQUAL <= op <= OP_LIKE }

  lemma TwoOperands(op: Byte)
    ensures TakesTwo(op) ==> forall a, b {:trigger Binary(op, a, b)} :: Binary(op, a, b).Some?
    ensures TakesTwo(op) ==> forall a {:trigger Unary(op, a)} :: Unary(op, a) == None
  {
  }

  lemma OperatorRuns(p: Program, at: nat, op: Byte, s: seq<Value>, a: Value, b: Value)
    requires TakesTwo(op) && Has(p.code, at, [op])
    ensures Binary(op, a, b).Some? && Leads(p, Start(at, s + [a] + [b]), Push(Machine(at + 1, s), Binary(op, a, b).value))
  {
    TwoOperands(op);
    OneByte(p, at, s + [a] + [b], op);
    assert (s + [a] + [b])[..|s|] == s;
    hide Binary, Unary;
  }

  lemma BinaryRuns(p: Program, l: Expr, r: Expr, k: nat, at: nat, op: Byte, s: seq<Value>)
    requires TakesTwo(op) && (forall a, b {:trigger Binary(op, a, b)} :: Binary(op, a, b).Some?)
    requires Emitted(p, l, k, at) && Emitted(p, r, k + |Consts(l)|, at + |Gen(l, k)|)
    requires Has(p.code, at + |Gen(l, k)| + |Gen(r, k + |Consts(l)|)|, [op])
    ensures Leads(p, Start(at, s), Push(Machine(at + |Gen(l, k)| + |Gen(r, k + |Consts(l)|)| + 1, s), Both(op, l, r, p.row)))
    decreases Size(l) + Size(r), 1
  {
    hide Leads, Has, Gen, GenIn, GenPair, Consts, ConstsIn, Binary, Unary, Offset, ShortCircuit, InPool, Emitted, EmittedIn, Resolved, ResolvedList, ListOutcome, Circuit, Size, SizeList, Eval, EvalIn, Step, Exec, Calculated, Compared, LessThan;
    SizeAtLeast(l); SizeAtLeast(r);
    var mid := at + |Gen(l, k)|;
    var end := mid + |Gen(r, k + |Consts(l)|)|;
    Runs(p, l, k, at, s);
    var a := Eval(l, p.row);
    if a.Value? {
      Runs(p, r, k + |Consts(l)|, mid, s + [a.v]);
      LeadsOn(p, Start(at, s), Start(mid, s + [a.v]), Push(Machine(end, s + [a.v]), Eval(r, p.row)));
      var b := Eval(r, p.row);
      if b.Value? {
        OperatorRuns(p, end, op, s, a.v, b.v);
        LeadsOn(p, Start(at, s), Start(end, s + [a.v] + [b.v]), Push(Machine(end + 1, s), Binary(op, a.v, b.v).value));
      }
    }
  }

  lemma SizeAtLeast(e: Expr)
    ensures Size(e) >= 1
  {
  }

  /** What a short circuit comes to. */
  function Circuit(jump: Byte, a: Outcome, b: Outcome, answer: bool): Outcome {
    if !a.Value? then a else if Taken(jump, a.v) then Value(Bool(answer)) else b
  }

  lemma AnswerRuns(p: Program, at: nat, op: Byte, s: seq<Value>, answer: bool)
    requires Has(p.code, at, [op]) && op == if answer then OP_TRUE else OP_FALSE
    ensures Leads(p, Start(at, s), Start(at + 1, s + [Bool(answer)]))
  {
    OneByte(p, at, s, op);
  }

  lemma CircuitParts(p: Program, at: nat, jump: Byte, left: Bytes, right: Bytes, answer: Byte)
    requires Has(p.code, at, ShortCircuit(jump, left, right, answer))
    ensures Has(p.code, at, left) && Has(p.code, at + |left|, [jump] + Offset(|right| + 3))
    ensures Has(p.code, at + |left| + 3, right) && Has(p.code, at + |left| + 3 + |right|, [OP_JUMP] + Offset(1))
    ensures Has(p.code, at + |left| + |right| + 6, [answer])
  {
    hide Has, Offset;
    var j := [jump] + Offset(|right| + 3);
    var k := [OP_JUMP] + Offset(1);
    assert ShortCircuit(jump, left, right, answer) == left + (j + (right + (k + [answer])));
    HasParts(p.code, at, left, j + (right + (k + [answer])));
    HasParts(p.code, at + |left|, j, right + (k + [answer]));
    HasParts(p.code, at + |left| + 3, right, k + [answer]);
    HasParts(p.code, at + |left| + 3 + |right|, k, [answer]);
  }

  lemma CircuitRuns(p: Program, at: nat, jump: Byte, left: Bytes, right: Bytes, answer: bool, s: seq<Value>, a: Outcome, b: Outcome)
    requires Has(p.code, at, ShortCircuit(jump, left, right, if answer then OP_TRUE else OP_FALSE))
    requires |right| + 3 < 0x8000 && (jump == OP_JUMP_TRUE || jump == OP_JUMP_FALSE)
    requires Leads(p, Start(at, s), Push(Machine(at + |left|, s), a))
    requires Leads(p, Start(at + |left| + 3, s), Push(Machine(at + |left| + 3 + |right|, s), b))
    ensures Leads(p, Start(at, s), Push(Machine(at + |left| + |right| + 7, s), Circuit(jump, a, b, answer)))
  {
    hide Leads, Has, Gen, GenIn, GenPair, Consts, ConstsIn, Binary, Unary, Both, Offset, ShortCircuit, InPool, Emitted, EmittedIn, Resolved, ResolvedList, ListOutcome, Size, SizeList, Eval, EvalIn, Step, Exec, Calculated, Compared, LessThan;
    var op: Byte := if answer then OP_TRUE else OP_FALSE;
    CircuitParts(p, at, jump, left, right, op);
    var test, other, last, end := at + |left|, at + |left| + 3, at + |left| + |right| + 6, at + |left| + |right| + 7;
    if a.Value? {
      JumpRuns(p, test, jump, |right| + 3, s, a.v);
      if Taken(jump, a.v) {
        LeadsOn(p, Start(at, s), Start(test, s + [a.v]), Start(last, s));
        AnswerRuns(p, last, op, s, answer);
        LeadsOn(p, Start(at, s), Start(last, s), Start(end, s + [Bool(answer)]));
      } else {
        LeadsOn(p, Start(at, s), Start(test, s + [a.v]), Start(other, s));
        LeadsOn(p, Start(at, s), Start(other, s), Push(Machine(other + |right|, s), b));
        if b.Value? {
          JumpRuns(p, other + |right|, OP_JUMP, 1, s + [b.v], b.v);
          LeadsOn(p, Start(at, s), Start(other + |right|, s + [b.v]), Start(end, s + [b.v]));
        }
      }
    }
  }

  predicate TakesOne(op: Byte) { op == OP_NOT || op == OP_NEGATE || op == OP_IS_NULL || op == OP_NOT_NULL }

  lemma OperatorOneRuns(p: Program, at: nat, op: Byte, s: seq<Value>, a: Value)
    requires TakesOne(op) && Has(p.code, at, [op])
    ensures Unary(op, a).Some? && Leads(p, Start(at, s + [a]), Push(Machine(at + 1, s), Unary(op, a).value))
  {
    OneByte(p, at, s + [a], op);
    assert (s + [a])[..|s|] == s;
    hide Leads, Has;
  }

  lemma UnaryRuns(p: Program, x: Expr, k: nat, at: nat, op: Byte, s: seq<Value>)
    requires Emitted(p, x, k, at) && Has(p.code, at + |Gen(x, k)|, [op]) && TakesOne(op)
    ensures var a := Eval(x, p.row);
            && (a.Value? ==> Unary(op, a.v).Some?)
            && Leads(p, Start(at, s), if a.Value? then Push(Machine(at + |Gen(x, k)| + 1, s), Unary(op, a.v).value) else Push(Machine(0, s), a))
    decreases Size(x), 1
  {
    hide Leads, Has, Gen, GenIn, GenPair, Consts, ConstsIn, Binary, Unary, Both, Offset, ShortCircuit, InPool, Emitted, EmittedIn, Resolved, ResolvedList, ListOutcome, Circuit, Size, SizeList, Eval, EvalIn, Step, Exec, Calculated, Compared, LessThan;
    Runs(p, x, k, at, s);
    var a, end := Eval(x, p.row), at + |Gen(x, k)|;
    if a.Value? {
      OperatorOneRuns(p, end, op, s, a.v);
      LeadsOn(p, Start(at, s), Start(end, s + [a.v]), Push(Machine(end + 1, s), Unary(op, a.v).value));
    }
  }

  /** Compiler correctness: for every expression, whatever is on the stack and wherever its code is, running the code pushes
      exactly what the expression evaluates to and stops at its end, or fails exactly when evaluation does. */
  lemma {:induction false} Runs(p: Program, e: Expr, k: nat, at: nat, s: seq<Value>)
    requires Emitted(p, e, k, at)
    ensures Leads(p, Start(at, s), Push(Machine(at + |Gen(e, k)|, s), Eval(e, p.row)))
    decreases Size(e), 0
  {
    hide Leads, Has, Gen, GenIn, GenPair, Consts, ConstsIn, Binary, Unary, Both, Alone, Offset, ShortCircuit, InPool, Emitted, EmittedIn, Resolved, ResolvedList,
         ListOutcome, Circuit, Size, SizeList, Eval, EvalIn, Step, Exec, Calculated, Compared, LessThan;
    EmittedParts(p, e, k, at);
    Means(e, p.row);
    Shape(e, k, |p.row|);
    match e {
      case Literal(v) => LiteralRuns(p, v, k, at, s);
      case NullLiteral => NullRuns(p, at, s);
      case Column(i) => ColumnRuns(p, i, at, s);
      case Or(l, r) => CircuitOf(p, e, l, r, k, at, OP_JUMP_TRUE, true, s);
      case And(l, r) => CircuitOf(p, e, l, r, k, at, OP_JUMP_FALSE, false, s);
      case Not(x) => UnaryOf(p, e, x, k, at, OP_NOT, s);
      case Negate(x) => UnaryOf(p, e, x, k, at, OP_NEGATE, s);
      case IsNull(x, negated) => UnaryOf(p, e, x, k, at, if negated then OP_NOT_NULL else OP_IS_NULL, s);
      case Compare(cmp, l, r) => PairRuns(p, e, l, r, k, at, ComparisonOp(cmp), s);
      case Arith(op, l, r) => PairRuns(p, e, l, r, k, at, ArithmeticOp(op), s);
      case Between(x, a, b) => BetweenRuns(p, x, a, b, k, at, s);
      case In(x, list, negated) => InRuns(p, x, list, negated, k, at, s);
    }
  }

  /** What an expression's code and constants are made of, and that its operands are smaller. */
  lemma Shape(e: Expr, k: nat, n: nat)
    ensures match e
            case Literal(v) => Gen(e, k) == [OP_CONSTANT, k % 256] && Consts(e) == [v]
            case NullLiteral => Gen(e, k) == [OP_NULL]
            case Column(i) => Gen(e, k) == [OP_COLUMN, i % 256] && (Resolved(e, n) <==> i < n)
            case Or(l, r) => Gen(e, k) == ShortCircuit(OP_JUMP_TRUE, Gen(l, k), Gen(r, k + |Consts(l)|), OP_TRUE) && Pair(e, l, r, n)
            case And(l, r) => Gen(e, k) == ShortCircuit(OP_JUMP_FALSE, Gen(l, k), Gen(r, k + |Consts(l)|), OP_FALSE) && Pair(e, l, r, n)
            case Compare(cmp, l, r) => Gen(e, k) == GenPair(l, r, k, ComparisonOp(cmp)) && Pair(e, l, r, n)
            case Arith(op, l, r) => Gen(e, k) == GenPair(l, r, k, ArithmeticOp(op)) && Pair(e, l, r, n)
            case Not(x) => Gen(e, k) == Gen(x, k) + [OP_NOT] && Single(e, x, n)
            case Negate(x) => Gen(e, k) == Gen(x, k) + [OP_NEGATE] && Single(e, x, n)
            case IsNull(x, negated) => Gen(e, k) == Gen(x, k) + [if negated then OP_NOT_NULL else OP_IS_NULL] && Single(e, x, n)
            case Between(x, a, b) => Size(x) + Size(a) + Size(b) < Size(e)
            case In(x, list, _) => Size(x) + SizeList(list) < Size(e)
  {
    hide ShortCircuit, Eval;
  }

  predicate Pair(e: Expr, l: Expr, r: Expr, n: nat) {
    Consts(e) == Consts(l) + Consts(r) && (Resolved(e, n) ==> Resolved(l, n) && Resolved(r, n)) && Size(l) + Size(r) < Size(e)
  }

  predicate Single(e: Expr, x: Expr, n: nat) { Consts(e) == Consts(x) && (Resolved(e, n) ==> Resolved(x, n)) && Size(x) < Size(e) }

  /** What a unary operator comes to. */
  function Alone(op: Byte, a: Outcome): Outcome
    requires TakesOne(op)
  {
    if a.Value? then Unary(op, a.v).value else a
  }

  /** What an expression evaluates to, in terms of the instructions of its code. */
  lemma Means(e: Expr, row: seq<Value>)
    ensures match e
            case Or(l, r) => Eval(e, row) == Circuit(OP_JUMP_TRUE, Eval(l, row), Eval(r, row), true)
            case And(l, r) => Eval(e, row) == Circuit(OP_JUMP_FALSE, Eval(l, row), Eval(r, row), false)
            case Not(x) => Eval(e, row) == Alone(OP_NOT, Eval(x, row))
            case Negate(x) => Eval(e, row) == Alone(OP_NEGATE, Eval(x, row))
            case IsNull(x, negated) => Eval(e, row) == Alone(if negated then OP_NOT_NULL else OP_IS_NULL, Eval(x, row))
            case Compare(cmp, l, r) => TakesTwo(ComparisonOp(cmp)) && (TwoOperands(ComparisonOp(cmp)); Eval(e, row) == Both(ComparisonOp(cmp), l, r, row))
            case Arith(op, l, r) => TakesTwo(ArithmeticOp(op)) && (TwoOperands(ArithmeticOp(op)); Eval(e, row) == Both(ArithmeticOp(op), l, r, row))
            case Literal(v) => Eval(e, row) == Value(v)
            case NullLiteral => Eval(e, row) == Value(Null)
            case Column(i) => i < |row| ==> Eval(e, row) == Value(row[i])
            case _ => true
  {
  }

  lemma LiteralRuns(p: Program, v: Value, k: nat, at: nat, s: seq<Value>)
    requires Has(p.code, at, [OP_CONSTANT, k % 256]) && InPool(p, [v], k)
    ensures Leads(p, Start(at, s), Start(at + 2, s + [v]))
  {
    HasByte(p.constants, k, v);
    HasParts(p.code, at, [OP_CONSTANT], [k]);
    HasByte(p.code, at + 1, k);
    OneByte(p, at, s, OP_CONSTANT);
  }

  lemma ColumnRuns(p: Program, i: nat, at: nat, s: seq<Value>)
    requires Has(p.code, at, [OP_COLUMN, i % 256]) && i < |p.row| <= 256
    ensures Leads(p, Start(at, s), Start(at + 2, s + [p.row[i]]))
  {
    HasParts(p.code, at, [OP_COLUMN], [i]);
    HasByte(p.code, at + 1, i);
    OneByte(p, at, s, OP_COLUMN);
  }

  lemma UnaryOf(p: Program, e: Expr, x: Expr, k: nat, at: nat, op: Byte, s: seq<Value>)
    requires Emitted(p, e, k, at) && Gen(e, k) == Gen(x, k) + [op] && Consts(e) == Consts(x) && Resolved(x, |p.row|) && TakesOne(op)
    ensures Leads(p, Start(at, s), Push(Machine(at + |Gen(e, k)|, s), Alone(op, Eval(x, p.row))))
    decreases Size(x), 2
  {
    hide Leads, Has, Gen, GenIn, GenPair, Consts, ConstsIn, Binary, Unary, Both, Offset, ShortCircuit, InPool, Emitted, EmittedIn, Resolved, ResolvedList, ListOutcome, Circuit, Size, SizeList, Eval, EvalIn, Step, Exec, Calculated, Compared, LessThan;
    EmittedParts(p, e, k, at);
    HasParts(p.code, at, Gen(x, k), [op]);
    IsEmitted(p, x, k, at);
    UnaryRuns(p, x, k, at, op, s);
  }

  lemma NullRuns(p: Program, at: nat, s: seq<Value>)
    requires Has(p.code, at, [OP_NULL])
    ensures Leads(p, Start(at, s), Start(at + 1, s + [Null]))
  {
    OneByte(p, at, s, OP_NULL);
  }

  lemma PairRuns(p: Program, e: Expr, l: Expr, r: Expr, k: nat, at: nat, op: Byte, s: seq<Value>)
    requires Emitted(p, e, k, at) && TakesTwo(op)
    requires Gen(e, k) == GenPair(l, r, k, op) && Consts(e) == Consts(l) + Consts(r)
    requires Resolved(l, |p.row|) && Resolved(r, |p.row|)
    ensures (forall a, b {:trigger Binary(op, a, b)} :: Binary(op, a, b).Some?)
            && Leads(p, Start(at, s), Push(Machine(at + |Gen(e, k)|, s), Both(op, l, r, p.row)))
    decreases Size(l) + Size(r), 3
  {
    hide Leads, Has, Gen, GenIn, GenPair, Consts, ConstsIn, Binary, Unary, Both, Offset, ShortCircuit, InPool, Emitted, EmittedIn, Resolved, ResolvedList, ListOutcome, Circuit, Size, SizeList, Eval, EvalIn, Step, Exec, Calculated, Compared, LessThan;
    EmittedParts(p, e, k, at);
    PoolParts(p, Consts(l), Consts(r), k);
    OperandsRun(p, l, r, k, at, op, s);
  }

  /** The operands of a short circuit. */
  lemma CircuitOperands(p: Program, l: Expr, r: Expr, k: nat, at: nat, jump: Byte, answer: Byte)
    requires Has(p.code, at, ShortCircuit(jump, Gen(l, k), Gen(r, k + |Consts(l)|), answer))
    requires |ShortCircuit(jump, Gen(l, k), Gen(r, k + |Consts(l)|), answer)| < 0x8000
    requires InPool(p, Consts(l) + Consts(r), k) && Resolved(l, |p.row|) && Resolved(r, |p.row|)
    ensures Emitted(p, l, k, at) && Emitted(p, r, k + |Consts(l)|, at + |Gen(l, k)| + 3)
  {
    hide Leads, Has, Gen, GenIn, GenPair, Consts, ConstsIn, Binary, Unary, Both, Offset, ShortCircuit, InPool, Emitted, EmittedIn, Resolved, ResolvedList, ListOutcome, Circuit, Size, SizeList, Eval, EvalIn, Step, Exec, Calculated, Compared, LessThan;
    CircuitParts(p, at, jump, Gen(l, k), Gen(r, k + |Consts(l)|), answer);
    PoolParts(p, Consts(l), Consts(r), k);
    IsEmitted(p, l, k, at);
    IsEmitted(p, r, k + |Consts(l)|, at + |Gen(l, k)| + 3);
  }

  lemma CircuitOf(p: Program, e: Expr, l: Expr, r: Expr, k: nat, at: nat, jump: Byte, answer: bool, s: seq<Value>)
    requires Emitted(p, e, k, at) && (jump == OP_JUMP_TRUE || jump == OP_JUMP_FALSE)
    requires Gen(e, k) == ShortCircuit(jump, Gen(l, k), Gen(r, k + |Consts(l)|), if answer then OP_TRUE else OP_FALSE)
    requires Consts(e) == Consts(l) + Consts(r) && Resolved(l, |p.row|) && Resolved(r, |p.row|)
    ensures Leads(p, Start(at, s), Push(Machine(at + |Gen(e, k)|, s), Circuit(jump, Eval(l, p.row), Eval(r, p.row), answer)))
    decreases Size(l) + Size(r), 2
  {
    hide Leads, Has, Gen, GenIn, GenPair, Consts, ConstsIn, Binary, Unary, Both, Offset, ShortCircuit, InPool, Emitted, EmittedIn, Resolved, ResolvedList, ListOutcome, Circuit, Size, SizeList, Eval, EvalIn, Step, Exec, Calculated, Compared, LessThan;
    SizeAtLeast(l); SizeAtLeast(r);
    EmittedParts(p, e, k, at);
    CircuitOperands(p, l, r, k, at, jump, if answer then OP_TRUE else OP_FALSE);
    Runs(p, l, k, at, s);
    Runs(p, r, k + |Consts(l)|, at + |Gen(l, k)| + 3, s);
    CircuitRuns(p, at, jump, Gen(l, k), Gen(r, k + |Consts(l)|), answer, s, Eval(l, p.row), Eval(r, p.row));
  }

  lemma BetweenShape(x: Expr, a: Expr, b: Expr, k: nat)
    ensures Consts(Between(x, a, b)) == Consts(x) + Consts(a) + Consts(x) + Consts(b)
    ensures forall n {:trigger Resolved(Between(x, a, b), n)} :: Resolved(Between(x, a, b), n) <==> Resolved(x, n) && Resolved(a, n) && Resolved(b, n)
  {
    hide Gen;
  }

  lemma BetweenCode(x: Expr, a: Expr, b: Expr, k: nat)
    ensures var kx := k + |Consts(x)| + |Consts(a)|;
            Gen(Between(x, a, b), k) == ShortCircuit(OP_JUMP_FALSE, GenPair(x, a, k, OP_GREATER_EQUAL), GenPair(x, b, kx, OP_LESS_EQUAL), OP_FALSE)
  {
    hide ShortCircuit, Consts, Resolved, GenIn, GenPair, Offset, Size;
  }

  /** The two comparisons of a BETWEEN. */
  lemma BetweenParts(p: Program, x: Expr, a: Expr, b: Expr, k: nat, at: nat) returns (left: Bytes, right: Bytes, kx: nat)
    requires Emitted(p, Between(x, a, b), k, at)
    ensures left == GenPair(x, a, k, OP_GREATER_EQUAL) && right == GenPair(x, b, kx, OP_LESS_EQUAL)
    ensures Gen(Between(x, a, b), k) == ShortCircuit(OP_JUMP_FALSE, left, right, OP_FALSE) && |left| + |right| + 7 < 0x8000
    ensures Has(p.code, at, ShortCircuit(OP_JUMP_FALSE, left, right, OP_FALSE))
    ensures Has(p.code, at, left) && Has(p.code, at + |left| + 3, right)
    ensures InPool(p, Consts(x), k) && InPool(p, Consts(a), k + |Consts(x)|) && InPool(p, Consts(x), kx) && InPool(p, Consts(b), kx + |Consts(x)|)
    ensures Resolved(x, |p.row|) && Resolved(a, |p.row|) && Resolved(b, |p.row|)
  {
    hide Leads, Has, Gen, GenIn, GenPair, Consts, ConstsIn, Binary, Unary, Both, Offset, ShortCircuit, InPool, Emitted, EmittedIn, Resolved, ResolvedList, ListOutcome, Circuit, Size, SizeList, Eval, EvalIn, Step, Exec, Calculated, Compared, LessThan;
    kx := k + |Consts(x)| + |Consts(a)|;
    left := GenPair(x, a, k, OP_GREATER_EQUAL);
    right := GenPair(x, b, kx, OP_LESS_EQUAL);
    EmittedParts(p, Between(x, a, b), k, at);
    BetweenShape(x, a, b, k);
    BetweenCode(x, a, b, k);
    CircuitParts(p, at, OP_JUMP_FALSE, left, right, OP_FALSE);
    PoolParts(p, Consts(x) + Consts(a) + Consts(x), Consts(b), k);
    PoolParts(p, Consts(x) + Consts(a), Consts(x), k);
    PoolParts(p, Consts(x), Consts(a), k);
  }

  lemma BetweenRuns(p: Program, x: Expr, a: Expr, b: Expr, k: nat, at: nat, s: seq<Value>)
    requires Emitted(p, Between(x, a, b), k, at)
    ensures Leads(p, Start(at, s), Push(Machine(at + |Gen(Between(x, a, b), k)|, s), Eval(Between(x, a, b), p.row)))
    decreases Size(x) + Size(a) + Size(b), 2
  {
    hide Leads, Has, Gen, GenIn, GenPair, Consts, ConstsIn, Binary, Unary, Both, Offset, ShortCircuit, InPool, Emitted, EmittedIn, Resolved, ResolvedList, ListOutcome, Circuit, Size, SizeList, Eval, EvalIn, Step, Exec, Calculated, Compared, LessThan;
    SizeAtLeast(x); SizeAtLeast(a); SizeAtLeast(b);
    BetweenMeans(x, a, b, p.row);
    var left, right, kx := BetweenParts(p, x, a, b, k, at);
    OperandsRun(p, x, a, k, at, OP_GREATER_EQUAL, s);
    OperandsRun(p, x, b, kx, at + |left| + 3, OP_LESS_EQUAL, s);
    CircuitRuns(p, at, OP_JUMP_FALSE, left, right, false, s, Both(OP_GREATER_EQUAL, x, a, p.row), Both(OP_LESS_EQUAL, x, b, p.row));
  }

  lemma BetweenMeans(x: Expr, a: Expr, b: Expr, row: seq<Value>)
    ensures forall op, y, z {:trigger Binary(op, y, z)} :: (op == OP_GREATER_EQUAL || op == OP_LESS_EQUAL) ==> Binary(op, y, z).Some?
    ensures Eval(Between(x, a, b), row) == Circuit(OP_JUMP_FALSE, Both(OP_GREATER_EQUAL, x, a, row), Both(OP_LESS_EQUAL, x, b, row), false)
  {
    TwoOperands(OP_GREATER_EQUAL);
    TwoOperands(OP_LESS_EQUAL);
  }

  lemma PairCode(l: Expr, r: Expr, k: nat, op: Byte)
    ensures GenPair(l, r, k, op) == Gen(l, k) + Gen(r, k + |Consts(l)|) + [op]
  {
    hide Gen, Consts;
  }

  /** Two operands and their operator, which needn't be the code of a whole expression. */
  lemma OperandsRun(p: Program, l: Expr, r: Expr, k: nat, at: nat, op: Byte, s: seq<Value>)
    requires TakesTwo(op) && Has(p.code, at, GenPair(l, r, k, op)) && |GenPair(l, r, k, op)| <= 0x8000
    requires InPool(p, Consts(l), k) && InPool(p, Consts(r), k + |Consts(l)|) && Resolved(l, |p.row|) && Resolved(r, |p.row|)
    ensures (forall x, y {:trigger Binary(op, x, y)} :: Binary(op, x, y).Some?)
            && Leads(p, Start(at, s), Push(Machine(at + |GenPair(l, r, k, op)|, s), Both(op, l, r, p.row)))
    decreases Size(l) + Size(r), 2
  {
    hide Leads, Has, Gen, GenIn, GenPair, Consts, ConstsIn, Binary, Unary, Both, Offset, ShortCircuit, InPool, Emitted, EmittedIn, Resolved, ResolvedList, ListOutcome, Circuit, Size, SizeList, Eval, EvalIn, Step, Exec, Calculated, Compared, LessThan;
    TwoOperands(op);
    PairCode(l, r, k, op);
    HasParts(p.code, at, Gen(l, k) + Gen(r, k + |Consts(l)|), [op]);
    HasParts(p.code, at, Gen(l, k), Gen(r, k + |Consts(l)|));
    IsEmitted(p, l, k, at);
    IsEmitted(p, r, k + |Consts(l)|, at + |Gen(l, k)|);
    BinaryRuns(p, l, r, k, at, op, s);
  }

  // ---- IN

  /** Where the tests of a list leave the machine: past the last with its result, or at found, having found the value. */
  ghost predicate Tested(t: State, o: Outcome, end: nat, found: nat, s: seq<Value>) {
    if o.Value? then t == Start(end, s + [o.v]) || (o.v == Bool(true) && t == Start(found, s)) else t == Push(Machine(end, s), o)
  }

  function ListOutcome(x: Expr, list: Exprs, row: seq<Value>): Outcome {
    var a := Eval(x, row);
    if !a.Value? then a else EvalIn(a.v, list, row)
  }

  ghost predicate EmittedIn(p: Program, x: Expr, list: Exprs, k: nat, at: nat) {
    && Has(p.code, at, GenIn(x, list, k)) && |GenIn(x, list, k)| + 3 < 0x8000 && InPool(p, ConstsIn(x, list), k)
    && Resolved(x, |p.row|) && ResolvedList(list, |p.row|)
  }

  lemma EmittedInParts(p: Program, x: Expr, list: Exprs, k: nat, at: nat)
    requires EmittedIn(p, x, list, k, at)
    ensures Has(p.code, at, GenIn(x, list, k)) && |GenIn(x, list, k)| + 3 < 0x8000 && InPool(p, ConstsIn(x, list), k)
    ensures Resolved(x, |p.row|) && Resolved(list.head, |p.row|) && (list.More? ==> ResolvedList(list.rest, |p.row|))
  {
  }

  lemma ListShape(x: Expr, list: Exprs, k: nat)
    ensures var i := k + |Consts(x)|;
            var test := GenPair(x, list.head, k, OP_EQUAL);
            match list
            case One(v) => GenIn(x, list, k) == test && ConstsIn(x, list) == Consts(x) + Consts(v)
            case More(v, rest) =>
              var after := GenIn(x, rest, i + |Consts(v)|);
              && GenIn(x, list, k) == test + ([OP_JUMP_TRUE] + Offset(|after| + 3) + after)
              && ConstsIn(x, list) == Consts(x) + Consts(v) + ConstsIn(x, rest)
  {
    hide Gen, GenPair, Consts, Offset;
  }

  /** The first test of a list, the jump after it and the other tests. */
  lemma TestParts(p: Program, x: Expr, list: Exprs, k: nat, at: nat) returns (test: Bytes, n: nat)
    requires EmittedIn(p, x, list, k, at)
    ensures test == GenPair(x, list.head, k, OP_EQUAL) && |test| < 0x8000
    ensures Has(p.code, at, test) && Resolved(x, |p.row|) && Resolved(list.head, |p.row|)
    ensures InPool(p, Consts(x), k) && InPool(p, Consts(list.head), k + |Consts(x)|)
    ensures list.One? ==> |GenIn(x, list, k)| == |test|
    ensures list.More? ==> n == |GenIn(x, list.rest, k + |Consts(x)| + |Consts(list.head)|)|
    ensures list.More? ==> |GenIn(x, list, k)| == |test| + 3 + n && Has(p.code, at + |test|, [OP_JUMP_TRUE] + Offset(n + 3)) && n + 3 < 0x8000
    ensures list.More? ==> EmittedIn(p, x, list.rest, k + |Consts(x)| + |Consts(list.head)|, at + |test| + 3)
  {
    hide Leads, Has, Gen, GenIn, GenPair, Consts, ConstsIn, Binary, Unary, Both, Offset, ShortCircuit, InPool, Emitted, EmittedIn, Resolved, ResolvedList, ListOutcome, Circuit, Size, SizeList, Eval, EvalIn, Step, Exec, Calculated, Compared, LessThan;
    var v, i := list.head, k + |Consts(x)|;
    EmittedInParts(p, x, list, k, at);
    ListShape(x, list, k);
    test, n := GenPair(x, v, k, OP_EQUAL), 0;
    if list.One? {
      PoolParts(p, Consts(x), Consts(v), k);
    } else {
      var after := GenIn(x, list.rest, i + |Consts(v)|);
      n := |after|;
      var jump := [OP_JUMP_TRUE] + Offset(n + 3);
      HasParts(p.code, at, test, jump + after);
      HasParts(p.code, at + |test|, jump, after);
      PoolParts(p, Consts(x) + Consts(v), ConstsIn(x, list.rest), k);
      PoolParts(p, Consts(x), Consts(v), k);
      IsEmittedIn(p, x, list.rest, i + |Consts(v)|, at + |test| + 3);
    }
  }

  lemma {:induction false} TestsRun(p: Program, x: Expr, list: Exprs, k: nat, at: nat, s: seq<Value>) returns (t: State)
    requires EmittedIn(p, x, list, k, at)
    ensures Leads(p, Start(at, s), t)
    ensures Tested(t, ListOutcome(x, list, p.row), at + |GenIn(x, list, k)|, at + |GenIn(x, list, k)| + 3, s)
    decreases Size(x) + SizeList(list), 0
  {
    hide Leads, Has, Gen, GenIn, GenPair, Consts, ConstsIn, Binary, Both, Offset, InPool, Emitted, EmittedIn, Resolved, ResolvedList,
         ListOutcome, Size, SizeList, Eval, EvalIn, Step, Exec, Unary, Calculated, Compared, LessThan;
    ListSize(list);
    TestMeans(x, list, p.row);
    var test, n := TestParts(p, x, list, k, at);
    OperandsRun(p, x, list.head, k, at, OP_EQUAL, s);
    var o := Both(OP_EQUAL, x, list.head, p.row);
    if list.One? || !o.Value? {
      t := Push(Machine(at + |test|, s), o);
    } else if IsTrue(o.v) {
      t := FoundHere(p, at, at + |test|, n, s, o);
    } else {
      var u := TestsRun(p, x, list.rest, k + |Consts(x)| + |Consts(list.head)|, at + |test| + 3, s);
      t := u;
      NotHere(p, at, at + |test|, n, s, o, t);
    }
  }

  lemma ListSize(list: Exprs)
    ensures Size(list.head) < SizeList(list) && (list.More? ==> SizeList(list.rest) < SizeList(list))
  {
  }

  lemma FoundHere(p: Program, at: nat, mid: nat, n: nat, s: seq<Value>, o: Outcome) returns (t: State)
    requires Leads(p, Start(at, s), Push(Machine(mid, s), o)) && o == Value(Bool(true))
    requires Has(p.code, mid, [OP_JUMP_TRUE] + Offset(n + 3)) && n + 3 < 0x8000
    ensures t == Start(mid + n + 6, s) && Leads(p, Start(at, s), t)
  {
    t := Start(mid + n + 6, s);
    hide Leads, Has, Offset;
    JumpRuns(p, mid, OP_JUMP_TRUE, n + 3, s, o.v);
    LeadsOn(p, Start(at, s), Start(mid, s + [o.v]), t);
  }

  lemma NotHere(p: Program, at: nat, mid: nat, n: nat, s: seq<Value>, o: Outcome, t: State)
    requires Leads(p, Start(at, s), Push(Machine(mid, s), o)) && o.Value? && !IsTrue(o.v)
    requires Has(p.code, mid, [OP_JUMP_TRUE] + Offset(n + 3)) && n + 3 < 0x8000 && Leads(p, Start(mid + 3, s), t)
    ensures Leads(p, Start(at, s), t)
  {
    hide Leads, Has, Offset;
    JumpRuns(p, mid, OP_JUMP_TRUE, n + 3, s, o.v);
    LeadsOn(p, Start(at, s), Start(mid, s + [o.v]), Start(mid + 3, s));
    LeadsOn(p, Start(at, s), Start(mid + 3, s), t);
  }

  /** What one test of a list says of the whole list. */
  lemma TestMeans(x: Expr, list: Exprs, row: seq<Value>)
    ensures forall y, z {:trigger Binary(OP_EQUAL, y, z)} :: Binary(OP_EQUAL, y, z).Some?
    ensures var o := Both(OP_EQUAL, x, list.head, row);
            && (!o.Value? || list.One? ==> ListOutcome(x, list, row) == o)
            && (o.Value? && list.More? ==> ListOutcome(x, list, row) == if IsTrue(o.v) then o else ListOutcome(x, list.rest, row))
            && (o.Value? ==> o.v.Bool?)
  {
    TwoOperands(OP_EQUAL);
  }

  lemma EmittedParts(p: Program, e: Expr, k: nat, at: nat)
    requires Emitted(p, e, k, at)
    ensures Has(p.code, at, Gen(e, k)) && |Gen(e, k)| < 0x8000 && InPool(p, Consts(e), k) && Resolved(e, |p.row|) && |p.row| <= 256
  {
  }

  lemma IsEmitted(p: Program, e: Expr, k: nat, at: nat)
    requires Has(p.code, at, Gen(e, k)) && |Gen(e, k)| < 0x8000 && InPool(p, Consts(e), k) && Resolved(e, |p.row|)
    ensures Emitted(p, e, k, at)
  {
  }

  lemma IsEmittedIn(p: Program, x: Expr, list: Exprs, k: nat, at: nat)
    requires Has(p.code, at, GenIn(x, list, k)) && |GenIn(x, list, k)| + 3 < 0x8000 && InPool(p, ConstsIn(x, list), k)
    requires Resolved(x, |p.row|) && ResolvedList(list, |p.row|)
    ensures EmittedIn(p, x, list, k, at)
  {
  }

  lemma InShape(x: Expr, list: Exprs, negated: bool, k: nat)
    ensures Gen(In(x, list, negated), k) == GenIn(x, list, k) + ([OP_JUMP] + Offset(1) + ([OP_TRUE] + if negated then [OP_NOT] else []))
    ensures Consts(In(x, list, negated)) == ConstsIn(x, list)
    ensures forall n {:trigger Resolved(In(x, list, negated), n)} :: Resolved(In(x, list, negated), n) <==> Resolved(x, n) && ResolvedList(list, n)
  {
    hide Offset, GenIn;
  }

  lemma InMeans(x: Expr, list: Exprs, negated: bool, row: seq<Value>)
    ensures var o := ListOutcome(x, list, row);
            && (o.Value? ==> Unary(OP_NOT, o.v).Some?)
            && Eval(In(x, list, negated), row) == if !o.Value? || !negated then o else Unary(OP_NOT, o.v).value
  {
  }

  lemma InRuns(p: Program, x: Expr, list: Exprs, negated: bool, k: nat, at: nat, s: seq<Value>)
    requires Emitted(p, In(x, list, negated), k, at)
    ensures Leads(p, Start(at, s), Push(Machine(at + |Gen(In(x, list, negated), k)|, s), Eval(In(x, list, negated), p.row)))
    decreases Size(x) + SizeList(list), 1
  {
    hide Leads, Has, Gen, GenIn, GenPair, Consts, ConstsIn, Binary, Unary, Both, Offset, ShortCircuit, InPool, Emitted, EmittedIn, Resolved, ResolvedList, ListOutcome, Circuit, Size, SizeList, Eval, EvalIn, Step, Exec, Calculated, Compared, LessThan;
    InShape(x, list, negated, k);
    InMeans(x, list, negated, p.row);
    EmittedParts(p, In(x, list, negated), k, at);
    var tests, jump, not := GenIn(x, list, k), [OP_JUMP] + Offset(1), if negated then [OP_NOT] else [];
    var o, end := ListOutcome(x, list, p.row), at + |tests| + 4;
    HasParts(p.code, at, tests, jump + ([OP_TRUE] + not));
    HasParts(p.code, at + |tests|, jump, [OP_TRUE] + not);
    HasParts(p.code, at + |tests| + 3, [OP_TRUE], not);
    IsEmittedIn(p, x, list, k, at);
    var t := TestsRun(p, x, list, k, at, s);
    if o.Value? {
      if t == Start(at + |tests|, s + [o.v]) {
        JumpRuns(p, at + |tests|, OP_JUMP, 1, s + [o.v], o.v);
      } else {
        AnswerRuns(p, at + |tests| + 3, OP_TRUE, s, true);
      }
      LeadsOn(p, Start(at, s), t, Start(end, s + [o.v]));
      if negated {
        OperatorOneRuns(p, end, OP_NOT, s, o.v);
        LeadsOn(p, Start(at, s), Start(end, s + [o.v]), Push(Machine(end + 1, s), Unary(OP_NOT, o.v).value));
      }
    }
  }

  // ---- whole programs

  /** The columns an expression reads. */
  function Columns(e: Expr): set<nat>
    decreases e
  {
    match e
    case Literal(_) => {} case NullLiteral => {} case Column(i) => {i}
    case Or(l, r) => Columns(l) + Columns(r)
    case And(l, r) => Columns(l) + Columns(r)
    case Compare(_, l, r) => Columns(l) + Columns(r)
    case Arith(_, l, r) => Columns(l) + Columns(r)
    case Not(x) => Columns(x) case Negate(x) => Columns(x) case IsNull(x, _) => Columns(x)
    case Between(x, a, b) => Columns(x) + Columns(a) + Columns(b)
    case In(x, list, _) => Columns(x) + ListColumns(list)
  }

  function ListColumns(list: Exprs): set<nat>
    decreases list
  {
    Columns(list.head) + if list.More? then ListColumns(list.rest) else {}
  }

  predicate Below(columns: set<nat>, n: nat) { forall i {:trigger i in columns} :: i in columns ==> i < n }

  lemma BelowBoth(a: set<nat>, b: set<nat>, n: nat)
    ensures Below(a + b, n) <==> Below(a, n) && Below(b, n)
  {
    if Below(a + b, n) { assert forall i :: i in a || i in b ==> i in a + b; }
  }

  lemma {:induction false} ResolvedWhen(e: Expr, n: nat)
    ensures Resolved(e, n) <==> Below(Columns(e), n)
    decreases e
  {
    hide Below;
    match e
    case Literal(_) => NoneBelow(n);
    case NullLiteral => NoneBelow(n);
    case Column(i) => OneBelow(i, n);
    case Or(l, r) => ResolvedWhen(l, n); ResolvedWhen(r, n); BelowBoth(Columns(l), Columns(r), n);
    case And(l, r) => ResolvedWhen(l, n); ResolvedWhen(r, n); BelowBoth(Columns(l), Columns(r), n);
    case Compare(_, l, r) => ResolvedWhen(l, n); ResolvedWhen(r, n); BelowBoth(Columns(l), Columns(r), n);
    case Arith(_, l, r) => ResolvedWhen(l, n); ResolvedWhen(r, n); BelowBoth(Columns(l), Columns(r), n);
    case Not(x) => ResolvedWhen(x, n);
    case Negate(x) => ResolvedWhen(x, n);
    case IsNull(x, _) => ResolvedWhen(x, n);
    case Between(x, a, b) =>
      ResolvedWhen(x, n); ResolvedWhen(a, n); ResolvedWhen(b, n);
      BelowBoth(Columns(x), Columns(a), n); BelowBoth(Columns(x) + Columns(a), Columns(b), n);
    case In(x, list, _) => ResolvedWhen(x, n); ListResolvedWhen(list, n); BelowBoth(Columns(x), ListColumns(list), n);
  }

  lemma {:induction false} ListResolvedWhen(list: Exprs, n: nat)
    ensures ResolvedList(list, n) <==> Below(ListColumns(list), n)
    decreases list
  {
    hide Below;
    NoneBelow(n);
    ResolvedWhen(list.head, n);
    BelowBoth(Columns(list.head), if list.More? then ListColumns(list.rest) else {}, n);
    if list.More? { ListResolvedWhen(list.rest, n); }
  }

  lemma NoneBelow(n: nat)
    ensures Below({}, n)
  {
  }

  lemma OneBelow(i: nat, n: nat)
    ensures Below({i}, n) <==> i < n
  {
    assert i in {i};
  }

  /** An expression compiled on its own, if its code and its constants aren't too many and the row has the columns it reads, runs to
      its end with nothing but its value on the stack, or fails as evaluating it does. */
  lemma Compiled(e: Expr, row: seq<Value>)
    requires |Gen(e, 0)| < 0x8000 && |Consts(e)| <= 256 && |row| <= 256 && forall i :: i in Columns(e) ==> i < |row|
    ensures Leads(Program(Gen(e, 0), Consts(e), row), Running(Machine(0, [])), Push(Machine(|Gen(e, 0)|, []), Eval(e, row)))
    ensures Eval(e, row).Value? ==> Push(Machine(|Gen(e, 0)|, []), Eval(e, row)) == Running(Machine(|Gen(e, 0)|, [Eval(e, row).v]))
    ensures Eval(e, row) == Error ==> Push(Machine(|Gen(e, 0)|, []), Eval(e, row)) == Failed
  {
    hide Leads, Gen, Consts, Eval, Resolved;
    var p := Program(Gen(e, 0), Consts(e), row);
    assert Gen(e, 0)[0..|Gen(e, 0)|] == Gen(e, 0) && Consts(e)[0..|Consts(e)|] == Consts(e);
    ResolvedWhen(e, |row|);
    Runs(p, e, 0, 0, []);
  }
}
