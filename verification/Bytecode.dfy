// The bytes an expression compiles to, and the stack machine that runs them.
module Bytecode {
  import opened Base
  import opened Words
  import opened Expressions

  const OP_CONSTANT: Byte := 0
  const OP_NULL: Byte := 1
  const OP_TRUE: Byte := 2
  const OP_FALSE: Byte := 3
  const OP_ADD: Byte := 5
  const OP_SUBTRACT: Byte := 6
  const OP_MULTIPLY: Byte := 7
  const OP_DIVIDE: Byte := 8
  const OP_NEGATE: Byte := 9
  const OP_EQUAL: Byte := 10
  const OP_NOT_EQUAL: Byte := 11
  const OP_LESS: Byte := 12
  const OP_LESS_EQUAL: Byte := 13
  const OP_GREATER: Byte := 14
  const OP_GREATER_EQUAL: Byte := 15
  const OP_LIKE: Byte := 16
  const OP_IS_NULL: Byte := 17
  const OP_NOT_NULL: Byte := 18
  const OP_NOT: Byte := 19
  const OP_JUMP: Byte := 20
  const OP_JUMP_FALSE: Byte := 21
  const OP_JUMP_TRUE: Byte := 22
  const OP_COLUMN: Byte := 28

  function ComparisonOp(cmp: Comparison): Byte {
    match cmp
    case Equals => OP_EQUAL case NotEquals => OP_NOT_EQUAL case Less => OP_LESS case LessOrEqual => OP_LESS_EQUAL
    case Greater => OP_GREATER case GreaterOrEqual => OP_GREATER_EQUAL case Like => OP_LIKE
  }

  function ArithmeticOp(op: Arithmetic): Byte {
    match op case Add => OP_ADD case Subtract => OP_SUBTRACT case Multiply => OP_MULTIPLY case Divide => OP_DIVIDE
  }

  // ---- the machine

  /** The code and constants being run, and the columns of the scanner's row. */
  datatype Program = Program(code: Bytes, constants: seq<Value>, row: seq<Value>)

  datatype Machine = Machine(ip: nat, stack: seq<Value>)

  /** Stuck is where the machine misreads an operand, or leaves the code. */
  datatype State = Running(m: Machine) | Failed | Stuck

  function Signed(hi: Byte, lo: Byte): int {
    var u := 256 * hi + lo;
    if u >= 0x8000 then u - 0x1_0000 else u
  }

  function Jump(ip: nat, offset: int, stack: seq<Value>): State {
    if ip + offset < 0 then Stuck else Running(Machine(ip + offset, stack))
  }

  function Push(m: Machine, o: Outcome): State {
    match o case Value(v) => Running(m.(stack := m.stack + [v])) case Error => Failed case Undefined => Stuck
  }

  /** Operators that take two operands, the right one on top. */
  function Binary(op: Byte, a: Value, b: Value): Option<Outcome> {
    if op == OP_ADD then Some(Calculated(Add, a, b))
    else if op == OP_SUBTRACT then Some(Calculated(Subtract, a, b))
    else if op == OP_MULTIPLY then Some(Calculated(Multiply, a, b))
    else if op == OP_DIVIDE then Some(Calculated(Divide, a, b))
    else if op == OP_EQUAL then Some(Compared(Equals, b, a))
    else if op == OP_NOT_EQUAL then Some(Compared(NotEquals, b, a))
    else if op == OP_LESS then Some(Compared(Less, a, b))
    else if op == OP_LESS_EQUAL then Some(Compared(LessOrEqual, a, b))
    else if op == OP_GREATER then Some(Compared(Greater, a, b))
    else if op == OP_GREATER_EQUAL then Some(Compared(GreaterOrEqual, a, b))
    else if op == OP_LIKE then Some(Compared(Like, a, b))
    else None
  }

  /** Operators that take one. */
  function Unary(op: Byte, a: Value): Option<Outcome> {
    if op == OP_NEGATE then Some(Negated(a))
    else if op == OP_IS_NULL then Some(Value(Bool(a == Null)))
    else if op == OP_NOT_NULL then Some(Value(Bool(a != Null)))
    else if op == OP_NOT then Some(Inverse(a))
    else None
  }

  predicate Taken(op: Byte, v: Value) { (op == OP_JUMP_FALSE && IsFalse(v)) || (op == OP_JUMP_TRUE && IsTrue(v)) }

  /** One instruction. */
  function Step(p: Program, m: Machine): State {
    if m.ip >= |p.code| then Stuck
    else
      var op, n := p.code[m.ip], |m.stack|;
      var next := m.ip + 1;
      if op == OP_NULL then Push(m.(ip := next), Value(Null))
      else if op == OP_TRUE then Push(m.(ip := next), Value(Bool(true)))
      else if op == OP_FALSE then Push(m.(ip := next), Value(Bool(false)))
      else if op == OP_CONSTANT || op == OP_COLUMN then
        if next >= |p.code| then Stuck
        else
          var i, from := p.code[next], if op == OP_CONSTANT then p.constants else p.row;
          if i >= |from| then Stuck else Push(m.(ip := next + 1), Value(from[i]))
      else if op == OP_JUMP || op == OP_JUMP_FALSE || op == OP_JUMP_TRUE then
        if next + 1 >= |p.code| then Stuck
        else
          var offset := Signed(p.code[next], p.code[next + 1]);
          if op == OP_JUMP then Jump(next + 2, offset, m.stack)
          else if n == 0 then Failed
          else
            var v, rest := Last(m.stack), m.stack[..n - 1];
            Jump(next + 2, if Taken(op, v) then offset else 0, rest)
      else if n > 0 && Unary(op, Last(m.stack)).Some? then
        Push(Machine(next, m.stack[..n - 1]), Unary(op, Last(m.stack)).value)
      else if n > 1 && Binary(op, m.stack[n - 2], m.stack[n - 1]).Some? then
        Push(Machine(next, m.stack[..n - 2]), Binary(op, m.stack[n - 2], m.stack[n - 1]).value)
      else Failed
  }

  function Exec(p: Program, n: nat, s: State): State {
    if n == 0 || !s.Running? then s else Exec(p, n - 1, Step(p, s.m))
  }

  /** s leads to t. */
  ghost predicate Leads(p: Program, s: State, t: State) { exists n: nat :: Exec(p, n, s) == t }

  lemma {:induction false} ExecMore(p: Program, n: nat, k: nat, s: State)
    ensures Exec(p, n + k, s) == Exec(p, k, Exec(p, n, s))
  {
    if n > 0 && s.Running? { ExecMore(p, n - 1, k, Step(p, s.m)); }
    if !s.Running? { assert Exec(p, k, s) == s; }
  }

  lemma LeadsOn(p: Program, s: State, t: State, u: State)
    requires Leads(p, s, t) && Leads(p, t, u)
    ensures Leads(p, s, u)
  {
    var n: nat :| Exec(p, n, s) == t;
    var k: nat :| Exec(p, k, t) == u;
    ExecMore(p, n, k, s);
  }

  lemma LeadsStep(p: Program, m: Machine)
    ensures Leads(p, Running(m), Step(p, m))
  {
    assert Exec(p, 1, Running(m)) == Exec(p, 0, Step(p, m)) == Step(p, m);
  }

  // ---- the code of an expression

  /** A forward jump's offset, as its two bytes. */
  function Offset(n: nat): (r: Bytes)
    ensures |r| == 2
  {
    [n % 0x1_0000 / 256, n % 256]
  }

  lemma OffsetBack(n: nat)
    requires n < 0x8000
    ensures Signed(Offset(n)[0], Offset(n)[1]) == n
  {
    assert n % 0x1_0000 == n;
    assert n / 256 * 256 + n % 256 == n;
    assert n / 256 < 0x80;
  }

  function Size(e: Expr): nat
    decreases e
  {
    match e
    case Or(l, r) => 1 + Size(l) + Size(r)
    case And(l, r) => 1 + Size(l) + Size(r)
    case Compare(_, l, r) => 1 + Size(l) + Size(r)
    case Arith(_, l, r) => 1 + Size(l) + Size(r)
    case Not(x) => 1 + Size(x)
    case Negate(x) => 1 + Size(x)
    case IsNull(x, _) => 1 + Size(x)
    case Between(x, a, b) => 1 + Size(x) + Size(a) + Size(b)
    case In(x, list, _) => 1 + Size(x) + SizeList(list)
    case _ => 1
  }

  function SizeList(list: Exprs): nat
    decreases list
  {
    match list case One(x) => 1 + Size(x) case More(x, rest) => 1 + Size(x) + SizeList(rest)
  }

  /** The constants an expression adds to the pool: one for every literal, each time it is emitted. */
  function Consts(e: Expr): seq<Value>
    decreases Size(e)
  {
    match e
    case Literal(v) => [v]
    case Or(l, r) => Consts(l) + Consts(r)
    case And(l, r) => Consts(l) + Consts(r)
    case Compare(_, l, r) => Consts(l) + Consts(r)
    case Arith(_, l, r) => Consts(l) + Consts(r)
    case Not(x) => Consts(x)
    case Negate(x) => Consts(x)
    case IsNull(x, _) => Consts(x)
    case Between(x, a, b) => Consts(x) + Consts(a) + Consts(x) + Consts(b)
    case In(x, list, _) => ConstsIn(x, list)
    case _ => []
  }

  function ConstsIn(x: Expr, list: Exprs): seq<Value>
    decreases Size(x) + SizeList(list)
  {
    Consts(x) + Consts(list.head) + match list case One(_) => [] case More(_, rest) => ConstsIn(x, rest)
  }

  /** The code of an expression whose first constant is number k. */
  function Gen(e: Expr, k: nat): Bytes
    decreases Size(e), 2
  {
    match e
    case Literal(_) => [OP_CONSTANT, k % 256]
    case NullLiteral => [OP_NULL]
    case Column(i) => [OP_COLUMN, i % 256]
    case Or(l, r) => ShortCircuit(OP_JUMP_TRUE, Gen(l, k), Gen(r, k + |Consts(l)|), OP_TRUE)
    case And(l, r) => ShortCircuit(OP_JUMP_FALSE, Gen(l, k), Gen(r, k + |Consts(l)|), OP_FALSE)
    case Compare(cmp, l, r) => GenPair(l, r, k, ComparisonOp(cmp))
    case Arith(op, l, r) => GenPair(l, r, k, ArithmeticOp(op))
    case Not(x) => Gen(x, k) + [OP_NOT]
    case Negate(x) => Gen(x, k) + [OP_NEGATE]
    case IsNull(x, negated) => Gen(x, k) + [if negated then OP_NOT_NULL else OP_IS_NULL]
    case Between(x, a, b) =>
      ShortCircuit(OP_JUMP_FALSE, GenPair(x, a, k, OP_GREATER_EQUAL),
                   GenPair(x, b, k + |Consts(x)| + |Consts(a)|, OP_LESS_EQUAL), OP_FALSE)
    case In(x, list, negated) =>
      GenIn(x, list, k) + [OP_JUMP] + Offset(1) + [OP_TRUE] + if negated then [OP_NOT] else []
  }

  /** Two operands and their operator. */
  function GenPair(l: Expr, r: Expr, k: nat, op: Byte): Bytes
    decreases Size(l) + Size(r) + 1, 1
  {
    Gen(l, k) + Gen(r, k + |Consts(l)|) + [op]
  }

  /** left; if the jump is taken, answer; otherwise right. */
  function ShortCircuit(jump: Byte, left: Bytes, right: Bytes, answer: Byte): (r: Bytes)
    ensures |r| == |left| + |right| + 7
  {
    left + [jump] + Offset(|right| + 3) + right + [OP_JUMP] + Offset(1) + [answer]
  }

  /** Every comparison with an element of the list but the last jumps, if it holds, past the last and the jump after it. */
  function GenIn(x: Expr, list: Exprs, k: nat): Bytes
    decreases Size(x) + SizeList(list), 2
  {
    var test := GenPair(x, list.head, k, OP_EQUAL);
    match list
    case One(_) => test
    case More(v, rest) =>
      var after := GenIn(x, rest, k + |Consts(x)| + |Consts(v)|);
      test + [OP_JUMP_TRUE] + Offset(|after| + 3) + after
  }
}
