// Every jump in an expression's code lands on an instruction.
module Jumps {
  import opened Base
  import opened Words
  import opened Expressions
  import opened Bytecode
  import opened CompilerCorrect

  predicate IsJump(op: Byte) { op == OP_JUMP || op == OP_JUMP_FALSE || op == OP_JUMP_TRUE }

  function Width(op: Byte): nat {
    if IsJump(op) then 3 else if op == OP_CONSTANT || op == OP_COLUMN then 2 else 1
  }

  /** Whether decoding instructions from i on comes to j. */
  predicate Reaches(code: Bytes, i: nat, j: nat)
    decreases |code| - i
  {
    i == j || (i < |code| && Reaches(code, i + Width(code[i]), j))
  }

  predicate Boundary(code: Bytes, j: nat) { Reaches(code, 0, j) }

  function Target(code: Bytes, i: nat): int
    requires i + 3 <= |code|
  {
    i + 3 + Signed(code[i + 1], code[i + 2])
  }

  predicate JumpLands(code: Bytes, i: nat, past: nat) {
    i + 3 <= |code| && Target(code, i) >= 0 && (Boundary(code, Target(code, i)) || Target(code, i) == |code| + past)
  }

  /** Decoding comes to the end, and every jump lands on an instruction, or at the end, or past bytes beyond it. */
  ghost predicate Lands(code: Bytes, past: nat) {
    && Boundary(code, |code|)
    && forall i: nat :: Boundary(code, i) && i < |code| && IsJump(code[i]) ==> JumpLands(code, i, past)
  }

  lemma {:induction false} ReachesUpTo(code: Bytes, i: nat, j: nat)
    requires Reaches(code, i, j)
    ensures i <= j
    decreases |code| - i
  {
    if i != j { ReachesUpTo(code, i + Width(code[i]), j); }
  }

  lemma {:induction false} ReachesLeft(a: Bytes, b: Bytes, i: nat, j: nat)
    requires Reaches(a, i, j)
    ensures Reaches(a + b, i, j)
    decreases |a| - i
  {
    if i != j { ReachesLeft(a, b, i + Width(a[i]), j); }
  }

  lemma {:induction false} ReachesRight(a: Bytes, b: Bytes, i: nat, j: nat)
    requires Reaches(b, i, j)
    ensures Reaches(a + b, |a| + i, |a| + j)
    decreases |b| - i
  {
    if i != j { ReachesRight(a, b, i + Width(b[i]), j); }
  }

  lemma {:induction false} ReachesVia(code: Bytes, i: nat, m: nat, j: nat)
    requires Reaches(code, i, m) && Reaches(code, m, j)
    ensures Reaches(code, i, j)
    decreases |code| - i
  {
    if i != m { ReachesVia(code, i + Width(code[i]), m, j); }
  }

  /** An instruction of two blocks joined is one of the first, or one of the second. */
  lemma {:induction false} ReachesParts(a: Bytes, b: Bytes, i: nat, j: nat)
    requires Reaches(a, i, |a|) && Reaches(a + b, i, j) && j < |a| + |b|
    ensures if j < |a| then Reaches(a, i, j) else Boundary(b, j - |a|)
    decreases |a| - i
  {
    ReachesUpTo(a, i, |a|);
    if i == |a| {
      ReachesUpTo(a + b, i, j);
      ReachesAfter(a, b, 0, j - |a|);
    } else if i != j {
      ReachesParts(a, b, i + Width(a[i]), j);
    }
  }

  lemma {:induction false} ReachesAfter(a: Bytes, b: Bytes, i: nat, j: nat)
    requires Reaches(a + b, |a| + i, |a| + j)
    ensures Reaches(b, i, j)
    decreases |b| - i
  {
    if i != j {
      assert (a + b)[|a| + i] == b[i];
      ReachesAfter(a, b, i + Width(b[i]), j);
    }
  }

  /** Joining blocks: the jumps of the first that go past its end land on an instruction of the second, or past it too. */
  lemma Joined(a: Bytes, x: nat, b: Bytes, past: nat)
    requires Lands(a, x) && Lands(b, past) && (Boundary(b, x) || x == |b| + past)
    ensures Lands(a + b, past)
  {
    hide Reaches, Signed;
    var code := a + b;
    ReachesLeft(a, b, 0, |a|);
    ReachesRight(a, b, 0, |b|);
    ReachesVia(code, 0, |a|, |code|);
    forall i: nat | Boundary(code, i) && i < |code| && IsJump(code[i]) ensures JumpLands(code, i, past) {
      ReachesParts(a, b, 0, i);
      if i < |a| {
        assert JumpLands(a, i, x) && Target(code, i) == Target(a, i);
        var t: nat := Target(a, i);
        if Boundary(a, t) {
          ReachesLeft(a, b, 0, t);
        } else if Boundary(b, x) {
          ReachesRight(a, b, 0, x);
          ReachesVia(code, 0, |a|, t);
        }
      } else {
        assert JumpLands(b, i - |a|, past) && Target(code, i) == |a| + Target(b, i - |a|);
        var t: nat := Target(b, i - |a|);
        if Boundary(b, t) {
          ReachesRight(a, b, 0, t);
          ReachesVia(code, 0, |a|, |a| + t);
        }
      }
    }
  }

  lemma PlainLands(code: Bytes)
    requires (|code| == 1 || |code| == 2) && Width(code[0]) == |code|
    ensures Lands(code, 0) && Boundary(code, |code|) && Boundary(code, 0)
  {
    hide Signed;
    assert Reaches(code, |code|, |code|);
    forall i: nat | Boundary(code, i) && i < |code| ensures i == 0 {
      if i > 0 { assert Reaches(code, |code|, i); ReachesUpTo(code, |code|, i); }
    }
  }

  /** A forward jump. */
  lemma JumpGoes(op: Byte, n: nat)
    requires IsJump(op) && n < 0x8000
    ensures Lands([op] + Offset(n), n) && Boundary([op] + Offset(n), 3)
  {
    OffsetBack(n);
    hide Signed, Offset;
    var code := [op] + Offset(n);
    assert Reaches(code, 3, 3) && Reaches(code, 0, 3);
    forall i: nat | Boundary(code, i) && i < |code| ensures i == 0 {
      if i > 0 { assert Reaches(code, 3, i); ReachesUpTo(code, 3, i); }
    }
  }

  lemma Wider(code: Bytes, past: nat)
    requires Lands(code, 0)
    ensures Lands(code, past) && Boundary(code, 0)
  {
    hide Signed;
    forall i: nat | Boundary(code, i) && i < |code| && IsJump(code[i]) ensures JumpLands(code, i, past) {
      assert JumpLands(code, i, 0);
    }
  }

  lemma CircuitLands(jump: Byte, left: Bytes, right: Bytes, answer: Byte)
    requires Lands(left, 0) && Lands(right, 0) && IsJump(jump) && Width(answer) == 1 && |right| + 3 < 0x8000
    ensures Lands(ShortCircuit(jump, left, right, answer), 0)
  {
    hide Lands, Offset, Reaches, Boundary;
    var test, done := [jump] + Offset(|right| + 3), [OP_JUMP] + Offset(1);
    JumpGoes(jump, |right| + 3);
    JumpGoes(OP_JUMP, 1);
    PlainLands([answer]);
    Wider(right, 3);
    AtStart(test);
    AtStart(done);
    Joined(left, 0, test, |right| + 3);
    Joined(left + test, |right| + 3, right, 3);
    Joined(left + test + right, 3, done, 1);
    Joined(left + test + right + done, 1, [answer], 0);
    assert ShortCircuit(jump, left, right, answer) == left + test + right + done + [answer];
  }

  lemma AtStart(code: Bytes)
    ensures Boundary(code, 0)
  {
  }

  /** An operator, or an answer, after a block. */
  lemma Appended(code: Bytes, op: Byte)
    requires Lands(code, 0) && Width(op) == 1
    ensures Lands(code + [op], 0)
  {
    hide Lands, Boundary;
    PlainLands([op]);
    Joined(code, 0, [op], 0);
  }

  /** In the code of every expression every jump lands on an instruction, or at its end. */
  lemma {:induction false} CodeLands(e: Expr, k: nat)
    requires |Gen(e, k)| < 0x8000
    ensures Lands(Gen(e, k), 0)
    decreases Size(e), 1
  {
    hide Lands, Reaches, Boundary, Gen, GenPair, GenIn, ShortCircuit, Offset, Consts, ConstsIn, Size, SizeList, Resolved;
    Shape(e, k, 0);
    match e {
      case Literal(_) => PlainLands(Gen(e, k));
      case NullLiteral => PlainLands(Gen(e, k));
      case Column(_) => PlainLands(Gen(e, k));
      case Or(l, r) => OperandsLand(l, r, k, OP_JUMP_TRUE, OP_TRUE);
      case And(l, r) => OperandsLand(l, r, k, OP_JUMP_FALSE, OP_FALSE);
      case Compare(cmp, l, r) => PairLands(l, r, k, ComparisonOp(cmp));
      case Arith(op, l, r) => PairLands(l, r, k, ArithmeticOp(op));
      case Not(x) => CodeLands(x, k); Appended(Gen(x, k), OP_NOT);
      case Negate(x) => CodeLands(x, k); Appended(Gen(x, k), OP_NEGATE);
      case IsNull(x, negated) => CodeLands(x, k); Appended(Gen(x, k), if negated then OP_NOT_NULL else OP_IS_NULL);
      case Between(x, a, b) => BetweenLands(x, a, b, k);
      case In(x, list, negated) => InLands(x, list, negated, k);
    }
  }

  lemma OperandsLand(l: Expr, r: Expr, k: nat, jump: Byte, answer: Byte)
    requires |ShortCircuit(jump, Gen(l, k), Gen(r, k + |Consts(l)|), answer)| < 0x8000 && IsJump(jump) && Width(answer) == 1
    ensures Lands(ShortCircuit(jump, Gen(l, k), Gen(r, k + |Consts(l)|), answer), 0)
    decreases Size(l) + Size(r), 2
  {
    hide Lands, Reaches, Boundary, Gen, ShortCircuit, Consts, Size;
    SizeAtLeast(l);
    SizeAtLeast(r);
    CodeLands(l, k);
    CodeLands(r, k + |Consts(l)|);
    CircuitLands(jump, Gen(l, k), Gen(r, k + |Consts(l)|), answer);
  }

  lemma PairLands(l: Expr, r: Expr, k: nat, op: Byte)
    requires |GenPair(l, r, k, op)| <= 0x8000 && Width(op) == 1
    ensures Lands(GenPair(l, r, k, op), 0)
    decreases Size(l) + Size(r), 2
  {
    hide Lands, Reaches, Boundary, Gen, GenPair, Consts, Size;
    SizeAtLeast(l);
    SizeAtLeast(r);
    PairCode(l, r, k, op);
    CodeLands(l, k);
    CodeLands(r, k + |Consts(l)|);
    AtStart(Gen(r, k + |Consts(l)|));
    Joined(Gen(l, k), 0, Gen(r, k + |Consts(l)|), 0);
    Appended(Gen(l, k) + Gen(r, k + |Consts(l)|), op);
  }

  lemma BetweenLands(x: Expr, a: Expr, b: Expr, k: nat)
    requires |Gen(Between(x, a, b), k)| < 0x8000
    ensures Lands(Gen(Between(x, a, b), k), 0)
    decreases Size(x) + Size(a) + Size(b), 2
  {
    hide Lands, Reaches, Boundary, Gen, GenPair, ShortCircuit, Consts, Size;
    SizeAtLeast(x);
    SizeAtLeast(a);
    SizeAtLeast(b);
    BetweenCode(x, a, b, k);
    var kx := k + |Consts(x)| + |Consts(a)|;
    PairLands(x, a, k, OP_GREATER_EQUAL);
    PairLands(x, b, kx, OP_LESS_EQUAL);
    CircuitLands(OP_JUMP_FALSE, GenPair(x, a, k, OP_GREATER_EQUAL), GenPair(x, b, kx, OP_LESS_EQUAL), OP_FALSE);
  }

  /** The tests of a list jump three bytes past their end, where the answer will be. */
  lemma {:induction false} TestsLand(x: Expr, list: Exprs, k: nat)
    requires |GenIn(x, list, k)| + 3 < 0x8000
    ensures Lands(GenIn(x, list, k), 3)
    decreases Size(x) + SizeList(list), 3
  {
    hide Lands, Reaches, Boundary, Gen, GenPair, GenIn, Offset, Consts, ConstsIn, Size, SizeList;
    ListShape(x, list, k);
    ListSize(list);
    var test := GenPair(x, list.head, k, OP_EQUAL);
    PairLands(x, list.head, k, OP_EQUAL);
    Wider(test, 3);
    if list.More? {
      var after := GenIn(x, list.rest, k + |Consts(x)| + |Consts(list.head)|);
      var jump := [OP_JUMP_TRUE] + Offset(|after| + 3);
      TestsLand(x, list.rest, k + |Consts(x)| + |Consts(list.head)|);
      JumpGoes(OP_JUMP_TRUE, |after| + 3);
      AtStart(jump);
      Joined(test, 0, jump, |after| + 3);
      Joined(test + jump, |after| + 3, after, 3);
      assert GenIn(x, list, k) == test + jump + after;
    }
  }

  lemma InLands(x: Expr, list: Exprs, negated: bool, k: nat)
    requires |Gen(In(x, list, negated), k)| < 0x8000
    ensures Lands(Gen(In(x, list, negated), k), 0)
    decreases Size(x) + SizeList(list), 4
  {
    hide Lands, Reaches, Boundary, Gen, GenIn, Offset, Consts, ConstsIn, Size, SizeList;
    InShape(x, list, negated, k);
    var tests, jump := GenIn(x, list, k), [OP_JUMP] + Offset(1);
    var not := if negated then [OP_NOT] else [];
    TestsLand(x, list, k);
    JumpGoes(OP_JUMP, 1);
    PlainLands([OP_TRUE]);
    Joined(tests, 3, jump, 1);
    Joined(tests + jump, 1, [OP_TRUE], 0);
    assert Gen(In(x, list, negated), k) == tests + jump + [OP_TRUE] + not;
    if negated { Appended(tests + jump + [OP_TRUE], OP_NOT); } else { assert Gen(In(x, list, negated), k) == tests + jump + [OP_TRUE]; }
  }
}
