// Compiling an expression: bytes are appended to a chunk, and jumps over what isn't emitted yet are patched later.
module Generator {
  import opened Base
  import opened Words
  import opened Expressions
  import opened Bytecode
  import opened CompilerCorrect

  /** How many jumps to the end of a list the generator has room to remember. */
  const MAX_PATCHES: nat := 64

  function Length(list: Exprs): nat
    decreases list
  {
    match list case One(_) => 1 case More(_, rest) => 1 + Length(rest)
  }

  /** No list has more values than the generator can patch the jumps of. */
  predicate Patchable(e: Expr)
    decreases e
  {
    match e
    case Or(l, r) => Patchable(l) && Patchable(r)
    case And(l, r) => Patchable(l) && Patchable(r)
    case Compare(_, l, r) => Patchable(l) && Patchable(r)
    case Arith(_, l, r) => Patchable(l) && Patchable(r)
    case Not(x) => Patchable(x)
    case Negate(x) => Patchable(x)
    case IsNull(x, _) => Patchable(x)
    case Between(x, a, b) => Patchable(x) && Patchable(a) && Patchable(b)
    case In(x, list, _) => Patchable(x) && PatchableList(list) && Length(list) <= MAX_PATCHES + 1
    case _ => true
  }

  predicate PatchableList(list: Exprs)
    decreases list
  {
    Patchable(list.head) && (list.More? ==> PatchableList(list.rest))
  }

  // ---- patching

  /** code with the jump whose offset is at pos made to reach target. */
  function Patch(code: Bytes, pos: nat, target: int): (r: Bytes)
    requires pos + 2 <= |code| && pos + 2 <= target
    ensures |r| == |code|
  {
    code[..pos] + Offset(target - (pos + 2)) + code[pos + 2..]
  }

  predicate Within(patches: seq<nat>, n: int) { forall i :: 0 <= i < |patches| ==> patches[i] + 2 <= n }

  function PatchAll(code: Bytes, patches: seq<nat>, target: nat): (r: Bytes)
    requires Within(patches, |code|) && |code| <= target
    ensures |r| == |code|
  {
    if patches == [] then code else Patch(PatchAll(code, patches[..|patches| - 1], target), Last(patches), target)
  }

  lemma PatchBefore(a: Bytes, b: Bytes, pos: nat, target: nat)
    requires pos + 2 <= |a| && |a| + |b| <= target
    ensures Patch(a + b, pos, target) == Patch(a, pos, target) + b
  {
    hide Offset;
  }

  lemma PatchLast(a: Bytes, op: Byte, b: Bytes, target: nat)
    requires |a| + 3 + |b| <= target
    ensures Patch(a + [op, 0xFF, 0xFF] + b, |a| + 1, target) == a + [op] + Offset(target - (|a| + 3)) + b
  {
    hide Offset;
  }

  lemma {:induction false} PatchAllBefore(a: Bytes, b: Bytes, patches: seq<nat>, target: nat)
    requires Within(patches, |a|) && |a| + |b| <= target
    ensures PatchAll(a + b, patches, target) == PatchAll(a, patches, target) + b
  {
    hide Patch;
    if patches != [] {
      var fewer := patches[..|patches| - 1];
      PatchAllBefore(a, b, fewer, target);
      PatchBefore(PatchAll(a, fewer, target), b, Last(patches), target);
    }
  }

  // ---- the generator

  class Chunk {
    var code: Bytes
    var constants: seq<Value>

    constructor ()
      ensures code == [] && constants == []
    {
      code, constants := [], [];
    }

    method WriteChunk(b: Byte)
      modifies this`code
      ensures code == old(code) + [b]
    {
      code := code + [b];
    }

    method AddConstant(v: Value) returns (i: nat)
      modifies this`constants
      ensures constants == old(constants) + [v] && i == |old(constants)|
    {
      constants := constants + [v];
      i := |constants| - 1;
    }

    method WriteStaticConst(v: Value)
      modifies this
      ensures code == old(code) + [OP_CONSTANT, |old(constants)| % 256] && constants == old(constants) + [v]
    {
      var i := AddConstant(v);
      WriteChunk(OP_CONSTANT);
      WriteChunk(i % 256);
    }

    /** A jump to nowhere yet, and where its offset is. */
    method EmitJump(op: Byte) returns (pos: nat)
      modifies this`code
      ensures code == old(code) + [op, 0xFF, 0xFF] && pos == |old(code)| + 1
    {
      WriteChunk(op);
      WriteChunk(0xFF);
      WriteChunk(0xFF);
      pos := |code| - 2;
    }

    /** Makes the jump whose offset is at pos reach the end of the code. */
    method PatchJump(pos: nat)
      requires pos + 2 <= |code|
      modifies this`code
      ensures code == Patch(old(code), pos, |old(code)|)
    {
      var jump := |code| - (pos + 2);
      code := code[pos := jump % 0x1_0000 / 256];
      code := code[pos + 1 := jump % 256];
    }

    /** Appends the code of an expression, and its constants. */
    method MunchExpr(e: Expr)
      requires Patchable(e)
      modifies this
      ensures code == old(code) + Gen(e, |old(constants)|)
      ensures constants == old(constants) + Consts(e)
      decreases Size(e), 1
    {
      hide Gen, GenPair, GenIn, ShortCircuit, Offset, Consts, ConstsIn, Size, SizeList, Patch, PatchAll, Resolved, Patchable, PatchableList;
      Shape(e, |constants|, 0);
      Operands(e);
      match e {
        case Literal(v) =>
          WriteStaticConst(v);
        case NullLiteral =>
          WriteChunk(OP_NULL);
          NoConstants(e);
        case Column(i) =>
          WriteChunk(OP_COLUMN);
          WriteChunk(i % 256);
          NoConstants(e);
        case Or(l, r) =>
          MunchCircuit(l, OP_JUMP_TRUE, r, OP_TRUE);
        case And(l, r) =>
          MunchCircuit(l, OP_JUMP_FALSE, r, OP_FALSE);
        case Not(x) =>
          MunchExpr(x);
          WriteChunk(OP_NOT);
        case Negate(x) =>
          MunchExpr(x);
          WriteChunk(OP_NEGATE);
        case IsNull(x, negated) =>
          MunchExpr(x);
          WriteChunk(if negated then OP_NOT_NULL else OP_IS_NULL);
        case Compare(cmp, l, r) =>
          MunchPair(l, r, ComparisonOp(cmp));
        case Arith(op, l, r) =>
          MunchPair(l, r, ArithmeticOp(op));
        case Between(x, a, b) =>
          MunchBetween(x, a, b);
        case In(x, list, negated) =>
          MunchIn(x, list, negated);
      }
    }

    method MunchPair(l: Expr, r: Expr, op: Byte)
      requires Patchable(l) && Patchable(r)
      modifies this
      ensures code == old(code) + GenPair(l, r, |old(constants)|, op)
      ensures constants == old(constants) + Consts(l) + Consts(r)
      decreases Size(l) + Size(r), 2
    {
      hide Gen, GenPair, GenIn, ShortCircuit, Offset, Consts, ConstsIn, Size, SizeList, Patch, PatchAll, Resolved, Patchable, PatchableList;
      SizeAtLeast(l);
      SizeAtLeast(r);
      PairCode(l, r, |constants|, op);
      MunchExpr(l);
      MunchExpr(r);
      WriteChunk(op);
    }

    /** Left or right: if the jump is taken the answer is known without the right operand. */
    method MunchCircuit(l: Expr, jump: Byte, r: Expr, answer: Byte)
      requires Patchable(l) && Patchable(r)
      modifies this
      ensures var k := |old(constants)|;
              code == old(code) + ShortCircuit(jump, Gen(l, k), Gen(r, k + |Consts(l)|), answer)
      ensures constants == old(constants) + (Consts(l) + Consts(r))
      decreases Size(l) + Size(r), 2
    {
      hide Gen, GenPair, GenIn, ShortCircuit, Offset, Consts, ConstsIn, Size, SizeList, Patch, PatchAll, Resolved, Patchable, PatchableList;
      SizeAtLeast(l);
      SizeAtLeast(r);
      ghost var k := |constants|;
      MunchExpr(l);
      ghost var left := code;
      var past := EmitJump(jump);
      MunchExpr(r);
      var done := EmitJump(OP_JUMP);
      FinishCircuit(past, done, answer, old(code), Gen(l, k), jump, Gen(r, k + |Consts(l)|));
    }

    /** What every short circuit ends in: the jump past the right operand is made to reach the answer, and the one before the answer to pass it. */
    method FinishCircuit(past: nat, done: nat, answer: Byte, ghost before: Bytes, ghost left: Bytes, ghost jump: Byte, ghost right: Bytes)
      requires code == before + left + [jump, 0xFF, 0xFF] + right + [OP_JUMP, 0xFF, 0xFF]
      requires past == |before| + |left| + 1 && done == |before| + |left| + |right| + 4
      modifies this`code
      ensures code == before + ShortCircuit(jump, left, right, answer)
    {
      hide ShortCircuit, Offset, Patch;
      ghost var a, b := before + left, right + [OP_JUMP, 0xFF, 0xFF];
      assert code == a + [jump, 0xFF, 0xFF] + b;
      PatchLast(a, jump, b, |code|);
      PatchJump(past);
      ghost var c := a + [jump] + Offset(|right| + 3) + right;
      assert code == c + [OP_JUMP, 0xFF, 0xFF];
      WriteChunk(answer);
      assert code == c + [OP_JUMP, 0xFF, 0xFF] + [answer];
      PatchLast(c, OP_JUMP, [answer], |code|);
      PatchJump(done);
      CircuitCode(before, jump, left, right, answer);
    }

    method MunchBetween(x: Expr, low: Expr, high: Expr)
      requires Patchable(x) && Patchable(low) && Patchable(high)
      modifies this
      ensures code == old(code) + Gen(Between(x, low, high), |old(constants)|)
      ensures constants == old(constants) + Consts(Between(x, low, high))
      decreases Size(x) + Size(low) + Size(high), 2
    {
      hide Gen, GenPair, GenIn, ShortCircuit, Offset, Consts, ConstsIn, Size, SizeList, Patch, PatchAll, Resolved, Patchable, PatchableList;
      SizeAtLeast(x);
      SizeAtLeast(low);
      SizeAtLeast(high);
      ghost var k := |constants|;
      BetweenShape(x, low, high, k);
      BetweenCode(x, low, high, k);
      MunchPair(x, low, OP_GREATER_EQUAL);
      var past := EmitJump(OP_JUMP_FALSE);
      ghost var kx := |constants|;
      MunchPair(x, high, OP_LESS_EQUAL);
      var done := EmitJump(OP_JUMP);
      FinishCircuit(past, done, OP_FALSE, old(code), GenPair(x, low, k, OP_GREATER_EQUAL), OP_JUMP_FALSE, GenPair(x, high, kx, OP_LESS_EQUAL));
    }

    method MunchIn(x: Expr, list: Exprs, negated: bool)
      requires Patchable(x) && PatchableList(list) && Length(list) <= MAX_PATCHES + 1
      modifies this
      ensures code == old(code) + Gen(In(x, list, negated), |old(constants)|)
      ensures constants == old(constants) + Consts(In(x, list, negated))
      decreases Size(x) + SizeList(list), 3
    {
      hide Gen, GenPair, GenIn, ShortCircuit, Offset, Consts, ConstsIn, Size, SizeList, Patch, PatchAll, Resolved, Patchable, PatchableList, Length;
      ghost var k := |constants|;
      InShape(x, list, negated, k);
      var foundPatches := new nat[MAX_PATCHES];
      var patchCount := MunchTests(x, list, foundPatches);
      var done := EmitJump(OP_JUMP);
      PatchFound(foundPatches, patchCount, old(code) + GenIn(x, list, k));
      WriteChunk(OP_TRUE);
      PatchLast(old(code) + GenIn(x, list, k), OP_JUMP, [OP_TRUE], |code|);
      PatchJump(done);
      if negated { WriteChunk(OP_NOT); }
      ListCode(old(code), GenIn(x, list, k), negated);
    }

    /** The comparisons with the values of a list, and where the jumps out of all but the last are to be patched. */
    method MunchTests(x: Expr, list: Exprs, foundPatches: array<nat>) returns (patchCount: nat)
      requires Patchable(x) && PatchableList(list) && Length(list) <= MAX_PATCHES + 1 && foundPatches.Length == MAX_PATCHES
      modifies this, foundPatches
      ensures patchCount <= MAX_PATCHES && Within(foundPatches[..patchCount], |code|)
      ensures PatchSome(code, foundPatches[..patchCount], |code| + 3) == old(code) + GenIn(x, list, |old(constants)|)
      ensures constants == old(constants) + ConstsIn(x, list)
      decreases Size(x) + SizeList(list), 2
    {
      hide Gen, GenPair, GenIn, ShortCircuit, Offset, Consts, ConstsIn, Size, SizeList, Patch, PatchAll, Resolved, Patchable, PatchableList, Length, PatchSome;
      ghost var done := old(code) + GenIn(x, list, |constants|);
      ghost var target := |done| + 3;
      patchCount := 0;
      var rest := list;
      assert foundPatches[..0] == [];
      PatchNone(code, target);
      while rest.More?
        invariant PatchableList(rest) && patchCount + Length(rest) == Length(list) && SizeList(rest) <= SizeList(list)
        invariant patchCount <= MAX_PATCHES && Within(foundPatches[..patchCount], |code|)
        invariant |code| + |GenIn(x, rest, |constants|)| + 3 == target
        invariant done == PatchSome(code, foundPatches[..patchCount], target) + GenIn(x, rest, |constants|)
        invariant old(constants) + ConstsIn(x, list) == constants + ConstsIn(x, rest)
        decreases rest
      {
        ListParts(rest);
        ListParts(rest.rest);
        ListShape(x, rest, |constants|);
        ghost var before, patches, test := code, foundPatches[..patchCount], GenPair(x, rest.head, |constants|, OP_EQUAL);
        MunchTest(x, rest.head, foundPatches, patchCount);
        patchCount := patchCount + 1;
        rest := rest.rest;
        TestPatched(before, test, patches, target, GenIn(x, rest, |constants|));
      }
      ListParts(rest);
      ListShape(x, rest, |constants|);
      PatchSomeBefore(code, GenIn(x, rest, |constants|), foundPatches[..patchCount], target);
      MunchPair(x, rest.head, OP_EQUAL);
    }

    /** One comparison that isn't the last, and the jump out of it. */
    method MunchTest(x: Expr, v: Expr, foundPatches: array<nat>, patchCount: nat)
      requires Patchable(x) && Patchable(v) && patchCount < foundPatches.Length
      modifies this, foundPatches
      ensures var test := GenPair(x, v, |old(constants)|, OP_EQUAL);
              && code == old(code) + test + [OP_JUMP_TRUE, 0xFF, 0xFF]
              && foundPatches[..patchCount + 1] == old(foundPatches[..patchCount]) + [|old(code)| + |test| + 1]
      ensures constants == old(constants) + Consts(x) + Consts(v)
      decreases Size(x) + Size(v), 3
    {
      hide Gen, GenPair, GenIn, ShortCircuit, Offset, Consts, ConstsIn, Size, SizeList, Patch, PatchAll, Resolved, Patchable, PatchableList;
      MunchPair(x, v, OP_EQUAL);
      var pos := EmitJump(OP_JUMP_TRUE);
      foundPatches[patchCount] := pos;
    }

    /** Makes the jumps out of the tests of a list reach the end of the code, past the jump that follows them. */
    method PatchFound(foundPatches: array<nat>, patchCount: nat, ghost tests: Bytes)
      requires patchCount <= foundPatches.Length
      requires |code| == |tests| + 3 && code[|tests|..] == [OP_JUMP, 0xFF, 0xFF]
      requires Within(foundPatches[..patchCount], |tests|)
      requires PatchSome(code[..|tests|], foundPatches[..patchCount], |code|) == tests
      modifies this`code
      ensures code == tests + [OP_JUMP, 0xFF, 0xFF]
    {
      hide Offset, Patch, PatchAll, PatchSome;
      ghost var emitted, target := code, |code|;
      assert code == code[..|tests|] + [OP_JUMP, 0xFF, 0xFF];
      PatchSomeBefore(code[..|tests|], [OP_JUMP, 0xFF, 0xFF], foundPatches[..patchCount], target);
      assert foundPatches[..0] == [];
      PatchNone(code, target);
      for i := 0 to patchCount
        invariant code == PatchSome(emitted, foundPatches[..i], target) && |code| == target
        invariant forall j :: 0 <= j < patchCount ==> foundPatches[j] + 2 <= |tests|
      {
        assert foundPatches[..i + 1] == foundPatches[..i] + [foundPatches[i]];
        PatchOne(emitted, foundPatches[..i], foundPatches[i], target);
        PatchJump(foundPatches[i]);
      }
    }
  }

  /** PatchAll where that applies. */
  function PatchSome(code: Bytes, patches: seq<nat>, target: nat): (r: Bytes)
    ensures Within(patches, |code|) && |code| <= target ==> |r| == |code|
  {
    if Within(patches, |code|) && |code| <= target then PatchAll(code, patches, target) else []
  }

  lemma PatchNone(code: Bytes, target: nat)
    requires |code| <= target
    ensures PatchSome(code, [], target) == code
  {
  }

  lemma PatchOne(code: Bytes, patches: seq<nat>, pos: nat, target: nat)
    requires Within(patches + [pos], |code|) && |code| <= target
    ensures Within(patches, |code|) && pos + 2 <= |code|
    ensures PatchSome(code, patches + [pos], target) == Patch(PatchAll(code, patches, target), pos, target)
    ensures PatchSome(code, patches, target) == PatchAll(code, patches, target)
  {
    hide Patch;
    assert (patches + [pos])[..|patches|] == patches;
    forall i | 0 <= i < |patches| ensures patches[i] + 2 <= |code| { assert (patches + [pos])[i] == patches[i]; }
    assert (patches + [pos])[|patches|] == pos;
  }

  lemma Operands(e: Expr)
    requires Patchable(e)
    ensures match e
            case Or(l, r) => Patchable(l) && Patchable(r)
            case And(l, r) => Patchable(l) && Patchable(r)
            case Compare(_, l, r) => Patchable(l) && Patchable(r)
            case Arith(_, l, r) => Patchable(l) && Patchable(r)
            case Not(x) => Patchable(x)
            case Negate(x) => Patchable(x)
            case IsNull(x, _) => Patchable(x)
            case Between(x, a, b) => Patchable(x) && Patchable(a) && Patchable(b)
            case In(x, list, _) => Patchable(x) && PatchableList(list) && Length(list) <= MAX_PATCHES + 1
            case _ => true
  {
  }

  lemma ListParts(list: Exprs)
    requires PatchableList(list)
    ensures Patchable(list.head) && Length(list) >= 1 && Size(list.head) < SizeList(list)
    ensures list.More? ==> PatchableList(list.rest) && Length(list) == 1 + Length(list.rest) && SizeList(list.rest) < SizeList(list)
  {
  }

  lemma NoConstants(e: Expr)
    requires e.NullLiteral? || e.Column?
    ensures Consts(e) == []
  {
  }

  lemma CircuitCode(before: Bytes, jump: Byte, left: Bytes, right: Bytes, answer: Byte)
    ensures before + left + [jump] + Offset(|right| + 3) + right + [OP_JUMP] + Offset(1) + [answer] == before + ShortCircuit(jump, left, right, answer)
  {
    hide Offset;
  }

  /** Emitting one test of a list and the jump after it. */
  lemma TestPatched(before: Bytes, test: Bytes, patches: seq<nat>, target: nat, after: Bytes)
    requires Within(patches, |before|) && |before| + |test| + 3 + |after| + 3 == target
    ensures var pos := |before| + |test| + 1;
            && Within(patches + [pos], |before| + |test| + 3)
            && PatchSome(before + test + [OP_JUMP_TRUE, 0xFF, 0xFF], patches + [pos], target) + after
               == PatchSome(before, patches, target) + (test + ([OP_JUMP_TRUE] + Offset(|after| + 3) + after))
  {
    hide Offset, Patch, PatchAll;
    var jump := [OP_JUMP_TRUE, 0xFF, 0xFF];
    var pos := |before| + |test| + 1;
    var done := PatchAll(before, patches, target);
    PatchAllBefore(before, test + jump, patches, target);
    assert before + (test + jump) == before + test + jump;
    PatchOne(before + test + jump, patches, pos, target);
    assert done + (test + jump) == done + test + jump + [];
    PatchLast(done + test, OP_JUMP_TRUE, [], target);
  }

  lemma PatchSomeBefore(a: Bytes, b: Bytes, patches: seq<nat>, target: nat)
    requires Within(patches, |a|) && |a| + |b| <= target
    ensures Within(patches, |a + b|) && PatchSome(a + b, patches, target) == PatchSome(a, patches, target) + b
  {
    PatchAllBefore(a, b, patches, target);
  }

  lemma ListCode(before: Bytes, tests: Bytes, negated: bool)
    ensures var not := if negated then [OP_NOT] else [];
            before + tests + [OP_JUMP] + Offset(1) + [OP_TRUE] + not == before + (tests + ([OP_JUMP] + Offset(1) + ([OP_TRUE] + not)))
  {
    hide Offset;
  }
}
