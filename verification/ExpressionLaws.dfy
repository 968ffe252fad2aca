// What the operators of SQL expressions mean, as laws of evaluation.
module ExpressionLaws {
  import opened Base
  import opened Expressions

  /** An expression has a value. */
  predicate Has(e: Expr, row: seq<Value>, v: Value) { Eval(e, row) == Outcome.Value(v) }

  predicate Holds(e: Expr, row: seq<Value>) { Has(e, row, Bool(true)) }

  predicate Fails(e: Expr, row: seq<Value>) { Has(e, row, Bool(false)) }

  /** Values of one type that has an order. */
  predicate Comparable(a: Value, b: Value) {
    (a.Null? && b.Null?) || (a.Bool? && b.Bool?) || (a.Int? && b.Int?) || (a.Float? && b.Float?) || (a.U32? && b.U32?)
  }

  predicate Positive(d: Value) { (d.Int? && d.i > 0) || (d.Float? && d.f > 0.0) }

  // ---- comparing

  /** An integer or a float is less than another exactly if something positive of its type, added to it, gives the other. */
  lemma LessByAdding(l: Expr, r: Expr, row: seq<Value>, a: Value, b: Value)
    requires Has(l, row, a) && Has(r, row, b) && ((a.Int? && b.Int?) || (a.Float? && b.Float?))
    ensures Holds(Compare(Less, l, r), row) || Fails(Compare(Less, l, r), row)
    ensures Holds(Compare(Less, l, r), row) <==> exists d {:trigger Positive(d)} :: Positive(d) && Has(Arith(Add, l, Literal(d)), row, b)
  {
    if Holds(Compare(Less, l, r), row) {
      var d := if a.Int? then Int(b.i - a.i) else Float(b.f - a.f);
      assert Positive(d) && Has(Arith(Add, l, Literal(d)), row, b);
    }
    if exists d {:trigger Positive(d)} :: Positive(d) && Has(Arith(Add, l, Literal(d)), row, b) {
      var d :| Positive(d) && Has(Arith(Add, l, Literal(d)), row, b);
      CalculationOf(Add, l, Literal(d), row, a, d);
    }
  }

  lemma CalculationOf(op: Arithmetic, l: Expr, r: Expr, row: seq<Value>, a: Value, b: Value)
    requires Has(l, row, a) && Has(r, row, b)
    ensures Eval(Arith(op, l, r), row) == Calculated(op, a, b)
  {
  }

  predicate CountsUp(x: nat, d: nat, y: nat) { d > 0 && x + d == y }

  /** Of truth values only false is less than true, nothing is less than null, and unsigned numbers are ordered by counting up. */
  lemma LessOfOthers(l: Expr, r: Expr, row: seq<Value>, a: Value, b: Value)
    requires Has(l, row, a) && Has(r, row, b)
    ensures a.Bool? && b.Bool? ==> (Holds(Compare(Less, l, r), row) <==> a == Bool(false) && b == Bool(true))
    ensures a.Null? && b.Null? ==> Fails(Compare(Less, l, r), row)
    ensures a.U32? && b.U32? ==> (Holds(Compare(Less, l, r), row) <==> exists d: nat :: CountsUp(a.u, d, b.u))
  {
    if a.U32? && b.U32? && a.u < b.u { assert CountsUp(a.u, b.u - a.u, b.u); }
  }

  /** Of two values of one type that has an order exactly one is less than the other, or they are equal. */
  lemma Trichotomy(l: Expr, r: Expr, row: seq<Value>, a: Value, b: Value)
    requires Has(l, row, a) && Has(r, row, b) && Comparable(a, b)
    ensures var less, equal, more := Holds(Compare(Less, l, r), row), Holds(Compare(Equals, l, r), row), Holds(Compare(Less, r, l), row);
            (less && !equal && !more) || (!less && equal && !more) || (!less && !equal && more)
    ensures Holds(Compare(Less, l, r), row) || Fails(Compare(Less, l, r), row)
  {
  }

  lemma Transitive(l: Expr, m: Expr, r: Expr, row: seq<Value>, a: Value, b: Value, c: Value)
    requires Has(l, row, a) && Has(m, row, b) && Has(r, row, c)
    requires Holds(Compare(Less, l, m), row) && Holds(Compare(Less, m, r), row)
    ensures Holds(Compare(Less, l, r), row)
  {
  }

  /** The other comparisons are the first, with its operands swapped, its answer negated, or both; and an error when it is. */
  lemma OtherComparisons(l: Expr, r: Expr, row: seq<Value>, a: Value, b: Value)
    requires Has(l, row, a) && Has(r, row, b)
    ensures Eval(Compare(Greater, l, r), row) == Eval(Compare(Less, r, l), row)
    ensures Eval(Compare(LessOrEqual, l, r), row) == Eval(Expr.Not(Compare(Less, r, l)), row)
    ensures Eval(Compare(GreaterOrEqual, l, r), row) == Eval(Expr.Not(Compare(Less, l, r)), row)
    ensures Eval(Compare(NotEquals, l, r), row) == Eval(Expr.Not(Compare(Equals, l, r)), row)
  {
  }

  /** Comparing by order is an error exactly if the values aren't of one type that has an order. Text has none. */
  lemma ComparingFails(cmp: Comparison, l: Expr, r: Expr, row: seq<Value>, a: Value, b: Value)
    requires Has(l, row, a) && Has(r, row, b) && cmp in {Less, LessOrEqual, Greater, GreaterOrEqual}
    ensures Eval(Compare(cmp, l, r), row) == Error <==> !Comparable(a, b)
    ensures Comparable(a, b) ==> Holds(Compare(cmp, l, r), row) || Fails(Compare(cmp, l, r), row)
  {
  }

  /** Equality is of type and value, and never fails; null equals null. */
  lemma Equality(l: Expr, r: Expr, row: seq<Value>, a: Value, b: Value)
    requires Has(l, row, a) && Has(r, row, b)
    ensures if a == b then Holds(Compare(Equals, l, r), row) else Fails(Compare(Equals, l, r), row)
  {
  }

  /** LIKE holds of two strings exactly if the first can be cut into pieces that fit the second's characters. It is null for a null. */
  lemma Likeness(l: Expr, r: Expr, row: seq<Value>, a: Value, b: Value)
    requires Has(l, row, a) && Has(r, row, b)
    ensures a.Null? || b.Null? ==> Has(Compare(Like, l, r), row, Null)
    ensures a.Text? && b.Text? ==> Holds(Compare(Like, l, r), row) || Fails(Compare(Like, l, r), row)
    ensures a.Text? && b.Text? ==> (Holds(Compare(Like, l, r), row) <==> exists pieces :: Cuts(a.s, b.s, pieces))
    ensures !a.Null? && !b.Null? && !(a.Text? && b.Text?) ==> Eval(Compare(Like, l, r), row) == Undefined
  {
    if a.Text? && b.Text? { LikeMeaning(a.s, b.s); }
  }

  // ---- ranges and lists

  /** BETWEEN is both comparisons, whatever its operands evaluate to, or fail to. */
  lemma BetweenIsBoth(x: Expr, low: Expr, high: Expr, row: seq<Value>)
    ensures Eval(Between(x, low, high), row) == Eval(And(Compare(GreaterOrEqual, x, low), Compare(LessOrEqual, x, high)), row)
    ensures Holds(Between(x, low, high), row) <==> Holds(Compare(LessOrEqual, low, x), row) && Holds(Compare(LessOrEqual, x, high), row)
  {
  }

  function Equalities(x: Expr, list: Exprs): Expr
    decreases list
  {
    match list
    case One(e) => Compare(Equals, x, e)
    case More(e, rest) => Or(Compare(Equals, x, e), Equalities(x, rest))
  }

  /** IN is a disjunction of equalities, and NOT IN its negation, whatever fails. */
  lemma {:induction false} InIsAny(x: Expr, list: Exprs, row: seq<Value>)
    ensures Eval(In(x, list, false), row) == Eval(Equalities(x, list), row)
    ensures Eval(In(x, list, true), row) == Eval(Expr.Not(Equalities(x, list)), row)
    decreases list
  {
    if list.More? { InIsAny(x, list.rest, row); }
  }

  lemma NullTest(x: Expr, row: seq<Value>, a: Value)
    requires Has(x, row, a)
    ensures if a == Null then Holds(IsNull(x, false), row) && Fails(IsNull(x, true), row) else Fails(IsNull(x, false), row) && Holds(IsNull(x, true), row)
  {
  }

  // ---- truth

  predicate Truth(v: Value) { v.Bool? || v.Null? }

  /** Over true, false and null: AND gives null only for true and null, OR only for anything but true and null, NOT never. */
  lemma TruthTables(l: Expr, r: Expr, row: seq<Value>, a: Value, b: Value)
    requires Has(l, row, a) && Has(r, row, b) && Truth(a) && Truth(b)
    ensures Holds(And(l, r), row) <==> a == Bool(true) && b == Bool(true)
    ensures Has(And(l, r), row, Null) <==> a == Bool(true) && b == Null
    ensures Holds(And(l, r), row) || Has(And(l, r), row, Null) || Fails(And(l, r), row)
    ensures Holds(Or(l, r), row) <==> a == Bool(true) || b == Bool(true)
    ensures Has(Or(l, r), row, Null) <==> a != Bool(true) && b == Null
    ensures Holds(Or(l, r), row) || Has(Or(l, r), row, Null) || Fails(Or(l, r), row)
    ensures if a == Bool(true) then Fails(Expr.Not(l), row) else Holds(Expr.Not(l), row)
  {
  }

  /** Negating both operands and the result turns AND into OR and OR into AND, with nulls as well. */
  lemma DeMorgan(l: Expr, r: Expr, row: seq<Value>, a: Value, b: Value)
    requires Has(l, row, a) && Has(r, row, b) && Truth(a) && Truth(b)
    ensures Eval(Expr.Not(And(l, r)), row) == Eval(Or(Expr.Not(l), Expr.Not(r)), row)
    ensures Eval(Expr.Not(Or(l, r)), row) == Eval(And(Expr.Not(l), Expr.Not(r)), row)
  {
  }

  /** What decides on the left isn't evaluated on the right: not even a failure there matters. Otherwise the right decides. */
  lemma ShortCircuits(l: Expr, r: Expr, row: seq<Value>, a: Value)
    requires Has(l, row, a) && Truth(a)
    ensures a != Bool(true) ==> Fails(And(l, r), row)
    ensures a == Bool(true) ==> Eval(And(l, r), row) == Eval(r, row) && Holds(Or(l, r), row)
    ensures a != Bool(true) ==> Eval(Or(l, r), row) == Eval(r, row)
  {
  }

  // ---- arithmetic

  /** The remainder of integer division has the sign of the dividend. */
  predicate Remainder(x: int, y: int, rem: int) { Magnitude(rem) < Magnitude(y) && (rem == 0 || (rem < 0 <==> x < 0)) }

  /** Adding integers is adding, and multiplying them is adding as often; subtracting undoes adding. */
  lemma Integers(l: Expr, r: Expr, row: seq<Value>, x: int, y: int)
    requires Has(l, row, Int(x)) && Has(r, row, Int(y))
    ensures Has(Arith(Add, l, r), row, Int(x + y)) && Eval(Arith(Add, l, r), row) == Eval(Arith(Add, r, l), row)
    ensures Has(Arith(Subtract, Arith(Add, l, r), r), row, Int(x)) && Has(Arith(Add, Arith(Subtract, l, r), r), row, Int(x))
    ensures y == 0 ==> Has(Arith(Multiply, l, r), row, Int(0))
    ensures Eval(Arith(Multiply, l, Arith(Add, r, Literal(Int(1)))), row) == Eval(Arith(Add, Arith(Multiply, l, r), l), row)
  {
    var a, b := Int(x), Int(y);
    CalculationOf(Add, l, r, row, a, b); CalculationOf(Add, r, l, row, b, a);
    CalculationOf(Subtract, l, r, row, a, b); CalculationOf(Multiply, l, r, row, a, b);
    hide Eval;
    CalculationOf(Subtract, Arith(Add, l, r), r, row, Int(x + y), b);
    CalculationOf(Add, Arith(Subtract, l, r), r, row, Int(x - y), b);
    Successor(l, r, row, x, y);
  }

  lemma Successor(l: Expr, r: Expr, row: seq<Value>, x: int, y: int)
    requires Has(l, row, Int(x)) && Has(r, row, Int(y))
    ensures Eval(Arith(Multiply, l, Arith(Add, r, Literal(Int(1)))), row) == Eval(Arith(Add, Arith(Multiply, l, r), l), row)
  {
    CalculationOf(Add, r, Literal(Int(1)), row, Int(y), Int(1));
    CalculationOf(Multiply, l, r, row, Int(x), Int(y));
    CalculationOf(Multiply, l, Arith(Add, r, Literal(Int(1))), row, Int(x), Int(y + 1));
    CalculationOf(Add, Arith(Multiply, l, r), l, row, Int(x * y), Int(x));
    assert x * (y + 1) == x * y + x;
  }

  /** Dividing integers undoes multiplying them, and multiplying again gives back the dividend up to a remainder of its sign. */
  lemma Quotients(l: Expr, r: Expr, row: seq<Value>, x: int, y: int)
    requires Has(l, row, Int(x)) && Has(r, row, Int(y)) && y != 0
    ensures Has(Arith(Divide, Arith(Multiply, l, r), r), row, Int(x))
    ensures exists rem {:trigger Remainder(x, y, rem)} ::
              Remainder(x, y, rem) && Has(Arith(Add, Arith(Multiply, Arith(Divide, l, r), r), Literal(Int(rem))), row, Int(x))
  {
    var q := Quotient(x, y);
    var rem := x - q * y;
    QuotientOf(x, y);
    ProductBack(x, y);
    CalculationOf(Multiply, l, r, row, Int(x), Int(y));
    CalculationOf(Divide, Arith(Multiply, l, r), r, row, Int(x * y), Int(y));
    CalculationOf(Divide, l, r, row, Int(x), Int(y));
    CalculationOf(Multiply, Arith(Divide, l, r), r, row, Int(q), Int(y));
    CalculationOf(Add, Arith(Multiply, Arith(Divide, l, r), r), Literal(Int(rem)), row, Int(q * y), Int(rem));
    hide Eval, Quotient;
    assert Remainder(x, y, rem);
  }

  lemma QuotientOf(x: int, y: int)
    requires y != 0
    ensures Remainder(x, y, x - Quotient(x, y) * y)
  {
    var m, n := Magnitude(x), Magnitude(y);
    assert m == m / n * n + m % n;
    if (x < 0) == (y < 0) {
      if y < 0 { assert m / n * y == -(m / n * n); }
    } else {
      if y < 0 { assert -(m / n) * y == m / n * n; } else { assert -(m / n) * y == -(m / n * n); }
    }
  }

  lemma ProductBack(x: int, y: int)
    requires y != 0
    ensures Quotient(x * y, y) == x
  {
    var m, n := Magnitude(x), Magnitude(y);
    SignOf(x, y);
    NatBack(m, n);
  }

  lemma SignOf(x: int, y: int)
    requires y != 0
    ensures Magnitude(x * y) == Magnitude(x) * Magnitude(y) && (x != 0 ==> (x * y < 0 <==> (x < 0) != (y < 0)))
  {
    if x < 0 {
      assert x * y == -((-x) * y);
      if y < 0 { assert (-x) * y == -((-x) * (-y)); }
    } else if y < 0 {
      assert x * y == -(x * (-y));
    }
  }

  lemma NatBack(m: nat, n: nat)
    requires n > 0
    ensures m * n / n == m
  {
    var q := m * n / n;
    assert m * n == q * n + m * n % n;
    OneMore(q, n);
    OneMore(m, n);
    if q + 1 <= m { Monotone(q + 1, m, n); }
    if m + 1 <= q { Monotone(m + 1, q, n); }
  }

  lemma OneMore(q: nat, n: nat)
    ensures (q + 1) * n == q * n + n
  {
  }

  lemma Monotone(a: nat, b: nat, n: nat)
    requires a <= b
    ensures a * n <= b * n
  {
  }

  /** If either number is a float, so is the result, and dividing and subtracting undo multiplying and adding exactly. */
  lemma Floats(l: Expr, r: Expr, row: seq<Value>, a: Value, b: Value)
    requires Has(l, row, a) && Has(r, row, b) && (a.Int? || a.Float?) && (b.Int? || b.Float?) && !(a.Int? && b.Int?)
    ensures Has(Arith(Add, l, r), row, Float(Number(a) + Number(b)))
    ensures Has(Arith(Subtract, Arith(Add, l, r), r), row, Float(Number(a))) && Has(Arith(Add, Arith(Subtract, l, r), r), row, Float(Number(a)))
    ensures Number(b) != 0.0 ==> Has(Arith(Divide, Arith(Multiply, l, r), r), row, Float(Number(a)))
    ensures Number(b) != 0.0 ==> Has(Arith(Multiply, Arith(Divide, l, r), r), row, Float(Number(a)))
    ensures Number(b) == 1.0 ==> Has(Arith(Multiply, l, r), row, Float(Number(a)))
  {
    hide Eval, Calculated;
    NonZero(b);
    var x, y := Number(a), Number(b);
    RealOf(a, b); RealOf(Float(x + y), b); RealOf(Float(x - y), b);
    CalculationOf(Add, l, r, row, a, b); CalculationOf(Subtract, l, r, row, a, b); CalculationOf(Multiply, l, r, row, a, b);
    CalculationOf(Subtract, Arith(Add, l, r), r, row, Float(x + y), b);
    CalculationOf(Add, Arith(Subtract, l, r), r, row, Float(x - y), b);
    var p := Calculated(Multiply, a, b).v.f;
    if y != 0.0 {
      var q := Calculated(Divide, a, b).v.f;
      RealOf(Float(p), b); RealOf(Float(q), b);
      CalculationOf(Divide, l, r, row, a, b);
      CalculationOf(Divide, Arith(Multiply, l, r), r, row, Float(p), b);
      CalculationOf(Multiply, Arith(Divide, l, r), r, row, Float(q), b);
      RealBack(x, y, p, q);
    }
    TimesOne(x);
  }

  lemma RealOf(a: Value, b: Value)
    requires (a.Int? || a.Float?) && (b.Int? || b.Float?) && !(a.Int? && b.Int?)
    ensures Calculated(Add, a, b) == Outcome.Value(Float(Number(a) + Number(b)))
    ensures Calculated(Subtract, a, b) == Outcome.Value(Float(Number(a) - Number(b)))
    ensures var o := Calculated(Multiply, a, b); o.Value? && o.v.Float? && o.v.f == Number(a) * Number(b)
    ensures Number(b) != 0.0 ==> var o := Calculated(Divide, a, b); o.Value? && o.v.Float? && o.v.f == Number(a) / Number(b)
  {
    NonZero(b);
  }

  lemma NonZero(b: Value)
    requires b.Int? || b.Float?
    ensures b != Int(0) && b != Float(0.0) <==> Number(b) != 0.0
  {
  }

  lemma RealBack(x: real, y: real, p: real, q: real)
    requires y != 0.0 && p == x * y && q == x / y
    ensures p / y == x && q * y == x
  {
    Dividing(p, y);
    Dividing(x, y);
    Cancel(p / y, x, y);
  }

  lemma Dividing(z: real, y: real)
    requires y != 0.0
    ensures z / y * y == z
  {
  }

  lemma Cancel(a: real, b: real, y: real)
    requires y != 0.0
    ensures a * y == b * y ==> a == b
  {
    assert a * y - b * y == (a - b) * y;
    if a != b { assert (a - b) * y != 0.0; }
  }

  lemma TimesOne(x: real)
    ensures x * 1.0 == x
  {
  }

  /** Arithmetic fails exactly by dividing by zero; other than on numbers it is undefined. */
  lemma ArithmeticFails(op: Arithmetic, l: Expr, r: Expr, row: seq<Value>, a: Value, b: Value)
    requires Has(l, row, a) && Has(r, row, b)
    ensures Eval(Arith(op, l, r), row) == Error <==> op == Divide && (b == Int(0) || b == Float(0.0))
    ensures Eval(Arith(op, l, r), row) == Undefined <==>
              !(op == Divide && (b == Int(0) || b == Float(0.0))) && !((a.Int? || a.Float?) && (b.Int? || b.Float?))
  {
  }

  /** A number and its negation add up to zero, of the same type. Nothing else can be negated. */
  lemma Negation(x: Expr, row: seq<Value>, a: Value)
    requires Has(x, row, a)
    ensures a.Int? ==> Has(Arith(Add, x, Negate(x)), row, Int(0))
    ensures a.Float? ==> Has(Arith(Add, x, Negate(x)), row, Float(0.0))
    ensures Eval(Negate(x), row) == Error <==> !a.Int? && !a.Float?
  {
  }

  // ---- failing

  /** The operands that are always evaluated. */
  function Needed(e: Expr): seq<Expr> {
    match e
    case Literal(_) => [] case NullLiteral => [] case Column(_) => []
    case Or(l, _) => [l] case And(l, _) => [l] case Not(x) => [x]
    case Compare(_, l, r) => [l, r] case IsNull(x, _) => [x]
    case Between(x, low, _) => [x, low] case In(x, list, _) => [x, list.head]
    case Arith(_, l, r) => [l, r] case Negate(x) => [x]
  }

  /** An expression fails as the first of the operands it needs does. */
  lemma FirstFailure(e: Expr, row: seq<Value>, i: nat)
    requires i < |Needed(e)| && !Eval(Needed(e)[i], row).Value? && forall j :: 0 <= j < i ==> Eval(Needed(e)[j], row).Value?
    ensures Eval(e, row) == Eval(Needed(e)[i], row)
  {
    if i > 0 { assert Eval(Needed(e)[0], row).Value?; }
  }
}
