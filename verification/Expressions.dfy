// SQL values and expressions, and what an expression evaluates to.
module Expressions {
  import opened Base

  datatype Value = Null | Bool(b: bool) | Int(i: int) | Float(f: real) | Text(s: string) | U32(u: nat)

  /** A value, a runtime error, or an operation on operands of the wrong type that the machine doesn't check for. */
  datatype Outcome = Value(v: Value) | Error | Undefined

  datatype Comparison = Equals | NotEquals | Less | LessOrEqual | Greater | GreaterOrEqual | Like

  datatype Arithmetic = Add | Subtract | Multiply | Divide

  datatype Expr =
    | Literal(v: Value) | NullLiteral | Column(idx: nat)
    | Or(l: Expr, r: Expr) | And(l: Expr, r: Expr) | Not(e: Expr)
    | Compare(cmp: Comparison, l: Expr, r: Expr)
    | IsNull(e: Expr, negated: bool)
    | Between(e: Expr, low: Expr, high: Expr)
    | In(e: Expr, list: Exprs, negated: bool)
    | Arith(op: Arithmetic, l: Expr, r: Expr)
    | Negate(e: Expr)

  datatype Exprs = One(head: Expr) | More(head: Expr, rest: Exprs)

  // ---- operations on values

  /** Whether a is less than b: an error if their types differ or have no order. */
  function LessThan(a: Value, b: Value): Outcome {
    match (a, b)
    case (Bool(x), Bool(y)) => Value(Bool(!x && y))
    case (Float(x), Float(y)) => Value(Bool(x < y))
    case (Int(x), Int(y)) => Value(Bool(x < y))
    case (Null, Null) => Value(Bool(false))
    case (U32(x), U32(y)) => Value(Bool(x < y))
    case _ => Error
  }

  function Inverted(o: Outcome): Outcome {
    if o.Value? && o.v.Bool? then Value(Bool(!o.v.b)) else o
  }

  /** % stands for any characters and _ for exactly one. */
  function LikeMatch(str: string, pattern: string): bool
    decreases |pattern|, |str|
  {
    if pattern == "" then str == ""
    else if pattern[0] == '%' then LikeMatch(str, pattern[1..]) || (str != "" && LikeMatch(str[1..], pattern))
    else if str == "" then false
    else (pattern[0] == '_' || pattern[0] == str[0]) && LikeMatch(str[1..], pattern[1..])
  }

  function Compared(cmp: Comparison, a: Value, b: Value): Outcome {
    match cmp
    case Equals => Value(Bool(a == b))
    case NotEquals => Value(Bool(a != b))
    case Less => LessThan(a, b)
    case LessOrEqual => Inverted(LessThan(b, a))
    case Greater => LessThan(b, a)
    case GreaterOrEqual => Inverted(LessThan(a, b))
    case Like =>
      if a.Null? || b.Null? then Value(Null)
      else if a.Text? && b.Text? then Value(Bool(LikeMatch(a.s, b.s)))
      else Undefined
  }

  /** Integer division truncates toward zero. */
  function Quotient(x: int, y: int): int
    requires y != 0
  {
    if (x < 0) == (y < 0) then Magnitude(x) / Magnitude(y) else -(Magnitude(x) / Magnitude(y))
  }

  function Magnitude(x: int): nat { if x < 0 then -x else x }

  function Number(v: Value): real
    requires v.Int? || v.Float?
  {
    if v.Int? then v.i as real else v.f
  }

  function Calculated(op: Arithmetic, a: Value, b: Value): Outcome {
    if op == Divide && (b == Int(0) || b == Float(0.0)) then Error
    else if !(a.Int? || a.Float?) || !(b.Int? || b.Float?) then Undefined
    else if a.Int? && b.Int? then
      Value(Int(match op case Add => a.i + b.i case Subtract => a.i - b.i case Multiply => a.i * b.i case Divide => Quotient(a.i, b.i)))
    else
      Value(Float(match op
                  case Add => Number(a) + Number(b) case Subtract => Number(a) - Number(b)
                  case Multiply => Number(a) * Number(b) case Divide => Number(a) / Number(b)))
  }

  function Negated(a: Value): Outcome {
    if a.Int? then Value(Int(-a.i)) else if a.Float? then Value(Float(-a.f)) else Error
  }

  function Inverse(a: Value): Outcome {
    if a.Bool? then Value(Bool(!a.b)) else if a.Null? then Value(Bool(true)) else Undefined
  }

  /** AND gives up on its left operand when that is false or null, OR when it is true. */
  predicate IsFalse(v: Value) { v == Bool(false) || v == Null }

  predicate IsTrue(v: Value) { v == Bool(true) }

  // ---- evaluation

  function Eval(e: Expr, row: seq<Value>): Outcome
    decreases e
  {
    match e
    case Literal(v) => Value(v)
    case NullLiteral => Value(Null)
    case Column(i) => if i < |row| then Value(row[i]) else Undefined
    case Or(l, r) =>
      var a := Eval(l, row);
      if !a.Value? then a else if IsTrue(a.v) then Value(Bool(true)) else Eval(r, row)
    case And(l, r) =>
      var a := Eval(l, row);
      if !a.Value? then a else if IsFalse(a.v) then Value(Bool(false)) else Eval(r, row)
    case Not(x) =>
      var a := Eval(x, row);
      if !a.Value? then a else Inverse(a.v)
    case Compare(cmp, l, r) =>
      var a := Eval(l, row);
      if !a.Value? then a else var b := Eval(r, row); if !b.Value? then b else Compared(cmp, a.v, b.v)
    case IsNull(x, negated) =>
      var a := Eval(x, row);
      if !a.Value? then a else Value(Bool((a.v == Null) != negated))
    case Between(x, low, high) =>
      var a := Eval(x, row);
      if !a.Value? then a else
        var b := Eval(low, row);
        if !b.Value? then b else
          var above := Compared(GreaterOrEqual, a.v, b.v);
          if !above.Value? then above else if IsFalse(above.v) then Value(Bool(false)) else
            var c := Eval(high, row);
            if !c.Value? then c else Compared(LessOrEqual, a.v, c.v)
    case In(x, list, negated) =>
      var a := Eval(x, row);
      if !a.Value? then a else
        var found := EvalIn(a.v, list, row);
        if !found.Value? || !negated then found else Inverse(found.v)
    case Arith(op, l, r) =>
      var a := Eval(l, row);
      if !a.Value? then a else var b := Eval(r, row); if !b.Value? then b else Calculated(op, a.v, b.v)
    case Negate(x) =>
      var a := Eval(x, row);
      if !a.Value? then a else Negated(a.v)
  }

  /** Whether a value is in a list, looking no further than the first that equals it. */
  function EvalIn(a: Value, list: Exprs, row: seq<Value>): Outcome
    decreases list
  {
    var b := Eval(list.head, row);
    if !b.Value? then b
    else if a == b.v then Value(Bool(true))
    else match list case One(_) => Value(Bool(false)) case More(_, rest) => EvalIn(a, rest, row)
  }

  // ---- LIKE, as cutting a string into a piece for every character of the pattern

  predicate Fits(piece: string, c: char) { c == '%' || (|piece| == 1 && (c == '_' || piece[0] == c)) }

  function Joined(pieces: seq<string>): string { if pieces == [] then "" else pieces[0] + Joined(pieces[1..]) }

  ghost predicate Cuts(str: string, pattern: string, pieces: seq<string>) {
    |pieces| == |pattern| && Joined(pieces) == str && forall i :: 0 <= i < |pieces| ==> Fits(pieces[i], pattern[i])
  }

  lemma {:induction false} LikeCuts(str: string, pattern: string) returns (pieces: seq<string>)
    requires LikeMatch(str, pattern)
    ensures Cuts(str, pattern, pieces)
    decreases |pattern|, |str|
  {
    if pattern == "" {
      pieces := [];
    } else if pattern[0] == '%' && LikeMatch(str, pattern[1..]) {
      var rest := LikeCuts(str, pattern[1..]);
      pieces := [""] + rest;
      assert pieces[1..] == rest;
    } else if pattern[0] == '%' {
      var rest := LikeCuts(str[1..], pattern);
      pieces := [[str[0]] + rest[0]] + rest[1..];
      assert pieces[1..] == rest[1..] && str == [str[0]] + str[1..];
    } else {
      var rest := LikeCuts(str[1..], pattern[1..]);
      pieces := [[str[0]]] + rest;
      assert pieces[1..] == rest && str == [str[0]] + str[1..];
    }
  }

  lemma {:induction false} CutsLike(str: string, pattern: string, pieces: seq<string>)
    requires Cuts(str, pattern, pieces)
    ensures LikeMatch(str, pattern)
    decreases |pattern|, |str|
  {
    if pattern != "" {
      var first, rest := pieces[0], pieces[1..];
      assert str == first + Joined(rest);
      if pattern[0] == '%' && first != "" {
        var fewer := [first[1..]] + rest;
        assert fewer[1..] == rest && str[1..] == first[1..] + Joined(rest);
        CutsLike(str[1..], pattern, fewer);
      } else {
        assert str[|first|..] == Joined(rest);
        CutsLike(Joined(rest), pattern[1..], rest);
      }
    }
  }

  /** A string is like a pattern exactly when it can be cut into pieces that fit the pattern's characters in turn. */
  lemma LikeMeaning(str: string, pattern: string)
    ensures LikeMatch(str, pattern) <==> exists pieces :: Cuts(str, pattern, pieces)
  {
    if LikeMatch(str, pattern) { var pieces := LikeCuts(str, pattern); }
    if exists pieces :: Cuts(str, pattern, pieces) {
      var pieces :| Cuts(str, pattern, pieces);
      CutsLike(str, pattern, pieces);
    }
  }
}
