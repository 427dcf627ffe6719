/** Typed arithmetic in riperipe/eval.rip: the code generated with plain C numbers against the code that works on tagged
    values node by node. */
module Unboxed {
  import opened Options
  import opened NumberTheory
  import opened Probing
  import opened Values

  datatype Arith = Plus | Minus | Star

  datatype Order = Lt | Lte | Gt | Gte

  /** The third entry of binary_ops says which kind an operator is. */
  datatype Op = Numeric(arith: Arith) | BoolNumeric(order: Order)

  /** A local is declared as Integer, or is anything of which nothing is known. */
  datatype Expr = Lit(i: nat) | Local(slot: nat, isInteger: bool) | Bin(op: Op, left: Expr, right: Expr)

  /** C text that is a tagged value: a variable, int64_to_val, pack_bool, and a call of op_plus and the like. */
  datatype Code = CLocal(slot: nat) | CBox(n: Number) | CBoxBool(b: Number) | CCall(op: Op, l: Code, r: Code)

  /** C text that is a number: a literal, val_to_int64, and C operators. */
  datatype Number = CLit(i: nat) | CUnbox(c: Code) | CArith(arith: Arith, l: Number, r: Number)
    | CCompare(order: Order, l: Number, r: Number)

  /** The pairs of type and text: "int64", "Integer", "bool" and "?". */
  datatype Typed = TInt64(n: Number) | TInteger(c: Code) | TBool(b: Number) | TAny(c: Code)

  // ----- the generator -----

  function ValueBarrier(t: Typed): Code {
    match t
    case TInt64(n) => CBox(n)
    case TBool(b) => CBoxBool(b)
    case TInteger(c) => c
    case TAny(c) => c
  }

  predicate NumericType(t: Typed) {
    t.TInt64? || t.TInteger?
  }

  function NumericProc(t: Typed): Number
    requires NumericType(t)
  {
    match t
    case TInt64(n) => n
    case TInteger(c) => CUnbox(c)
  }

  /** numeric_op and bool_numeric_op; None where an operand is not known to be a number. */
  function TypedOp(a: Typed, b: Typed, op: Op): Option<Typed> {
    if !NumericType(a) || !NumericType(b) then None
    else
      match op
      case Numeric(arith) => Some(TInt64(CArith(arith, NumericProc(a), NumericProc(b))))
      case BoolNumeric(order) => Some(TBool(CCompare(order, NumericProc(a), NumericProc(b))))
  }

  /** eval_expr, with the TYPES optimization on or off. */
  function EvalExpr(e: Expr, types: bool): Typed {
    match e
    case Lit(i) => TInt64(CLit(i))
    case Local(slot, isInteger) => if isInteger then TInteger(CLocal(slot)) else TAny(CLocal(slot))
    case Bin(op, left, right) =>
      var a, b := EvalExpr(left, types), EvalExpr(right, types);
      var result := if types then TypedOp(a, b, op) else None;
      if result.Some? then result.value else TAny(CCall(op, ValueBarrier(a), ValueBarrier(b)))
  }

  // ----- running the code -----

  const INT: int := 0x1_0000_0000
  const Q: int := 0x4000_0000_0000_0000

  /** The number in the signed range of `m` that equals `i` modulo `m`. */
  function Wrap(m: int, i: int): int
    requires m > 0
  {
    i - (i + m / 2) / m * m
  }

  function Apply(op: Arith, x: int, y: int): int {
    match op case Plus => x + y case Minus => x - y case Star => x * y
  }

  predicate Holds(op: Order, x: int, y: int) {
    match op case Lt => x < y case Lte => x <= y case Gt => x > y case Gte => x >= y
  }

  predicate IsInt(w: nat) {
    w % 4 == 1
  }

  function PackBool(b: bool): nat {
    if b then 8 else 4
  }

  /** What op_plus and the like do with operands that are not both integers; None for an exception. */
  type Slow = (Op, nat, nat) -> Option<nat>

  /** The generated operator on tagged values. */
  function OpCall(slow: Slow, op: Op, a: nat, b: nat): Option<nat> {
    if !IsInt(a) || !IsInt(b) then slow(op, a, b)
    else
      match op
      case Numeric(arith) => Some(PackInt(Apply(arith, UnpackInt(a), UnpackInt(b))))
      case BoolNumeric(order) => Some(PackBool(Holds(order, UnpackInt(a), UnpackInt(b))))
  }

  /** Whether C gives the number its 64-bit type; a literal that fits an int is an int. */
  predicate Long(n: Number) {
    match n
    case CLit(i) => i >= INT / 2
    case CUnbox(_) => true
    case CArith(_, l, r) => Long(l) || Long(r)
    case CCompare(_, _, _) => false
  }

  /** The value's 64-bit word, or None for an exception. */
  function RunC(c: Code, env: nat -> nat, slow: Slow): Option<nat> {
    match c
    case CLocal(slot) => Some(env(slot))
    case CBox(n) => (var x := RunNumber(n, env, slow); if x.None? then None else Some(PackInt(x.value)))
    case CBoxBool(b) => (var x := RunNumber(b, env, slow); if x.None? then None else Some(PackBool(x.value != 0)))
    case CCall(op, l, r) =>
      (var x, y := RunC(l, env, slow), RunC(r, env, slow);
       if x.None? || y.None? then None else OpCall(slow, op, x.value, y.value))
  }

  /** The number in C, or None for an exception. Signed arithmetic wraps, at the width of its type. */
  function RunNumber(n: Number, env: nat -> nat, slow: Slow): Option<int> {
    match n
    case CLit(i) => Some(Wrap(WORD, i))
    case CUnbox(c) => (var w := RunC(c, env, slow); if w.None? || !IsInt(w.value) then None else Some(UnpackInt(w.value)))
    case CArith(arith, l, r) =>
      (var x, y := RunNumber(l, env, slow), RunNumber(r, env, slow);
       if x.None? || y.None? then None else Some(Wrap(if Long(n) then WORD else INT, Apply(arith, x.value, y.value))))
    case CCompare(order, l, r) =>
      (var x, y := RunNumber(l, env, slow), RunNumber(r, env, slow);
       if x.None? || y.None? then None else Some(if Holds(order, x.value, y.value) then 1 else 0))
  }

  // ----- arithmetic modulo powers of two -----

  predicate Same(m: int, x: int, y: int)
    requires m > 0
  {
    (x - y) % m == 0
  }

  lemma SameBy(m: int, x: int, y: int, k: int)
    requires m > 0 && x - y == k * m
    ensures Same(m, x, y)
  {
    DivIs(x - y, m, k);
  }

  /** Wrapping gives a number in range that is the same modulo `m`; numbers that are the same wrap to one. */
  lemma WrapSame(m: int, x: int)
    requires m > 0 && m % 2 == 0
    ensures Same(m, Wrap(m, x), x) && -(m / 2) <= Wrap(m, x) < m / 2
  {
    SameBy(m, Wrap(m, x), x, -((x + m / 2) / m));
  }

  lemma WrapExactly(m: int, x: int, y: int)
    requires m > 0 && m % 2 == 0
    ensures Wrap(m, x) == Wrap(m, y) <==> Same(m, x, y)
  {
    var a, b := (x + m / 2) / m, (y + m / 2) / m;
    if Same(m, x, y) {
      var k := (x - y) / m;
      assert (b + k) * m == b * m + k * m;
      DivIs(x + m / 2, m, b + k);
    }
    if Wrap(m, x) == Wrap(m, y) {
      SameBy(m, x, y, a - b);
    }
  }

  lemma InRange(m: int, x: int)
    requires m > 0 && m % 2 == 0 && -(m / 2) <= x < m / 2
    ensures Wrap(m, x) == x
  {
    DivIs(x + m / 2, m, 0);
  }

  lemma ApplySame(m: int, op: Arith, x: int, y: int, u: int, v: int)
    requires m > 0 && Same(m, x, u) && Same(m, y, v)
    ensures Same(m, Apply(op, x, y), Apply(op, u, v))
  {
    var j, k := (x - u) / m, (y - v) / m;
    match op
    case Plus => SameBy(m, x + y, u + v, j + k);
    case Minus => SameBy(m, x - y, u - v, j - k);
    case Star =>
      assert x * y - u * v == x * (y - v) + (x - u) * v;
      assert x * (k * m) == (x * k) * m && (j * m) * v == (j * v) * m;
      SameBy(m, x * y, u * v, x * k + j * v);
  }

  lemma SameTrans(m: int, x: int, y: int, z: int)
    requires m > 0 && Same(m, x, y) && Same(m, y, z)
    ensures Same(m, x, z) && Same(m, z, x)
  {
    SameBy(m, x, z, (x - y) / m + (y - z) / m);
    SameBy(m, z, x, -((x - y) / m + (y - z) / m));
  }

  lemma SameInWord(x: int, y: int)
    requires Same(WORD, x, y)
    ensures Same(Q, x, y)
  {
    SameBy(Q, x, y, 4 * ((x - y) / WORD));
  }

  // ----- tagged integers -----

  /** A word in the range that is `x` less a multiple of 2^62 is the sign-extended `x`. */
  lemma WrapIs(x: int, y: int, k: int)
    requires y == x + k * Q && -(Q / 2) <= y < Q / 2
    ensures Wrap(Q, x) == y
  {
    hide Wrap, Same;
    SameBy(Q, y, x, k);
    WrapExactly(Q, y, x);
    InRange(Q, y);
  }

  lemma UnpackWord(w: nat, y: int)
    requires w < WORD && w == 4 * y + 1
    ensures UnpackInt(w) == if w < WORD / 2 then y else y - Q
  {
  }

  lemma PackedWord(x: int)
    ensures var w, y := PackInt(x), x - (x * 4 + 1) / WORD * Q; w < WORD && w == 4 * y + 1 && IsInt(w)
  {
  }

  /** A tagged integer keeps 62 bits: unpacking gives them back with their sign. */
  lemma UnpackPack(x: int)
    ensures IsInt(PackInt(x)) && UnpackInt(PackInt(x)) == Wrap(Q, x)
  {
    hide PackInt, UnpackInt, IsInt, Wrap;
    PackedWord(x);
    var q := (x * 4 + 1) / WORD;
    UnpackWord(PackInt(x), x - q * Q);
    if PackInt(x) < WORD / 2 {
      WrapIs(x, x - q * Q, -q);
    } else {
      WrapIs(x, x - q * Q - Q, -q - 1);
    }
  }

  /** Two integers have one tagged word if and only if they are the same in 62 bits. */
  lemma PackExactly(x: int, y: int)
    ensures PackInt(x) == PackInt(y) <==> Same(Q, x, y)
  {
    UnpackPack(x);
    UnpackPack(y);
    hide UnpackInt, IsInt, Wrap;
    WrapExactly(Q, x, y);
    if Same(Q, x, y) {
      assert x * 4 + 1 - (y * 4 + 1) == WORD * ((x - y) / Q);
      SameResidue(x * 4 + 1, y * 4 + 1, WORD);
    }
  }

  /** A tagged integer is what its value packs to. */
  lemma PackUnpack(w: nat)
    requires IsInt(w) && w < WORD
    ensures PackInt(UnpackInt(w)) == w && -(Q / 2) <= UnpackInt(w) < Q / 2
  {
    if w < WORD / 2 {
      assert UnpackInt(w) * 4 + 1 == w;
    } else {
      assert UnpackInt(w) * 4 + 1 == w - WORD;
    }
  }

  /** Boxing gives back the integer exactly when it fits 62 bits. */
  lemma FitsExactly(x: int)
    ensures UnpackInt(PackInt(x)) == x <==> -(Q / 2) <= x < Q / 2
  {
    UnpackPack(x);
    WrapSame(Q, x);
    if -(Q / 2) <= x < Q / 2 {
      InRange(Q, x);
    }
  }

  // ----- what an expression over numbers is, and what C makes of it -----

  /** Locals hold words, and those declared Integer hold integers. */
  predicate WellTyped(e: Expr, env: nat -> nat) {
    match e
    case Lit(_) => true
    case Local(slot, isInteger) => env(slot) < WORD && (isInteger ==> IsInt(env(slot)))
    case Bin(_, left, right) => WellTyped(left, env) && WellTyped(right, env)
  }

  /** Arithmetic over literals and Integer locals. */
  predicate IsNumber(e: Expr) {
    match e
    case Lit(_) => true
    case Local(_, isInteger) => isInteger
    case Bin(op, left, right) => op.Numeric? && IsNumber(left) && IsNumber(right)
  }

  /** Arithmetic over small literals only, for which C uses int. */
  predicate Narrow(e: Expr) {
    match e
    case Lit(i) => i < INT / 2
    case Local(_, _) => false
    case Bin(op, left, right) => op.Numeric? && Narrow(left) && Narrow(right)
  }

  /** The value in unbounded integers. */
  function Exact(e: Expr, env: nat -> nat): int
    requires IsNumber(e)
  {
    match e
    case Lit(i) => i
    case Local(slot, _) => UnpackInt(env(slot))
    case Bin(op, left, right) =>
      match op.arith
      case Plus => Exact(left, env) + Exact(right, env)
      case Minus => Exact(left, env) - Exact(right, env)
      case Star => Exact(left, env) * Exact(right, env)
  }

  /** The same, but with each part over small literals wrapped once, at the width of an int. */
  function ExactInC(e: Expr, env: nat -> nat): int
    requires IsNumber(e)
  {
    if Narrow(e) then Wrap(INT, Exact(e, env))
    else
      match e
      case Lit(i) => i
      case Local(slot, _) => UnpackInt(env(slot))
      case Bin(op, left, right) =>
        match op.arith
        case Plus => ExactInC(left, env) + ExactInC(right, env)
        case Minus => ExactInC(left, env) - ExactInC(right, env)
        case Star => ExactInC(left, env) * ExactInC(right, env)
  }

  /** The number that the unboxed code computes. */
  function InC(e: Expr, env: nat -> nat): int
    requires IsNumber(e)
  {
    Wrap(WORD, ExactInC(e, env))
  }

  /** The number that the tagged code computes. */
  function Tagged(e: Expr, env: nat -> nat): int
    requires IsNumber(e)
  {
    Wrap(Q, Exact(e, env))
  }

  lemma NarrowInC(e: Expr, env: nat -> nat)
    requires IsNumber(e) && Narrow(e)
    ensures InC(e, env) == Wrap(INT, Exact(e, env))
  {
    WrapSame(INT, Exact(e, env));
    InRange(WORD, Wrap(INT, Exact(e, env)));
  }

  lemma ExactIs(e: Expr, env: nat -> nat)
    requires IsNumber(e) && e.Bin?
    ensures Exact(e, env) == Apply(e.op.arith, Exact(e.left, env), Exact(e.right, env))
    ensures ExactInC(e, env) ==
      if Narrow(e) then Wrap(INT, Exact(e, env)) else Apply(e.op.arith, ExactInC(e.left, env), ExactInC(e.right, env))
  {
    hide Wrap;
  }

  /** One C operator, at either width. */
  lemma ArithInC(e: Expr, env: nat -> nat)
    requires IsNumber(e) && e.Bin?
    ensures InC(e, env)
      == Wrap(if Narrow(e) then INT else WORD, Apply(e.op.arith, InC(e.left, env), InC(e.right, env)))
  {
    hide Wrap, Same, Exact, ExactInC, Apply;
    ExactIs(e, env);
    var op, l, r := e.op.arith, e.left, e.right;
    if Narrow(e) {
      NarrowInC(e, env);
      NarrowInC(l, env);
      NarrowInC(r, env);
      var x, y := Exact(l, env), Exact(r, env);
      WrapSame(INT, x);
      WrapSame(INT, y);
      ApplySame(INT, op, Wrap(INT, x), Wrap(INT, y), x, y);
      WrapExactly(INT, Apply(op, Wrap(INT, x), Wrap(INT, y)), Apply(op, x, y));
    } else {
      var x, y := ExactInC(l, env), ExactInC(r, env);
      WrapSame(WORD, x);
      WrapSame(WORD, y);
      ApplySame(WORD, op, Wrap(WORD, x), Wrap(WORD, y), x, y);
      WrapExactly(WORD, Apply(op, Wrap(WORD, x), Wrap(WORD, y)), Apply(op, x, y));
    }
  }

  /** The text generated for a number, with types, is a C number that runs to what the expression is in C. */
  lemma {:induction false} UnboxedRuns(e: Expr, env: nat -> nat, slow: Slow)
    requires IsNumber(e) && WellTyped(e, env)
    ensures var t := EvalExpr(e, true);
      && NumericType(t) && Long(NumericProc(t)) == !Narrow(e)
      && RunNumber(NumericProc(t), env, slow) == Some(InC(e, env))
      && RunC(ValueBarrier(t), env, slow) == Some(PackInt(InC(e, env)))
  {
    match e
    case Lit(i) =>
      if i < INT / 2 {
        NarrowInC(e, env);
        InRange(INT, i);
        InRange(WORD, i);
      }
    case Local(slot, _) =>
      PackUnpack(env(slot));
      InRange(WORD, UnpackInt(env(slot)));
    case Bin(_, left, right) =>
      UnboxedRuns(left, env, slow);
      UnboxedRuns(right, env, slow);
      ArithInC(e, env);
  }

  /** The text generated without types runs to the exact value, in 62 bits. */
  lemma {:induction false} TaggedRuns(e: Expr, env: nat -> nat, slow: Slow)
    requires IsNumber(e) && WellTyped(e, env)
    ensures RunC(ValueBarrier(EvalExpr(e, false)), env, slow) == Some(PackInt(Exact(e, env)))
  {
    match e
    case Lit(i) =>
      WrapSame(WORD, i);
      SameInWord(Wrap(WORD, i), i);
      PackExactly(Wrap(WORD, i), i);
    case Local(slot, _) =>
      PackUnpack(env(slot));
    case Bin(op, left, right) =>
      TaggedRuns(left, env, slow);
      TaggedRuns(right, env, slow);
      ExactIs(e, env);
      hide Exact, Apply, OpCall, PackInt;
      OpCallIsExact(op.arith, Exact(left, env), Exact(right, env), slow);
  }

  /** The tagged operator does arithmetic in 62 bits. */
  lemma OpCallIsExact(op: Arith, x: int, y: int, slow: Slow)
    ensures OpCall(slow, Numeric(op), PackInt(x), PackInt(y)) == Some(PackInt(Apply(op, x, y)))
  {
    UnpackPack(x);
    UnpackPack(y);
    WrapSame(Q, x);
    WrapSame(Q, y);
    hide PackInt, UnpackInt, IsInt, Same, Apply, Wrap;
    ApplySame(Q, op, Wrap(Q, x), Wrap(Q, y), x, y);
    PackExactly(Apply(op, Wrap(Q, x), Wrap(Q, y)), Apply(op, x, y));
  }

  // ----- the operators, sign by sign -----

  /** The tagged operators on two integers. */
  lemma TaggedOperators(x: int, y: int, slow: Slow)
    ensures OpCall(slow, Numeric(Plus), PackInt(x), PackInt(y)) == Some(PackInt(x + y))
    ensures OpCall(slow, Numeric(Minus), PackInt(x), PackInt(y)) == Some(PackInt(x - y))
    ensures OpCall(slow, Numeric(Star), PackInt(x), PackInt(y)) == Some(PackInt(x * y))
  {
    OpCallIsExact(Plus, x, y, slow);
    OpCallIsExact(Minus, x, y, slow);
    OpCallIsExact(Star, x, y, slow);
    hide PackInt, OpCall;
  }

  /** The tagged comparisons of two integers of 62 bits, with VALUE_TRUE and VALUE_FALSE. */
  lemma TaggedComparisons(x: int, y: int, slow: Slow)
    requires -(Q / 2) <= x < Q / 2 && -(Q / 2) <= y < Q / 2
    ensures OpCall(slow, BoolNumeric(Lt), PackInt(x), PackInt(y)) == Some(if x < y then 8 else 4)
    ensures OpCall(slow, BoolNumeric(Lte), PackInt(x), PackInt(y)) == Some(if x <= y then 8 else 4)
    ensures OpCall(slow, BoolNumeric(Gt), PackInt(x), PackInt(y)) == Some(if x > y then 8 else 4)
    ensures OpCall(slow, BoolNumeric(Gte), PackInt(x), PackInt(y)) == Some(if x >= y then 8 else 4)
  {
    FitsExactly(x);
    FitsExactly(y);
    UnpackPack(x);
    UnpackPack(y);
    hide PackInt, UnpackInt, IsInt, Wrap;
  }

  /** The C operators on two numbers, wrapped at the width of their type. */
  lemma COperators(l: Number, r: Number, env: nat -> nat, slow: Slow, x: int, y: int)
    requires RunNumber(l, env, slow) == Some(x) && RunNumber(r, env, slow) == Some(y)
    ensures var m := if Long(l) || Long(r) then WORD else INT;
      && RunNumber(CArith(Plus, l, r), env, slow) == Some(Wrap(m, x + y))
      && RunNumber(CArith(Minus, l, r), env, slow) == Some(Wrap(m, x - y))
      && RunNumber(CArith(Star, l, r), env, slow) == Some(Wrap(m, x * y))
  {
    hide Wrap;
  }

  lemma CComparisons(l: Number, r: Number, env: nat -> nat, slow: Slow, x: int, y: int)
    requires RunNumber(l, env, slow) == Some(x) && RunNumber(r, env, slow) == Some(y)
    ensures RunC(CBoxBool(CCompare(Lt, l, r)), env, slow) == Some(if x < y then 8 else 4)
    ensures RunC(CBoxBool(CCompare(Lte, l, r)), env, slow) == Some(if x <= y then 8 else 4)
    ensures RunC(CBoxBool(CCompare(Gt, l, r)), env, slow) == Some(if x > y then 8 else 4)
    ensures RunC(CBoxBool(CCompare(Gte, l, r)), env, slow) == Some(if x >= y then 8 else 4)
  {
  }

  // ----- when the optimization keeps the meaning -----

  /** The code with types and the code without give the same value, or both raise. */
  predicate MeansSame(e: Expr, env: nat -> nat, slow: Slow) {
    RunC(ValueBarrier(EvalExpr(e, true)), env, slow) == RunC(ValueBarrier(EvalExpr(e, false)), env, slow)
  }

  /** Arithmetic of literals in an int changes no number, and no comparison of numbers is decided by bits that a tagged
      integer drops. */
  predicate Kept(e: Expr, env: nat -> nat) {
    if IsNumber(e) then Same(Q, ExactInC(e, env), Exact(e, env))
    else if e.Bin? && IsNumber(e.left) && IsNumber(e.right) then
      OrderKept(e.op.order, e.left, e.right, env)
    else e.Bin? ==> Kept(e.left, env) && Kept(e.right, env)
  }

  predicate OrderKept(op: Order, l: Expr, r: Expr, env: nat -> nat)
    requires IsNumber(l) && IsNumber(r)
  {
    Holds(op, InC(l, env), InC(r, env)) == Holds(op, Tagged(l, env), Tagged(r, env))
  }

  lemma InCSame(e: Expr, env: nat -> nat)
    requires IsNumber(e)
    ensures Same(Q, InC(e, env), ExactInC(e, env)) && Same(Q, ExactInC(e, env), InC(e, env))
  {
    WrapSame(WORD, ExactInC(e, env));
    SameInWord(InC(e, env), ExactInC(e, env));
    SameBy(Q, ExactInC(e, env), InC(e, env), -((InC(e, env) - ExactInC(e, env)) / Q));
  }

  /** Typed arithmetic on numbers gives the value of tagged arithmetic if and only if wrapping its literal parts to an int
      changes it by nothing that 62 bits see. */
  lemma NumbersExactly(e: Expr, env: nat -> nat, slow: Slow)
    requires IsNumber(e) && WellTyped(e, env)
    ensures MeansSame(e, env, slow) <==> Same(Q, ExactInC(e, env), Exact(e, env))
  {
    UnboxedRuns(e, env, slow);
    TaggedRuns(e, env, slow);
    PackExactly(InC(e, env), Exact(e, env));
    InCSame(e, env);
    var x, y, z := InC(e, env), ExactInC(e, env), Exact(e, env);
    if Same(Q, y, z) {
      SameTrans(Q, x, y, z);
    }
    if Same(Q, x, z) {
      SameTrans(Q, y, x, z);
    }
  }

  /** A comparison of numbers: what the two codes compute. */
  lemma ComparisonRuns(op: Order, l: Expr, r: Expr, env: nat -> nat, slow: Slow)
    requires IsNumber(l) && IsNumber(r) && WellTyped(l, env) && WellTyped(r, env)
    ensures var e := Bin(BoolNumeric(op), l, r);
      && RunC(ValueBarrier(EvalExpr(e, true)), env, slow) == Some(PackBool(Holds(op, InC(l, env), InC(r, env))))
      && RunC(ValueBarrier(EvalExpr(e, false)), env, slow) == Some(PackBool(Holds(op, Tagged(l, env), Tagged(r, env))))
  {
    UnboxedRuns(l, env, slow);
    UnboxedRuns(r, env, slow);
    TaggedRuns(l, env, slow);
    TaggedRuns(r, env, slow);
    UnpackPack(Exact(l, env));
    UnpackPack(Exact(r, env));
  }

  /** How often a number goes around the 62-bit range. */
  function Turns(x: int): int {
    (x + Q / 2) / Q
  }

  /** Where the numbers themselves are kept, the two codes of a comparison agree if and only if both sides go around
      equally often, or comparing how often they do decides as the remaining 62 bits do. */
  lemma ComparisonsExactly(op: Order, l: Expr, r: Expr, env: nat -> nat, slow: Slow)
    requires IsNumber(l) && IsNumber(r) && WellTyped(l, env) && WellTyped(r, env) && Kept(l, env) && Kept(r, env)
    ensures var x, y := InC(l, env), InC(r, env);
      MeansSame(Bin(BoolNumeric(op), l, r), env, slow) <==>
        (Turns(x) == Turns(y) || Holds(op, Turns(x), Turns(y)) == Holds(op, x - Turns(x) * Q, y - Turns(y) * Q))
  {
    ComparisonRuns(op, l, r, env, slow);
    KeptTagged(l, env);
    KeptTagged(r, env);
    WrapSame(Q, InC(l, env));
    WrapSame(Q, InC(r, env));
    ByTurns(op, InC(l, env), InC(r, env));
  }

  lemma KeptTagged(e: Expr, env: nat -> nat)
    requires IsNumber(e) && Kept(e, env)
    ensures Tagged(e, env) == InC(e, env) - Turns(InC(e, env)) * Q
  {
    InCSame(e, env);
    SameTrans(Q, InC(e, env), ExactInC(e, env), Exact(e, env));
    WrapExactly(Q, InC(e, env), Exact(e, env));
  }

  lemma ByTurns(op: Order, x: int, y: int)
    ensures Turns(x) == Turns(y) ==> Holds(op, x, y) == Holds(op, x - Turns(x) * Q, y - Turns(y) * Q)
    ensures Turns(x) != Turns(y) ==> Holds(op, x, y) == Holds(op, Turns(x), Turns(y))
  {
  }

  /** Types keep the meaning of every expression that is kept: same value, or raised alike. */
  lemma {:induction false} TypesKeepMeaning(e: Expr, env: nat -> nat, slow: Slow)
    requires WellTyped(e, env) && Kept(e, env)
    ensures MeansSame(e, env, slow)
  {
    if IsNumber(e) {
      NumbersExactly(e, env, slow);
    } else if e.Bin? && IsNumber(e.left) && IsNumber(e.right) {
      ComparisonRuns(e.op.order, e.left, e.right, env, slow);
    } else if e.Bin? {
      TypesKeepMeaning(e.left, env, slow);
      TypesKeepMeaning(e.right, env, slow);
      NotBothNumbers(e, true);
    }
  }

  /** The generator knows numbers exactly where the expression is one. */
  lemma {:induction false} KnownNumbers(e: Expr)
    ensures NumericType(EvalExpr(e, true)) <==> IsNumber(e)
  {
    if e.Bin? {
      KnownNumbers(e.left);
      KnownNumbers(e.right);
    }
  }

  lemma NotBothNumbers(e: Expr, types: bool)
    requires e.Bin? && !(IsNumber(e.left) && IsNumber(e.right))
    ensures EvalExpr(e, types)
      == TAny(CCall(e.op, ValueBarrier(EvalExpr(e.left, types)), ValueBarrier(EvalExpr(e.right, types))))
  {
    KnownNumbers(e.left);
    KnownNumbers(e.right);
  }

  // ----- and only then -----

  /** What is not known to be a number holds no integer: a tagged product with 0 would hide any difference. */
  predicate OthersAreNoIntegers(e: Expr, env: nat -> nat) {
    match e
    case Lit(_) => true
    case Local(slot, isInteger) => isInteger || !IsInt(env(slot))
    case Bin(_, left, right) => OthersAreNoIntegers(left, env) && OthersAreNoIntegers(right, env)
  }

  /** Operators that give different objects for different operands. */
  function Telling(op: Op, a: nat, b: nat): Option<nat> {
    Some(4 * ((a + b) * (a + b) + b))
  }

  lemma TellingTells(op: Op, a: nat, b: nat, c: nat, d: nat)
    requires Telling(op, a, b) == Telling(op, c, d)
    ensures a == c && b == d
  {
    hide *;
    SquareGap(a + b, c + d);
    SquareGap(c + d, a + b);
    var s, t := (a + b) * (a + b), (c + d) * (c + d);
    TellingIs(op, a, b, s);
    TellingIs(op, c, d, t);
  }

  lemma TellingIs(op: Op, a: nat, b: nat, s: nat)
    requires s == (a + b) * (a + b)
    ensures Telling(op, a, b) == Some(4 * (s + b))
  {
  }

  lemma SquareGap(s: nat, t: nat)
    ensures s < t ==> s * s + s < t * t
  {
    if s < t {
      SmallMultiple(t + s, t - s);
      assert (t + s) * (t - s) == t * t - s * s;
    }
  }

  lemma TellingIsNoInt()
    ensures forall op, a, b :: Telling(op, a, b).Some? && !IsInt(Telling(op, a, b).value)
  {
  }

  /** Both codes end, and where no number is known, not with an integer. */
  lemma {:induction false} EndsTelling(e: Expr, env: nat -> nat, types: bool)
    requires WellTyped(e, env) && OthersAreNoIntegers(e, env)
    ensures var w := RunC(ValueBarrier(EvalExpr(e, types)), env, Telling);
      w.Some? && (!IsNumber(e) ==> !IsInt(w.value))
  {
    hide PackInt, UnpackInt, InC, Tagged, Exact, Telling, RunNumber, Long;
    if IsNumber(e) {
      UnboxedRuns(e, env, Telling);
      TaggedRuns(e, env, Telling);
    } else if e.Bin? && IsNumber(e.left) && IsNumber(e.right) {
      ComparisonRuns(e.op.order, e.left, e.right, env, Telling);
    } else if e.Bin? {
      TellingIsNoInt();
      EndsTelling(e.left, env, types);
      EndsTelling(e.right, env, types);
      NotBothNumbers(e, types);
    }
  }

  /** An operator on something else than numbers is called in both codes, with the words of its operands. */
  lemma TellingCall(e: Expr, env: nat -> nat, types: bool) returns (a: nat, b: nat)
    requires WellTyped(e, env) && OthersAreNoIntegers(e, env) && e.Bin? && !(IsNumber(e.left) && IsNumber(e.right))
    ensures RunC(ValueBarrier(EvalExpr(e.left, types)), env, Telling) == Some(a)
    ensures RunC(ValueBarrier(EvalExpr(e.right, types)), env, Telling) == Some(b)
    ensures RunC(ValueBarrier(EvalExpr(e, types)), env, Telling) == Telling(e.op, a, b)
  {
    EndsTelling(e.left, env, types);
    EndsTelling(e.right, env, types);
    NotBothNumbers(e, types);
    a := RunC(ValueBarrier(EvalExpr(e.left, types)), env, Telling).value;
    b := RunC(ValueBarrier(EvalExpr(e.right, types)), env, Telling).value;
  }

  lemma {:induction false} LostTells(e: Expr, env: nat -> nat)
    requires WellTyped(e, env) && OthersAreNoIntegers(e, env) && !Kept(e, env)
    ensures !MeansSame(e, env, Telling)
  {
    if IsNumber(e) {
      NumbersExactly(e, env, Telling);
    } else if e.Bin? && IsNumber(e.left) && IsNumber(e.right) {
      ComparisonRuns(e.op.order, e.left, e.right, env, Telling);
    } else if e.Bin? {
      var a, b := TellingCall(e, env, true);
      var c, d := TellingCall(e, env, false);
      if MeansSame(e, env, Telling) {
        TellingTells(e.op, a, b, c, d);
      }
      if !Kept(e.left, env) {
        LostTells(e.left, env);
      } else {
        LostTells(e.right, env);
      }
    }
  }

  /** Whatever the operators do on other operands, the two codes mean the same: if and only if the expression is kept. */
  lemma KeptExactly(e: Expr, env: nat -> nat)
    requires WellTyped(e, env) && OthersAreNoIntegers(e, env)
    ensures (forall slow: Slow :: MeansSame(e, env, slow)) <==> Kept(e, env)
  {
    if Kept(e, env) {
      forall slow: Slow
        ensures MeansSame(e, env, slow)
      {
        TypesKeepMeaning(e, env, slow);
      }
    } else {
      LostTells(e, env);
    }
  }

  // ----- what is always kept, and what is not -----

  /** Every part over small literals has a value that fits an int. */
  predicate LiteralsFit(e: Expr, env: nat -> nat)
    requires IsNumber(e)
  {
    && (Narrow(e) ==> -(INT / 2) <= Exact(e, env) < INT / 2)
    && (e.Bin? && !Narrow(e) ==> LiteralsFit(e.left, env) && LiteralsFit(e.right, env))
  }

  /** Arithmetic over any numbers is kept where its literals do not overflow among themselves: overflow of the rest, at 62
      or at 64 bits, makes no difference. */
  lemma {:induction false} OverflowIsHarmless(e: Expr, env: nat -> nat, slow: Slow)
    requires IsNumber(e) && WellTyped(e, env) && LiteralsFit(e, env)
    ensures ExactInC(e, env) == Exact(e, env) && MeansSame(e, env, slow)
  {
    if Narrow(e) {
      InRange(INT, Exact(e, env));
    } else if e.Bin? {
      OverflowIsHarmless(e.left, env, slow);
      OverflowIsHarmless(e.right, env, slow);
    }
    NumbersExactly(e, env, slow);
  }

  /** `2147483647 + 1` is negative with types on. */
  lemma LiteralsOverflow(env: nat -> nat, slow: Slow)
    ensures var e := Bin(Numeric(Plus), Lit(INT / 2 - 1), Lit(1));
      && RunC(ValueBarrier(EvalExpr(e, true)), env, slow) == Some(PackInt(-(INT / 2)))
      && RunC(ValueBarrier(EvalExpr(e, false)), env, slow) == Some(PackInt(INT / 2))
      && PackInt(-(INT / 2)) != PackInt(INT / 2)
  {
    var e := Bin(Numeric(Plus), Lit(INT / 2 - 1), Lit(1));
    assert IsNumber(e) && Narrow(e) && WellTyped(e, env) && Exact(e, env) == INT / 2;
    hide *;
    UnboxedRuns(e, env, slow);
    TaggedRuns(e, env, slow);
    NarrowInC(e, env);
    HalfWraps();
    PackExactly(-(INT / 2), INT / 2);
  }

  lemma HalfWraps()
    ensures Wrap(INT, INT / 2) == -(INT / 2) && !Same(Q, -(INT / 2), INT / 2)
  {
  }

  /** `0 < 2305843009213693952`, which is 2^61. */
  function FarComparison(): Expr {
    Bin(BoolNumeric(Lt), Lit(0), Lit(Q / 2))
  }

  /** It is true with types on and false with types off. */
  lemma ComparisonIsLost(env: nat -> nat, slow: Slow)
    ensures RunC(ValueBarrier(EvalExpr(FarComparison(), true)), env, slow) == Some(PackBool(true))
    ensures RunC(ValueBarrier(EvalExpr(FarComparison(), false)), env, slow) == Some(PackBool(false))
  {
    hide *;
    var i, j := Far();
    FarComparisonIs(i, j);
    LitWraps(i, env);
    LitWraps(j, env);
    HalfIsDropped();
    ComparisonRuns(Lt, Lit(i), Lit(j), env, slow);
  }

  lemma FarComparisonIs(i: nat, j: nat)
    requires i == 0 && j == Q / 2
    ensures FarComparison() == Bin(BoolNumeric(Lt), Lit(i), Lit(j))
  {
  }

  lemma Far() returns (i: nat, j: nat)
    ensures i == 0 && j == Q / 2 && i < WORD / 2 && j < WORD / 2
  {
    i, j := 0, Q / 2;
  }

  lemma LitWraps(i: nat, env: nat -> nat)
    requires i < WORD / 2
    ensures var e := Lit(i); IsNumber(e) && WellTyped(e, env) && InC(e, env) == i && Tagged(e, env) == Wrap(Q, i)
  {
    InRange(WORD, i);
    if i < INT / 2 {
      InRange(INT, i);
    }
  }

  lemma HalfIsDropped()
    ensures Wrap(Q, 0) == 0 && Wrap(Q, Q / 2) == -(Q / 2) && Holds(Lt, 0, Q / 2) && !Holds(Lt, 0, -(Q / 2))
  {
  }
}
