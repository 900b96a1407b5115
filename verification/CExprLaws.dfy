/** What the constant expressions of the assembler mean in terms of numbers, bits and tokens alone,
    without the ladder of rungs that reads them. */
module CExprLaws {
  import opened Machine
  import opened CExprSpec

  // -------------------------------------------------------------------- operators

  predicate Bit(a: nat, i: nat) {
    if i == 0 then a % 2 == 1 else Bit(a / 2, i - 1)
  }

  lemma {:induction false} BitwiseBit(f: (bool, bool) -> bool, a: nat, b: nat, n: nat, i: nat)
    requires i < n
    ensures Bit(Bitwise(f, a, b, n), i) <==> f(Bit(a, i), Bit(b, i))
    decreases n
  {
    var c := Bitwise(f, a / 2, b / 2, n - 1);
    assert Bitwise(f, a, b, n) / 2 == c;
    if i > 0 {
      BitwiseBit(f, a / 2, b / 2, n - 1, i - 1);
    }
  }

  lemma {:induction false} NotBit(a: nat, n: nat, i: nat)
    requires a < Power2(n) && i < n
    ensures Bit(Power2(n) - 1 - a, i) <==> !Bit(a, i)
    decreases n
  {
    var c := Power2(n) - 1 - a;
    assert c / 2 == Power2(n - 1) - 1 - a / 2;
    if i > 0 {
      NotBit(a / 2, n - 1, i - 1);
    }
  }

  lemma AndBit(a: Word, b: Word, i: nat)
    requires i < 32
    ensures Bit(BitAnd(a, b), i) <==> Bit(a, i) && Bit(b, i)
  {
    hide Bit, Bitwise;
    BitwiseBit((x, y) => x && y, a, b, 32, i);
  }

  lemma OrBit(a: Word, b: Word, i: nat)
    requires i < 32
    ensures Bit(BitOr(a, b), i) <==> Bit(a, i) || Bit(b, i)
  {
    hide Bit, Bitwise;
    BitwiseBit((x, y) => x || y, a, b, 32, i);
  }

  lemma XorBit(a: Word, b: Word, i: nat)
    requires i < 32
    ensures Bit(BitXor(a, b), i) <==> Bit(a, i) != Bit(b, i)
  {
    hide Bit, Bitwise;
    BitwiseBit((x, y) => x != y, a, b, 32, i);
  }

  /** The bitwise operators, bit by bit. */
  lemma BitLaws(env: Env, a: Word, b: Word, i: nat)
    requires i < 32
    ensures Apply(And, env, a, b).Some? && Apply(Or, env, a, b).Some? && Apply(Xor, env, a, b).Some?
    ensures Bit(Apply(And, env, a, b).value, i) <==> Bit(a, i) && Bit(b, i)
    ensures Bit(Apply(Or, env, a, b).value, i) <==> Bit(a, i) || Bit(b, i)
    ensures Bit(Apply(Xor, env, a, b).value, i) <==> Bit(a, i) != Bit(b, i)
    ensures Bit(ApplyPrefix(Not, a), i) <==> !Bit(a, i)
  {
    hide Bit, BitAnd, BitOr, BitXor;
    AndBit(a, b, i);
    OrBit(a, b, i);
    XorBit(a, b, i);
    Power2Word();
    NotBit(a, 32, i);
  }

  /** Sums, differences and negation modulo 2^32; the power is that of its operands in their order. */
  lemma SumLaws(env: Env, a: Word, b: Word)
    ensures Apply(Add, env, a, b) == Some(if a + b < WORD then a + b else a + b - WORD)
    ensures Apply(Sub, env, a, b) == Some(if a >= b then a - b else a - b + WORD)
    ensures Apply(Pow, env, a, b) == Some(env.power(a, b))
    ensures ApplyPrefix(Plus, a) == a && Apply(Add, env, a, ApplyPrefix(Minus, a)) == Some(0)
  {
    hide Wrap, ShiftLeft, ShiftRight, BitAnd, BitOr, BitXor, BitNot, Quotient;
    WrapSum(a + b);
    WrapSum(a - b);
    WrapSum(0 - a);
    WrapSum(a + Wrap(0 - a));
  }

  lemma WrapSum(n: int)
    requires 0 - WORD < n < 2 * WORD
    ensures Wrap(n) == if n < 0 then n + WORD else if n < WORD then n else n - WORD
  {
  }

  /** A product is the true one less `k` times 2^32. */
  lemma ProductLaw(env: Env, a: Word, b: Word) returns (k: int)
    ensures Apply(Mul, env, a, b).Some? && a * b == k * WORD + Apply(Mul, env, a, b).value
  {
    k := a * b / WORD;
  }

  /** Quotient and remainder make up the number again. */
  lemma DivisionLaw(env: Env, a: Word, b: Word)
    ensures b == 0 ==> Apply(Div, env, a, b) == None == Apply(Mod, env, a, b)
    ensures b > 0 ==>
      && Apply(Div, env, a, b).Some? && Apply(Mod, env, a, b).Some?
      && a == b * Apply(Div, env, a, b).value + Apply(Mod, env, a, b).value
      && Apply(Mod, env, a, b).value < b
  {
    hide ShiftLeft, ShiftRight, BitAnd, BitOr, BitXor;
  }

  lemma WrapTwice(n: int)
    ensures Wrap(2 * Wrap(n)) == Wrap(2 * n)
  {
    var k := n / WORD;
    assert 2 * n == 2 * Wrap(n) + 2 * k * WORD;
    WrapShift(2 * Wrap(n), 2 * k);
  }

  lemma WrapShift(a: int, k: int)
    ensures Wrap(a + k * WORD) == Wrap(a)
  {
  }

  lemma {:induction false} LeftIsProduct(a: Word, n: nat)
    ensures ShiftLeft(a, n) == Wrap(a * Power2(n))
    decreases n
  {
    if n > 0 {
      LeftIsProduct(a, n - 1);
      WrapTwice(a * Power2(n - 1));
      Twice(a, Power2(n - 1));
    }
  }

  lemma Twice(a: int, p: int)
    ensures 2 * (a * p) == a * (2 * p)
  {
  }

  lemma {:induction false} RightIsQuotient(a: Word, n: nat)
    ensures ShiftRight(a, n) == a / Power2(n)
    decreases n
  {
    if n > 0 {
      RightIsQuotient(a, n - 1);
      HalfQuotient(a, Power2(n - 1));
    }
  }

  lemma HalfQuotient(a: nat, m: nat)
    requires m > 0
    ensures a / m / 2 == a / (2 * m)
  {
    var s := a / m;
    var q := s / 2;
    Distribute(m, s, q);
    assert a == m * s + a % m;
    QuotientIs(a, 2 * m, q, if s == 2 * q then a % m else m + a % m);
  }

  lemma Distribute(m: nat, s: nat, q: nat)
    ensures s == 2 * q ==> m * s == 2 * m * q
    ensures s == 2 * q + 1 ==> m * s == 2 * m * q + m
  {
  }

  lemma QuotientIs(a: nat, m: nat, q: nat, r: nat)
    requires m > 0 && a == m * q + r && r < m
    ensures a / m == q
  {
    var d := a / m;
    assert m * d + a % m == m * q + r;
    if d < q {
      Bigger(m, d, q);
    } else if d > q {
      Bigger(m, q, d);
    }
  }

  lemma Bigger(m: nat, d: nat, q: nat)
    requires d < q
    ensures m * d + m <= m * q
  {
    assert m * q == m * (d + 1) + m * (q - d - 1);
  }

  /** A shift multiplies or divides by a power of two; by 32 or more it has no value. */
  lemma ShiftLaws(env: Env, a: Word, b: Word)
    ensures Apply(Shl, env, a, b) == if b < 32 then Some(Wrap(a * Power2(b))) else None
    ensures Apply(Shr, env, a, b) == if b < 32 then Some(a / Power2(b)) else None
  {
    LeftIsProduct(a, b);
    RightIsQuotient(a, b);
  }

  // -------------------------------------------------------------------- grouping

  /** How tightly an operator binds, by its token. */
  function Strength(t: Token): nat {
    if t == "POW" then 5
    else if t in {"*", "/", "%"} then 4
    else if t in {"+", "-"} then 3
    else if t in {"<<", ">>"} then 2
    else if t in {"&", "|", "^"} then 1
    else 0
  }

  lemma StrengthIs(op: Op)
    ensures 1 <= Strength(OpToken(op)) <= 5 && Level(op) == 7 - Strength(OpToken(op))
  {
  }

  /** The outcome of an evaluation that reads `n` tokens. */
  function Outcome(v: Option<Word>, n: nat): Option<Parsed> {
    match v
    case None => None
    case Some(w) => Some(Parsed(w, n))
  }

  /** An expression without parentheses of the grammar, with its tokens. */
  ghost predicate Plainly(e: Expr, level: nat, ts: seq<Token>) {
    InGrammar(e, level) && ClosesAtEnd(e) && NoParen(e) && Tokens(e) == ts && Reach(e) == |ts|
  }

  lemma Leaf(x: Token, level: nat)
    requires OkConst(x)
    ensures Plainly(Const(x), level, [x])
  {
  }

  lemma Prefixed(p: Prefix, x: Token, level: nat)
    requires OkConst(x) && level >= 1
    ensures Plainly(Unary(p, Const(x)), level, [PrefixToken(p), x])
  {
    hide OkConst, PrefixToken;
    assert InGrammar(Const(x), 0) && Reach(Const(x)) == 1 && Tokens(Const(x)) == [x];
    assert ClosesAtEnd(Const(x)) && NoParen(Const(x));
  }

  lemma Joined(op: Op, l: Expr, r: Expr, ls: seq<Token>, rs: seq<Token>, level: nat)
    requires Plainly(l, Level(op), ls) && Plainly(r, RightLevel(Level(op)), rs) && level >= Level(op)
    ensures Plainly(Binary(op, l, r), level, ls + [OpToken(op)] + rs)
  {
    hide OkConst, OpToken, Level;
  }

  lemma PlainOutcome(e: Expr, ts: seq<Token>, env: Env)
    requires Plainly(e, TOP, ts)
    ensures Eval(ts, env, 0, TOP) == Outcome(Value(e, env), |ts|)
  {
    hide Eval, InGrammar, ClosesAtEnd, NoParen, Tokens, Value, Reach;
    EvalPrinted(e, env);
  }

  /** Which way `x op1 y op2 z` groups.  Left, unless the second operator binds tighter, and then
      right; but a sum or a difference after a shift is not read at all. */
  lemma Grouping(x: Token, op1: Op, y: Token, op2: Op, z: Token, env: Env)
    requires OkConst(x) && OkConst(y) && OkConst(z)
    ensures var ts := [x, OpToken(op1), y, OpToken(op2), z];
      var left := Binary(op2, Binary(op1, Const(x), Const(y)), Const(z));
      var right := Binary(op1, Const(x), Binary(op2, Const(y), Const(z)));
      var s1, s2 := Strength(OpToken(op1)), Strength(OpToken(op2));
      Eval(ts, env, 0, TOP) ==
      if s2 <= s1 then Outcome(Value(left, env), 5)
      else if s1 == 2 && s2 == 3 then Outcome(Value(left.left, env), 3)
      else Outcome(Value(right, env), 5)
  {
    hide OpOf, OpToken, Eval, OkConst, Value, Level, Strength, Plainly;
    StrengthIs(op1);
    StrengthIs(op2);
    var t1, t2 := OpToken(op1), OpToken(op2);
    if Strength(t2) <= Strength(t1) {
      Leaf(x, Level(op1));
      Leaf(y, RightLevel(Level(op1)));
      Leaf(z, RightLevel(Level(op2)));
      Joined(op1, Const(x), Const(y), [x], [y], Level(op2));
      Joined(op2, Binary(op1, Const(x), Const(y)), Const(z), [x] + [t1] + [y], [z], TOP);
      assert [x] + [t1] + [y] + [t2] + [z] == [x, t1, y, t2, z];
      PlainOutcome(Binary(op2, Binary(op1, Const(x), Const(y)), Const(z)), [x, t1, y, t2, z], env);
    } else if Strength(t1) == 2 && Strength(t2) == 3 {
      ShiftStops(x, op1, y, op2, z, env);
    } else {
      Leaf(x, Level(op1));
      Leaf(y, Level(op2));
      Leaf(z, RightLevel(Level(op2)));
      Joined(op2, Const(y), Const(z), [y], [z], RightLevel(Level(op1)));
      Joined(op1, Const(x), Binary(op2, Const(y), Const(z)), [x], [y] + [t2] + [z], TOP);
      assert [x] + [t1] + ([y] + [t2] + [z]) == [x, t1, y, t2, z];
      PlainOutcome(Binary(op1, Const(x), Binary(op2, Const(y), Const(z))), [x, t1, y, t2, z], env);
    }
  }

  lemma ShiftStops(x: Token, op1: Op, y: Token, op2: Op, z: Token, env: Env)
    requires OkConst(x) && OkConst(y) && OkConst(z) && Level(op1) == 5 && Level(op2) == 4
    ensures var ts := [x, OpToken(op1), y, OpToken(op2), z];
      Eval(ts, env, 0, TOP) == Outcome(Value(Binary(op1, Const(x), Const(y)), env), 3)
  {
    hide OpOf, OpToken, OkConst, Level, Eval, Loop, Apply;
    var ts := [x, OpToken(op1), y, OpToken(op2), z];
    OpTokens(op1);
    OpTokens(op2);
    OperandAlone(ts, 0, x, 4, env);
    OperandAlone(ts, 2, y, 3, env);
    var v := env.constant(x);
    Upward(ts, env, 0, 5);
    Upward(ts, env, 0, 6);
    if v.Some? {
      LoopOnce(ts, env, 1, v.value, 5);
      var w := env.constant(y);
      if w.Some? {
        var u := Apply(op1, env, v.value, w.value);
        if u.Some? {
          LoopOnce(ts, env, 3, u.value, 5);
          LoopOnce(ts, env, 3, u.value, 6);
        }
      }
    }
  }

  lemma Upward(ts: seq<Token>, env: Env, i: nat, level: nat)
    requires i <= |ts| && level >= 2
    ensures Eval(ts, env, i, level) ==
      match Eval(ts, env, i, level - 1)
      case None => None
      case Some(p) => Loop(ts, env, p.next, p.value, level)
  {
  }

  lemma LoopOnce(ts: seq<Token>, env: Env, i: nat, acc: Word, level: nat)
    requires i < |ts|
    ensures !OpAt(ts, i, level) ==> Loop(ts, env, i, acc, level) == Some(Parsed(acc, i))
    ensures OpAt(ts, i, level) ==>
      (Loop(ts, env, i, acc, level) ==
       match Eval(ts, env, i + 1, RightLevel(level))
       case None => None
       case Some(p) =>
         match Apply(OpOf(ts[i]).value, env, acc, p.value)
         case None => None
         case Some(v) => Loop(ts, env, p.next, v, level))
  {
  }

  /** A constant before an operator of a higher rung. */
  lemma OperandAlone(ts: seq<Token>, i: nat, x: Token, level: nat, env: Env)
    requires i + 1 < |ts| && ts[i] == x && OkConst(x) && 2 <= level <= TOP
    requires Ends(ts, i + 1, level + 1)
    ensures Eval(ts, env, i, level) == Outcome(env.constant(x), i + 1)
  {
    hide OpOf, OkConst, Level, Eval;
    assert ts[i..i + 1] == [x];
    Leaf(x, level);
    EvalThenContinue(ts, env, i, Const(x), level);
  }

  /** A prefix binds tighter than every operator, on either side of it. */
  lemma PrefixBinds(p: Prefix, x: Token, op: Op, y: Token, env: Env)
    requires OkConst(x) && OkConst(y)
    ensures Eval([PrefixToken(p), x, OpToken(op), y], env, 0, TOP) ==
            Outcome(Value(Binary(op, Unary(p, Const(x)), Const(y)), env), 4)
    ensures Eval([x, OpToken(op), PrefixToken(p), y], env, 0, TOP) ==
            Outcome(Value(Binary(op, Const(x), Unary(p, Const(y))), env), 4)
  {
    hide OpOf, OpToken, PrefixToken, Eval, OkConst, Value, Plainly, Level;
    var t, o := PrefixToken(p), OpToken(op);
    Leaf(x, Level(op));
    Leaf(y, RightLevel(Level(op)));
    Prefixed(p, x, Level(op));
    Prefixed(p, y, RightLevel(Level(op)));
    Joined(op, Unary(p, Const(x)), Const(y), [t, x], [y], TOP);
    Joined(op, Const(x), Unary(p, Const(y)), [x], [t, y], TOP);
    assert [t, x] + [o] + [y] == [t, x, o, y] && [x] + [o] + [t, y] == [x, o, t, y];
    PlainOutcome(Binary(op, Unary(p, Const(x)), Const(y)), [t, x, o, y], env);
    PlainOutcome(Binary(op, Const(x), Unary(p, Const(y))), [x, o, t, y], env);
  }

  /** So `a << b + c` is worth a times 2^b, with the sum left unread, and `a << b * c` shifts by the
      product. */
  lemma ShiftThenSum(x: Token, y: Token, z: Token, env: Env)
    requires OkConst(x) && OkConst(y) && OkConst(z)
    requires env.constant(x).Some? && env.constant(y).Some? && env.constant(z).Some?
    ensures var a, b := env.constant(x).value, env.constant(y).value;
      b < 32 ==> Eval([x, "<<", y, "+", z], env, 0, TOP) == Some(Parsed(Wrap(a * Power2(b)), 3))
    ensures var a, n := env.constant(x).value, env.constant(y).value * env.constant(z).value;
      0 <= n < 32 ==> Eval([x, "<<", y, "*", z], env, 0, TOP) == Some(Parsed(Wrap(a * Power2(n)), 5))
  {
    hide Eval, OkConst;
    var a, b, n := env.constant(x).value, env.constant(y).value, env.constant(y).value * env.constant(z).value;
    Grouping(x, Shl, y, Add, z, env);
    Grouping(x, Shl, y, Mul, z, env);
    ShiftLaws(env, a, b);
    if 0 <= n < 32 {
      assert Value(Binary(Mul, Const(y), Const(z)), env) == Some(n);
      ShiftLaws(env, a, n);
    }
  }

  // ------------------------------------------------------------- what the tokens mean

  /** Two constants with the tokens of an operator between them, and one after a prefix. */
  lemma OneOperator(x: Token, op: Op, p: Prefix, y: Token, env: Env)
    requires OkConst(x) && OkConst(y) && env.constant(x).Some? && env.constant(y).Some?
    ensures Eval([x, OpToken(op), y], env, 0, TOP) ==
            Outcome(Apply(op, env, env.constant(x).value, env.constant(y).value), 3)
    ensures Eval([PrefixToken(p), x], env, 0, TOP) ==
            Some(Parsed(ApplyPrefix(p, env.constant(x).value), 2))
  {
    hide OpOf, OpToken, PrefixToken, Eval, OkConst, Plainly, Level, Apply, ApplyPrefix;
    Leaf(x, Level(op));
    Leaf(y, RightLevel(Level(op)));
    Joined(op, Const(x), Const(y), [x], [y], TOP);
    assert [x] + [OpToken(op)] + [y] == [x, OpToken(op), y];
    PlainOutcome(Binary(op, Const(x), Const(y)), [x, OpToken(op), y], env);
    Prefixed(p, x, TOP);
    PlainOutcome(Unary(p, Const(x)), [PrefixToken(p), x], env);
  }

  /** Arithmetic, token by token. */
  lemma ArithmeticTokens(x: Token, y: Token, env: Env)
    requires OkConst(x) && OkConst(y) && env.constant(x).Some? && env.constant(y).Some?
    ensures var a, b := env.constant(x).value, env.constant(y).value;
      && Eval([x, "+", y], env, 0, TOP) == Some(Parsed((a + b) % 0x1_0000_0000, 3))
      && Eval([x, "-", y], env, 0, TOP) == Some(Parsed((a - b) % 0x1_0000_0000, 3))
      && Eval([x, "*", y], env, 0, TOP) == Some(Parsed(a * b % 0x1_0000_0000, 3))
      && Eval([x, "POW", y], env, 0, TOP) == Some(Parsed(env.power(a, b), 3))
      && Eval(["+", x], env, 0, TOP) == Some(Parsed(a, 2))
      && Eval(["-", x], env, 0, TOP) == Some(Parsed((0 - a) % 0x1_0000_0000, 2))
  {
    hide Eval, OkConst, ShiftLeft, ShiftRight, BitAnd, BitOr, BitXor, BitNot, Quotient;
    OneOperator(x, Add, Plus, y, env);
    OneOperator(x, Sub, Minus, y, env);
    OneOperator(x, Mul, Plus, y, env);
    OneOperator(x, Pow, Plus, y, env);
  }

  /** Quotient and remainder. */
  lemma DivisionTokens(x: Token, y: Token, env: Env)
    requires OkConst(x) && OkConst(y) && env.constant(x).Some? && env.constant(y).Some?
    ensures var a, b := env.constant(x).value, env.constant(y).value;
      var q, r := Eval([x, "/", y], env, 0, TOP), Eval([x, "%", y], env, 0, TOP);
      && (b == 0 ==> q == None == r)
      && (b > 0 ==>
            && q.Some? && r.Some? && q.value.next == 3 == r.value.next
            && a == b * q.value.value + r.value.value && r.value.value < b)
  {
    hide Eval, OkConst, Apply;
    OneOperator(x, Div, Plus, y, env);
    OneOperator(x, Mod, Plus, y, env);
    DivisionLaw(env, env.constant(x).value, env.constant(y).value);
  }

  /** Shifts to both sides. */
  lemma ShiftTokens(x: Token, y: Token, env: Env)
    requires OkConst(x) && OkConst(y) && env.constant(x).Some? && env.constant(y).Some?
    ensures var a, b := env.constant(x).value, env.constant(y).value;
      && Eval([x, "<<", y], env, 0, TOP) ==
           (if b < 32 then Some(Parsed(a * Power2(b) % 0x1_0000_0000, 3)) else None)
      && Eval([x, ">>", y], env, 0, TOP) ==
           (if b < 32 then Some(Parsed(a / Power2(b), 3)) else None)
  {
    hide Eval, OkConst, Apply, Power2;
    OneOperator(x, Shl, Plus, y, env);
    OneOperator(x, Shr, Plus, y, env);
    ShiftLaws(env, env.constant(x).value, env.constant(y).value);
  }

  /** The bits of a conjunction, a disjunction, an exclusive one, and a complement. */
  lemma BitTokens(x: Token, y: Token, env: Env, i: nat)
    requires OkConst(x) && OkConst(y) && env.constant(x).Some? && env.constant(y).Some? && i < 32
    ensures var a, b := env.constant(x).value, env.constant(y).value;
      var con, dis := Eval([x, "&", y], env, 0, TOP), Eval([x, "|", y], env, 0, TOP);
      var one, comp := Eval([x, "^", y], env, 0, TOP), Eval(["~", x], env, 0, TOP);
      && con.Some? && dis.Some? && one.Some? && comp.Some?
      && (Bit(con.value.value, i) <==> Bit(a, i) && Bit(b, i))
      && (Bit(dis.value.value, i) <==> Bit(a, i) || Bit(b, i))
      && (Bit(one.value.value, i) <==> Bit(a, i) != Bit(b, i))
      && (Bit(comp.value.value, i) <==> !Bit(a, i))
  {
    hide Eval, OkConst, Apply, ApplyPrefix, Bit;
    OneOperator(x, And, Not, y, env);
    OneOperator(x, Or, Not, y, env);
    OneOperator(x, Xor, Not, y, env);
    BitLaws(env, env.constant(x).value, env.constant(y).value, i);
  }

  // ------------------------------------------------------------- the tokenizer's edges

  lemma ScanOne(text: string, cur: Token, acc: seq<Token>)
    requires text != ""
    ensures var c := text[0];
      var n := if IsAngle(c) && |text| > 1 && text[1] == c then 2 else 1;
      var flushed := Flush(acc, cur);
      Scan(text, cur, acc) ==
        if IsBlank(c) then if flushed.None? then None else Scan(text[1..], "", flushed.value)
        else if IsAngle(c) || IsSymbolChar(c) then
          if flushed.None? || Push(flushed.value, text[..n]).None? then None
          else Scan(text[n..], "", flushed.value + [text[..n]])
        else if IsWordChar(c) then
          if |cur| >= 50 then None else Scan(text[1..], cur + [c], acc)
        else Scan(text[1..], cur, acc)
  {
  }

  /** A character of no token has no effect, unless it parts two angle brackets. */
  lemma {:induction false} IgnoredHasNoEffect(a: string, c: char, b: string, cur: Token,
                                              acc: seq<Token>)
    requires !InToken(c) && c !in " \t\r\U{0B}\U{0C}"
    requires a == "" || a[|a| - 1] !in "<>"
    ensures Scan(a + [c] + b, cur, acc) == Scan(a + b, cur, acc)
    decreases |a|
  {
    hide Scan, Flush, Push, IsBlank, IsSymbolChar, IsWordChar, InToken;
    var with, without := a + [c] + b, a + b;
    ScanOne(with, cur, acc);
    if a == "" {
      Ignored(c);
      assert with[1..] == without;
    } else {
      ScanOne(without, cur, acc);
      LaterAlike(a, c, b, 1);
      forall cur: Token, acc: seq<Token>
        ensures Scan(with[1..], cur, acc) == Scan(without[1..], cur, acc)
      {
        IgnoredHasNoEffect(a[1..], c, b, cur, acc);
      }
      if |a| > 1 {
        LaterAlike(a, c, b, 2);
        forall cur: Token, acc: seq<Token>
          ensures Scan(with[2..], cur, acc) == Scan(without[2..], cur, acc)
        {
          IgnoredHasNoEffect(a[2..], c, b, cur, acc);
        }
      }
    }
  }

  lemma Ignored(c: char)
    requires !InToken(c) && c !in " \t\r\U{0B}\U{0C}"
    ensures !IsBlank(c) && !IsAngle(c) && !IsSymbolChar(c) && !IsWordChar(c)
  {
  }

  lemma LaterAlike(a: string, c: char, b: string, n: nat)
    requires n <= |a|
    ensures (a + [c] + b)[..n] == a[..n] == (a + b)[..n]
    ensures (a + [c] + b)[n..] == a[n..] + [c] + b && (a + b)[n..] == a[n..] + b
  {
  }

  /** The limit on the length of a word is 50: a longer one is an error. */
  lemma {:induction false} WordLimit(w: string, rest: string, cur: Token, acc: seq<Token>)
    requires |cur| <= 50 < |cur| + |w|
    requires forall i :: 0 <= i < |w| ==>
      w[i] == '_' || '0' <= w[i] <= '9' || 'A' <= w[i] <= 'Z' || 'a' <= w[i] <= 'z'
    ensures Scan(w + rest, cur, acc) == None
    decreases |w|
  {
    assert (w + rest)[0] == w[0] && (w + rest)[1..] == w[1..] + rest;
    if |cur| < 50 {
      WordLimit(w[1..], rest, cur + [w[0]], acc);
    }
  }

  /** A single angle bracket is a token, though no operator. */
  lemma LoneAngle(c: char, rest: string, acc: seq<Token>)
    requires c in "<>" && (rest == "" || rest[0] != c) && |acc| < 1023
    ensures Scan([c] + rest, "", acc) == Scan(rest, "", acc + [[c]]) && OpOf([c]) == None
  {
    assert ([c] + rest)[..1] == [c] && ([c] + rest)[1..] == rest;
  }

  /** With a full buffer a begun word cannot end. */
  lemma FullBuffer(rest: string, cur: Token, acc: seq<Token>)
    requires cur != "" && |acc| == 1023
    requires rest == "`" || (rest != "" && (IsBlank(rest[0]) || IsAngle(rest[0]) || IsSymbolChar(rest[0])))
    ensures Scan(rest, cur, acc) == None
  {
    if rest == "`" {
      assert rest[1..] == "";
    }
  }

  lemma LastTokenTooMany(ts: seq<Token>, gaps: seq<string>, rest: string, acc: seq<Token>)
    requires Spaced(ts, gaps) && Printable(ts) && ts != [] && |acc| == 1023
    requires rest == gaps[0] + (Text(ts[1..], gaps[1..]) + "`")
    ensures Scan(ts[0] + rest, "", acc) == None
  {
    hide Scan, IsBlank, IsAngle, IsSymbolChar, Text, OkConst;
    var t := ts[0];
    assert OkConst(t) || IsSymbol(t);
    if IsSymbol(t) {
      ScanSymbol(t, "", []);
      assert (t + rest)[0] == t[0];
      ScanOne(t + rest, "", acc);
      SymbolNotBlank(t);
    } else {
      OkWord(t);
      ScanWord(t, rest, "", acc);
      assert "" + t == t;
      WordEnds(ts, gaps, rest);
      FullBuffer(rest, t, acc);
    }
  }

  lemma SymbolNotBlank(t: Token)
    requires IsSymbol(t)
    ensures t != "" && !IsBlank(t[0])
  {
  }

  lemma OkWord(t: Token)
    requires OkConst(t)
    ensures 0 < |t| <= MAX_TOKEN_LEN && forall i :: 0 <= i < |t| ==> IsWordChar(t[i])
  {
  }

  /** The limit on the number of tokens is 1023: printed tokens are cut into the same ones exactly if
      there are no more, and more are an error. */
  lemma TokenLimit(ts: seq<Token>, gaps: seq<string>)
    requires Spaced(ts, gaps) && Printable(ts)
    ensures Scan("`" + Text(ts, gaps) + "`", "", []) == if |ts| <= 1023 then Some(ts) else None
  {
    assert |gaps| == |ts|;
    hide Scan, Text, Spaced, Printable;
    if |ts| <= 1023 {
      ScanPrinted(ts, gaps);
    } else {
      TooManyTokens(ts, gaps, []);
      var text := "`" + Text(ts, gaps) + "`";
      assert text[0] == '`' && text[1..] == Text(ts, gaps) + "`";
      ScanOne(text, "", []);
    }
  }

  lemma {:induction false} TooManyTokens(ts: seq<Token>, gaps: seq<string>, acc: seq<Token>)
    requires Spaced(ts, gaps) && Printable(ts) && |acc| <= 1023 < |acc| + |ts|
    ensures Scan(Text(ts, gaps) + "`", "", acc) == None
    decreases |ts|
  {
    hide Scan, IsSymbol, OkConst, IsBlank, IsAngle, IsSymbolChar;
    var t, gap := ts[0], gaps[0];
    var later := Text(ts[1..], gaps[1..]) + "`";
    assert Text(ts, gaps) + "`" == t + (gap + later);
    assert OkConst(t) || IsSymbol(t);
    if |acc| == 1023 {
      LastTokenTooMany(ts, gaps, gap + later, acc);
    } else {
      if IsSymbol(t) {
        ScanSymbol(t, gap + later, acc);
      } else {
        ScanConst(ts, gaps, gap + later, acc);
      }
      ScanBlanks(gap, later, acc + [t]);
      TooManyTokens(ts[1..], gaps[1..], acc + [t]);
    }
  }
}
