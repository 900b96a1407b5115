/** Constant expressions of the assembler: the token grammar in layers, what an expression means,
    and what the evaluator computes from a token list. */
module CExprSpec {
  import opened Machine

  type Word = u32
  type Token = string

  /** What the evaluator takes from the rest of the assembler: the value of a constant token, none
      where it ends with an error, and the power function. */
  datatype Env = Env(constant: Token -> Option<Word>, power: (Word, Word) -> Word)

  datatype Op = Pow | Mul | Div | Mod | Add | Sub | Shl | Shr | And | Or | Xor

  datatype Prefix = Plus | Minus | Not

  // -------------------------------------------------------------------- operators

  function OpToken(op: Op): Token {
    match op
    case Pow => "POW"
    case Mul => "*"
    case Div => "/"
    case Mod => "%"
    case Add => "+"
    case Sub => "-"
    case Shl => "<<"
    case Shr => ">>"
    case And => "&"
    case Or => "|"
    case Xor => "^"
  }

  function OpOf(t: Token): Option<Op> {
    if t == "POW" then Some(Pow)
    else if t == "*" then Some(Mul)
    else if t == "/" then Some(Div)
    else if t == "%" then Some(Mod)
    else if t == "+" then Some(Add)
    else if t == "-" then Some(Sub)
    else if t == "<<" then Some(Shl)
    else if t == ">>" then Some(Shr)
    else if t == "&" then Some(And)
    else if t == "|" then Some(Or)
    else if t == "^" then Some(Xor)
    else None
  }

  function PrefixToken(p: Prefix): Token {
    match p
    case Plus => "+"
    case Minus => "-"
    case Not => "~"
  }

  function PrefixOf(t: Token): Option<Prefix> {
    if t == "+" then Some(Plus)
    else if t == "-" then Some(Minus)
    else if t == "~" then Some(Not)
    else None
  }

  /** The rung of the ladder that reads an operator; 0 is the operand, 1 the prefixed operand. */
  function Level(op: Op): (n: nat)
    ensures 2 <= n <= TOP
  {
    match op
    case Pow => 2
    case Mul | Div | Mod => 3
    case Add | Sub => 4
    case Shl | Shr => 5
    case And | Or | Xor => 6
  }

  const TOP: nat := 6

  /** The rung of the right operand: one below, but two below for shifts. */
  function RightLevel(level: nat): (n: nat)
    ensures level >= 2 ==> 1 <= n < level
  {
    if level == 5 then 3 else if level >= 1 then level - 1 else 0
  }

  function BitNot(a: Word): Word {
    WORD - 1 - a
  }

  /** The low `n` bits of two numbers, combined bit by bit. */
  function Bitwise(f: (bool, bool) -> bool, a: nat, b: nat, n: nat): (c: nat)
    ensures c < Power2(n)
    decreases n
  {
    if n == 0 then 0
    else 2 * Bitwise(f, a / 2, b / 2, n - 1) + (if f(a % 2 == 1, b % 2 == 1) then 1 else 0)
  }

  lemma Power2Word()
    ensures Power2(32) == WORD
  {
    assert Power2(8) == 0x100;
    assert Power2(16) == 0x1_0000;
    assert Power2(24) == 0x100_0000;
  }

  function BitAnd(a: Word, b: Word): Word {
    Power2Word();
    Bitwise((x, y) => x && y, a, b, 32)
  }

  function BitOr(a: Word, b: Word): Word {
    Power2Word();
    Bitwise((x, y) => x || y, a, b, 32)
  }

  function BitXor(a: Word, b: Word): Word {
    Power2Word();
    Bitwise((x, y) => x != y, a, b, 32)
  }

  function ShiftLeft(a: Word, n: nat): Word {
    if n == 0 then a else Wrap(2 * ShiftLeft(a, n - 1))
  }

  function ShiftRight(a: Word, n: nat): Word {
    if n == 0 then a else ShiftRight(a, n - 1) / 2
  }

  /** None for a division by zero and for a shift by 32 or more, which C leaves undefined. */
  function Apply(op: Op, env: Env, a: Word, b: Word): Option<Word> {
    match op
    case Pow => Some(env.power(a, b))
    case Mul => Some(Wrap(a * b))
    case Div => if b == 0 then None else Some(Quotient(a, b))
    case Mod => if b == 0 then None else Some(a % b)
    case Add => Some(Wrap(a + b))
    case Sub => Some(Wrap(a - b))
    case Shl => if b < 32 then Some(ShiftLeft(a, b)) else None
    case Shr => if b < 32 then Some(ShiftRight(a, b)) else None
    case And => Some(BitAnd(a, b))
    case Or => Some(BitOr(a, b))
    case Xor => Some(BitXor(a, b))
  }

  function Quotient(a: Word, b: Word): Word
    requires b != 0
  {
    a / b
  }

  function ApplyPrefix(p: Prefix, a: Word): Word {
    match p
    case Plus => a
    case Minus => Wrap(0 - a)
    case Not => BitNot(a)
  }

  // -------------------------------------------------------------------- expressions

  datatype Expr =
    | Const(text: Token)
    | Paren(inner: Expr)
    | Unary(prefix: Prefix, operand: Expr)
    | Binary(op: Op, left: Expr, right: Expr)

  /** `e` is derivable at a rung of the layered grammar. */
  predicate InGrammar(e: Expr, level: nat)
    decreases e
  {
    match e
    case Const(text) => OkConst(text)
    case Paren(inner) => InGrammar(inner, TOP)
    case Unary(_, operand) => level >= 1 && !operand.Unary? && InGrammar(operand, 0)
    case Binary(op, l, r) =>
      level >= Level(op) && InGrammar(l, Level(op)) && InGrammar(r, RightLevel(Level(op)))
  }

  /** A constant is one word: it is not empty and made of letters, digits and underscores. */
  predicate OkConst(t: Token) {
    0 < |t| <= MAX_TOKEN_LEN && forall i :: 0 <= i < |t| ==> IsWordChar(t[i])
  }

  const MAX_TOKEN_LEN: nat := 50

  predicate IsWordChar(c: char) {
    'A' <= c <= 'Z' || 'a' <= c <= 'z' || '0' <= c <= '9' || c == '_'
  }

  function Tokens(e: Expr): (ts: seq<Token>)
    ensures |ts| > 0
  {
    match e
    case Const(text) => [text]
    case Paren(inner) => ["("] + Tokens(inner) + [")"]
    case Unary(p, operand) => [PrefixToken(p)] + Tokens(operand)
    case Binary(op, l, r) => Tokens(l) + [OpToken(op)] + Tokens(r)
  }

  /** What an expression means: left-associative 32-bit arithmetic. */
  function Value(e: Expr, env: Env): Option<Word> {
    match e
    case Const(text) => env.constant(text)
    case Paren(inner) => Value(inner, env)
    case Unary(p, operand) =>
      (match Value(operand, env)
       case None => None
       case Some(v) => Some(ApplyPrefix(p, v)))
    case Binary(op, l, r) =>
      match Value(l, env)
      case None => None
      case Some(a) =>
        match Value(r, env)
        case None => None
        case Some(b) => Apply(op, env, a, b)
  }

  // ---------------------------------------------------------------------- evaluator

  /** A value and the cursor after it. */
  datatype Parsed = Parsed(value: Word, next: nat)

  predicate OpAt(ts: seq<Token>, i: nat, level: nat) {
    i < |ts| && OpOf(ts[i]).Some? && Level(OpOf(ts[i]).value) == level
  }

  /** The rungs of the ladder from `level` down, from cursor `i`; None where the source ends with
      an error. */
  function Eval(ts: seq<Token>, env: Env, i: nat, level: nat): (r: Option<Parsed>)
    requires i <= |ts|
    ensures r.Some? ==> i < r.value.next <= |ts|
    decreases |ts| - i, level + 1
  {
    if level >= 2 then
      (match Eval(ts, env, i, level - 1)
       case None => None
       case Some(p) => Loop(ts, env, p.next, p.value, level))
    else if level == 1 then
      if i < |ts| && PrefixOf(ts[i]).Some? then
        (match Eval(ts, env, i + 1, 0)
         case None => None
         case Some(p) => Some(Parsed(ApplyPrefix(PrefixOf(ts[i]).value, p.value), p.next)))
      else Eval(ts, env, i, 0)
    else if i < |ts| && ts[i] == "(" then
      match Eval(ts, env, i + 1, TOP)
      case None => None
      case Some(p) => if p.next < |ts| && ts[p.next] == ")" then Some(p) else None
    else if i == |ts| then None
    else
      match env.constant(ts[i])
      case None => None
      case Some(v) => Some(Parsed(v, i + 1))
  }

  /** The loop of one rung, with the value so far. */
  function Loop(ts: seq<Token>, env: Env, i: nat, acc: Word, level: nat): (r: Option<Parsed>)
    requires i <= |ts|
    ensures r.Some? ==> i <= r.value.next <= |ts|
    decreases |ts| - i, 0
  {
    if !OpAt(ts, i, level) then Some(Parsed(acc, i))
    else
      match Eval(ts, env, i + 1, RightLevel(level))
      case None => None
      case Some(p) =>
        match Apply(OpOf(ts[i]).value, env, acc, p.value)
        case None => None
        case Some(v) => Loop(ts, env, p.next, v, level)
  }

  // ------------------------------------------------------------------ what it computes

  predicate NoParen(e: Expr) {
    match e
    case Const(_) => true
    case Paren(_) => false
    case Unary(_, operand) => NoParen(operand)
    case Binary(_, l, r) => NoParen(l) && NoParen(r)
  }

  /** Every parenthesis closes at the very end of the expression. */
  predicate ClosesAtEnd(e: Expr) {
    match e
    case Const(_) => true
    case Paren(inner) => ClosesAtEnd(inner)
    case Unary(_, operand) => ClosesAtEnd(operand)
    case Binary(_, l, r) => NoParen(l) && ClosesAtEnd(r)
  }

  /** How many tokens come before the first closing parenthesis, all of them if there is none. */
  function Reach(e: Expr): (n: nat)
    ensures 0 < n <= |Tokens(e)|
    ensures NoParen(e) <==> n == |Tokens(e)|
    ensures !NoParen(e) ==> Tokens(e)[n] == ")"
  {
    match e
    case Const(_) => 1
    case Paren(inner) => 1 + Reach(inner)
    case Unary(_, operand) => 1 + Reach(operand)
    case Binary(_, l, r) => if NoParen(l) then |Tokens(l)| + 1 + Reach(r) else Reach(l)
  }

  lemma OpTokens(op: Op)
    ensures OpOf(OpToken(op)) == Some(op)
    ensures OpOf(")") == None && OpOf("(") == None
  {
  }

  lemma PrefixTokens(p: Prefix, t: Token)
    ensures PrefixOf(PrefixToken(p)) == Some(p) && PrefixOf("(") == None
    ensures OkConst(t) ==> PrefixOf(t) == None && t != "(" && t != ")"
  {
    assert !IsWordChar('+') && !IsWordChar('-') && !IsWordChar('~');
    assert OkConst(t) ==> IsWordChar(t[0]);
  }

  /** The tokens of `e` stand at cursor `i`. */
  ghost predicate StandsAt(ts: seq<Token>, i: nat, e: Expr) {
    i + |Tokens(e)| <= |ts| && ts[i..i + |Tokens(e)|] == Tokens(e)
  }

  /** No operator of a rung below `level` stands at `j`. */
  ghost predicate Ends(ts: seq<Token>, j: nat, level: nat) {
    forall k :: 0 <= k < level ==> !OpAt(ts, j, k)
  }

  /** Go on with the loop of a rung after the value `v`, if there is one. */
  function Continue(ts: seq<Token>, env: Env, j: nat, v: Option<Word>, level: nat): Option<Parsed>
    requires j <= |ts|
  {
    match v
    case None => None
    case Some(a) => if level >= 2 then Loop(ts, env, j, a, level) else Some(Parsed(a, j))
  }

  lemma Slice(ts: seq<Token>, i: nat, here: seq<Token>, k: nat, m: nat)
    requires i + |here| <= |ts| && ts[i..i + |here|] == here && k <= m <= |here|
    ensures ts[i + k..i + m] == here[k..m]
    ensures k < |here| ==> ts[i + k] == here[k]
  {
    forall n | 0 <= n < |here|
      ensures ts[i + n] == here[n]
    {
      assert ts[i + n] == ts[i..i + |here|][n];
    }
  }

  lemma StandsConst(ts: seq<Token>, i: nat, e: Expr)
    requires StandsAt(ts, i, e)
    ensures i < |ts| && i + Reach(e) <= |ts|
    ensures e.Const? ==> ts[i] == e.text
    ensures !NoParen(e) ==> i + Reach(e) < |ts| && ts[i + Reach(e)] == ")"
  {
    hide NoParen, Reach, StandsAt, Tokens;
    StandsInside(ts, i, e);
    ReachInside(e);
    Slice(ts, i, Tokens(e), 0, 0);
    if !NoParen(e) {
      Slice(ts, i, Tokens(e), Reach(e), Reach(e));
    }
  }

  lemma StandsInside(ts: seq<Token>, i: nat, e: Expr)
    requires StandsAt(ts, i, e)
    ensures i + |Tokens(e)| <= |ts| && ts[i..i + |Tokens(e)|] == Tokens(e)
    ensures e.Const? ==> Tokens(e)[0] == e.text
  {
  }

  lemma ReachInside(e: Expr)
    ensures 0 < Reach(e) <= |Tokens(e)|
    ensures !NoParen(e) ==> Reach(e) < |Tokens(e)| && Tokens(e)[Reach(e)] == ")"
  {
  }

  lemma StandsParen(ts: seq<Token>, i: nat, e: Expr)
    requires StandsAt(ts, i, e) && e.Paren?
    ensures i < |ts| && ts[i] == "(" && StandsAt(ts, i + 1, e.inner)
  {
    var here := Tokens(e);
    Slice(ts, i, here, 0, 0);
    Slice(ts, i, here, 1, |here| - 1);
    assert here[1..|here| - 1] == Tokens(e.inner);
  }

  lemma StandsUnary(ts: seq<Token>, i: nat, e: Expr)
    requires StandsAt(ts, i, e) && e.Unary?
    ensures i < |ts| && ts[i] == PrefixToken(e.prefix) && StandsAt(ts, i + 1, e.operand)
  {
    hide PrefixToken;
    var here := Tokens(e);
    Slice(ts, i, here, 0, 0);
    Slice(ts, i, here, 1, |here|);
    assert here[1..|here|] == Tokens(e.operand);
  }

  lemma StandsBinary(ts: seq<Token>, i: nat, e: Expr)
    requires StandsAt(ts, i, e) && e.Binary?
    ensures var j := i + |Tokens(e.left)|;
      && StandsAt(ts, i, e.left) && j < |ts| && ts[j] == OpToken(e.op)
      && StandsAt(ts, j + 1, e.right)
  {
    hide OpToken;
    var here := Tokens(e);
    var n := |Tokens(e.left)|;
    Slice(ts, i, here, 0, n);
    Slice(ts, i, here, n, n);
    Slice(ts, i, here, n + 1, |here|);
    assert here[0..n] == Tokens(e.left);
    assert here[n + 1..|here|] == Tokens(e.right);
  }

  lemma {:induction false} NoParenCloses(e: Expr)
    requires NoParen(e)
    ensures ClosesAtEnd(e)
  {
    match e {
      case Const(_) =>
      case Unary(_, operand) => NoParenCloses(operand);
      case Binary(_, l, r) => NoParenCloses(r);
    }
  }

  /** Reading an expression at its rung amounts to its value followed by the loop of that rung. */
  lemma {:induction false} EvalThenContinue(ts: seq<Token>, env: Env, i: nat, e: Expr, level: nat)
    requires InGrammar(e, level) && ClosesAtEnd(e) && StandsAt(ts, i, e)
    requires Ends(ts, i + Reach(e), level)
    ensures i + Reach(e) <= |ts|
    ensures Eval(ts, env, i, level) == Continue(ts, env, i + Reach(e), Value(e, env), level)
    decreases e, level + 1
  {
    hide OpOf, PrefixOf, OpToken, PrefixToken, StandsAt, Tokens, OkConst, Apply, ApplyPrefix, Reach;
    StandsConst(ts, i, e);
    ReachParts(e);
    if level >= 2 && !(e.Binary? && Level(e.op) == level) {
      EvalThenContinue(ts, env, i, e, level - 1);
    } else if level >= 2 {
      EvalBinary(ts, env, i, e);
    } else if e.Unary? {
      PrefixTokens(e.prefix, "");
      StandsUnary(ts, i, e);
      EvalThenContinue(ts, env, i + 1, e.operand, 0);
    } else if e.Paren? {
      EvalParen(ts, env, i, e, level);
    } else {
      PrefixTokens(Plus, ts[i]);
    }
  }

  lemma ReachParts(e: Expr)
    ensures e.Const? ==> Reach(e) == 1
    ensures e.Paren? ==> Reach(e) == 1 + Reach(e.inner)
    ensures e.Unary? ==> Reach(e) == 1 + Reach(e.operand)
    ensures e.Binary? && NoParen(e.left) ==> Reach(e) == |Tokens(e.left)| + 1 + Reach(e.right)
    ensures NoParen(e) ==> Reach(e) == |Tokens(e)|
  {
  }

  lemma {:induction false} EvalParen(ts: seq<Token>, env: Env, i: nat, e: Expr, level: nat)
    requires e.Paren? && InGrammar(e, level) && ClosesAtEnd(e) && StandsAt(ts, i, e) && level <= 1
    ensures i + Reach(e) <= |ts|
    ensures Eval(ts, env, i, level) == Continue(ts, env, i + Reach(e), Value(e, env), level)
    decreases e, 0
  {
    hide OpOf, PrefixOf, OpToken, PrefixToken, StandsAt, Tokens, OkConst, Apply, ApplyPrefix, Reach;
    StandsConst(ts, i, e);
    StandsParen(ts, i, e);
    ReachParts(e);
    OpTokens(Add);
    PrefixTokens(Plus, "");
    EvalThenContinue(ts, env, i + 1, e.inner, TOP);
    assert !OpAt(ts, i + Reach(e), TOP);
    assert Eval(ts, env, i, 0) == Continue(ts, env, i + Reach(e), Value(e, env), 0);
  }

  lemma {:induction false} EvalBinary(ts: seq<Token>, env: Env, i: nat, e: Expr)
    requires e.Binary? && InGrammar(e, Level(e.op)) && ClosesAtEnd(e) && StandsAt(ts, i, e)
    requires Ends(ts, i + Reach(e), Level(e.op))
    ensures i + Reach(e) <= |ts|
    ensures var level := Level(e.op);
      Eval(ts, env, i, level) == Continue(ts, env, i + Reach(e), Value(e, env), level)
    decreases e, 0
  {
    hide OpOf, PrefixOf, OpToken, PrefixToken, StandsAt, Tokens, OkConst, Apply, ApplyPrefix, Reach,
         Level;
    var level := Level(e.op);
    var j := i + |Tokens(e.left)|;
    StandsConst(ts, i, e);
    StandsBinary(ts, i, e);
    ReachParts(e);
    ReachParts(e.left);
    OpTokens(e.op);
    NoParenCloses(e.left);
    EvalThenContinue(ts, env, i, e.left, level);
    EvalThenContinue(ts, env, j + 1, e.right, RightLevel(level));
  }

  // ------------------------------------------------------------ the closing parenthesis

  ghost predicate NoneBefore(ts: seq<Token>, i: nat, j: nat, t: Token) {
    j <= |ts| && forall k :: i <= k < j ==> ts[k] != t
  }

  /** The evaluator never goes past the first closing parenthesis: what follows it is not read. */
  lemma {:induction false} EvalStopsAtClose(ts: seq<Token>, us: seq<Token>, env: Env, i: nat,
                                            k: nat, level: nat)
    requires env.constant(")") == None
    requires i <= k < |ts| && ts[k] == ")" && NoneBefore(ts, i, k, ")")
    requires k < |us| && us[..k + 1] == ts[..k + 1]
    ensures Eval(ts, env, i, level) == Eval(us, env, i, level)
    ensures Eval(ts, env, i, level).Some? ==> Eval(ts, env, i, level).value.next <= k
    decreases |ts| - i, level + 1
  {
    hide Loop, OpOf, PrefixOf, Apply, ApplyPrefix, Level, OpAt;
    Agree(ts, us, k, i);
    ClosePlain();
    if level >= 2 {
      EvalStopsAtClose(ts, us, env, i, k, level - 1);
      if Eval(ts, env, i, level - 1).Some? {
        var p := Eval(ts, env, i, level - 1).value;
        LoopStopsAtClose(ts, us, env, p.next, p.value, k, level);
      }
    } else if level == 1 {
      if i < k {
        EvalStopsAtClose(ts, us, env, i + 1, k, 0);
      }
      EvalStopsAtClose(ts, us, env, i, k, 0);
    } else if i < k {
      EvalStopsAtClose(ts, us, env, i + 1, k, TOP);
      if Eval(ts, env, i + 1, TOP).Some? {
        Agree(ts, us, k, Eval(ts, env, i + 1, TOP).value.next);
      }
    }
  }

  lemma {:induction false} LoopStopsAtClose(ts: seq<Token>, us: seq<Token>, env: Env, i: nat,
                                            acc: Word, k: nat, level: nat)
    requires env.constant(")") == None
    requires i <= k < |ts| && ts[k] == ")" && NoneBefore(ts, i, k, ")")
    requires k < |us| && us[..k + 1] == ts[..k + 1]
    ensures Loop(ts, env, i, acc, level) == Loop(us, env, i, acc, level)
    ensures Loop(ts, env, i, acc, level).Some? ==> Loop(ts, env, i, acc, level).value.next <= k
    decreases |ts| - i, 0
  {
    hide OpOf, PrefixOf, Apply, ApplyPrefix, Level;
    Agree(ts, us, k, i);
    OpTokens(Add);
    if OpAt(ts, i, level) {
      EvalStopsAtClose(ts, us, env, i + 1, k, RightLevel(level));
      var r := Eval(ts, env, i + 1, RightLevel(level));
      if r.Some? && Apply(OpOf(ts[i]).value, env, acc, r.value.value).Some? {
        LoopStopsAtClose(ts, us, env, r.value.next,
                         Apply(OpOf(ts[i]).value, env, acc, r.value.value).value, k, level);
      }
    }
  }

  lemma ClosePlain()
    ensures PrefixOf(")") == None
  {
  }

  lemma Agree(ts: seq<Token>, us: seq<Token>, k: nat, i: nat)
    requires i <= k < |ts| && k < |us| && us[..k + 1] == ts[..k + 1]
    ensures ts[i] == us[i]
  {
    assert ts[i] == ts[..k + 1][i];
    assert us[i] == us[..k + 1][i];
  }

  /** What was read holds no parenthesis, or the cursor is stuck on a closing one. */
  ghost predicate PlainOrStuck(ts: seq<Token>, i: nat, r: Option<Parsed>) {
    r.Some? ==>
      && r.value.next <= |ts|
      && ((NoneBefore(ts, i, r.value.next, "(") && NoneBefore(ts, i, r.value.next, ")"))
          || (r.value.next < |ts| && ts[r.value.next] == ")"))
  }

  lemma {:induction false} EvalPlainOrStuck(ts: seq<Token>, env: Env, i: nat, level: nat)
    requires env.constant(")") == None && i <= |ts|
    ensures PlainOrStuck(ts, i, Eval(ts, env, i, level))
    decreases |ts| - i, level + 1
  {
    hide OpOf, PrefixOf, Apply, ApplyPrefix, Level;
    OpTokens(Add);
    PrefixTokens(Plus, "");
    ClosePlain();
    if level >= 2 {
      EvalPlainOrStuck(ts, env, i, level - 1);
      if Eval(ts, env, i, level - 1).Some? {
        var p := Eval(ts, env, i, level - 1).value;
        LoopPlainOrStuck(ts, env, p.next, p.value, level);
      }
    } else if level == 1 {
      EvalPlainOrStuck(ts, env, i, 0);
      if i < |ts| && PrefixOf(ts[i]).Some? {
        EvalPlainOrStuck(ts, env, i + 1, 0);
      }
    }
  }

  lemma {:induction false} LoopPlainOrStuck(ts: seq<Token>, env: Env, i: nat, acc: Word,
                                            level: nat)
    requires env.constant(")") == None && i <= |ts|
    ensures PlainOrStuck(ts, i, Loop(ts, env, i, acc, level))
    ensures i < |ts| && ts[i] == ")" ==> Loop(ts, env, i, acc, level) == Some(Parsed(acc, i))
    decreases |ts| - i, 0
  {
    hide OpOf, PrefixOf, Apply, ApplyPrefix, Level;
    OpTokens(Add);
    if OpAt(ts, i, level) {
      EvalPlainOrStuck(ts, env, i + 1, RightLevel(level));
      var r := Eval(ts, env, i + 1, RightLevel(level));
      if r.Some? && Apply(OpOf(ts[i]).value, env, acc, r.value.value).Some? {
        LoopPlainOrStuck(ts, env, r.value.next,
                         Apply(OpOf(ts[i]).value, env, acc, r.value.value).value, level);
      }
    }
  }

  // ------------------------------------------------------------------------ tokenizer

  const TOKEN_BUFFER_SIZE: nat := 1024

  predicate IsBlank(c: char) {
    c == ' ' || c == '\t' || c == '\r' || c == '\U{0C}' || c == '\U{0B}'
  }

  predicate IsSymbolChar(c: char) {
    c in "+-*/%&|^~()"
  }

  predicate IsAngle(c: char) {
    c == '<' || c == '>'
  }

  /** One more token; the buffer keeps its last place for the end mark. */
  function Push(acc: seq<Token>, t: Token): Option<seq<Token>> {
    if |acc| >= TOKEN_BUFFER_SIZE - 1 then None else Some(acc + [t])
  }

  /** One more token unless it is empty. */
  function Flush(acc: seq<Token>, cur: Token): Option<seq<Token>> {
    if cur == "" then Some(acc) else Push(acc, cur)
  }

  /** The tokens of the rest of a text, after the tokens `acc` and the begun token `cur`. */
  function Scan(text: string, cur: Token, acc: seq<Token>): Option<seq<Token>>
    decreases |text|
  {
    if text == "" then Flush(acc, cur)
    else
      var c := text[0];
      if IsBlank(c) then
        (match Flush(acc, cur)
         case None => None
         case Some(a) => Scan(text[1..], "", a))
      else if IsAngle(c) || IsSymbolChar(c) then
        var n := if IsAngle(c) && |text| > 1 && text[1] == c then 2 else 1;
        match Flush(acc, cur)
        case None => None
        case Some(a) =>
          match Push(a, text[..n])
          case None => None
          case Some(b) => Scan(text[n..], "", b)
      else if IsWordChar(c) then
        if |cur| >= MAX_TOKEN_LEN then None else Scan(text[1..], cur + [c], acc)
      else Scan(text[1..], cur, acc)
  }

  predicate IsCExpr(text: string) {
    |text| >= 3 && text[0] == '`' && text[|text| - 1] == '`'
  }

  /** A character that belongs to no token and ends none. */
  predicate IsIgnored(c: char) {
    !IsBlank(c) && !IsAngle(c) && !IsSymbolChar(c) && !IsWordChar(c)
  }

  lemma {:induction false} ScanKeepsTokens(text: string, cur: Token, acc: seq<Token>)
    requires acc != [] || cur != ""
    ensures Scan(text, cur, acc) != Some([])
    decreases |text|
  {
    hide IsBlank, IsAngle, IsSymbolChar, IsWordChar;
    if text != "" {
      var c := text[0];
      var n := if IsAngle(c) && |text| > 1 && text[1] == c then 2 else 1;
      var flushed := Flush(acc, cur);
      if IsBlank(c) {
        if flushed.Some? {
          ScanKeepsTokens(text[1..], "", flushed.value);
        }
      } else if IsAngle(c) || IsSymbolChar(c) {
        if flushed.Some? && Push(flushed.value, text[..n]).Some? {
          ScanKeepsTokens(text[n..], "", flushed.value + [text[..n]]);
        }
      } else if IsWordChar(c) {
        ScanKeepsTokens(text[1..], cur + [c], acc);
      } else {
        ScanKeepsTokens(text[1..], cur, acc);
      }
    }
  }

  /** The characters that tokens are made of. */
  predicate InToken(c: char): (b: bool)
    ensures b <==> !IsBlank(c) && !IsIgnored(c)
  {
    c in "+-*/%&|^~()<>_" || '0' <= c <= '9' || 'A' <= c <= 'Z' || 'a' <= c <= 'z'
  }

  /** A text has no token exactly when it holds none of their characters.  The source then
      reads a place of its token buffer that it never set; here the evaluation fails. */
  lemma {:induction false} NoTokenIff(text: string)
    ensures Scan(text, "", []) == Some([])
       <==> forall i :: 0 <= i < |text| ==> !InToken(text[i])
    decreases |text|
  {
    hide IsBlank, IsAngle, IsSymbolChar, IsWordChar, InToken;
    if text != "" {
      var c := text[0];
      var n := if IsAngle(c) && |text| > 1 && text[1] == c then 2 else 1;
      if !InToken(c) {
        NoTokenIff(text[1..]);
        assert forall i :: 0 < i < |text| ==> text[i] == text[1..][i - 1];
        assert forall i :: 0 <= i < |text[1..]| ==> text[1..][i] == text[i + 1];
      } else if IsAngle(c) || IsSymbolChar(c) {
        ScanKeepsTokens(text[n..], "", [text[..n]]);
        assert [] + [text[..n]] == [text[..n]];
      } else {
        ScanKeepsTokens(text[1..], [c], []);
        assert "" + [c] == [c];
      }
    }
  }

  /** The whole evaluation of a backquoted text, None where the source ends with an error. */
  function Result(text: string, env: Env): Option<Word> {
    if !IsCExpr(text) then None
    else
      match Scan(text, "", [])
      case None => None
      case Some(ts) =>
        match Eval(ts, env, 0, TOP)
        case None => None
        case Some(p) => Some(p.value)
  }

  // ------------------------------------------------------------- printing and reading back

  predicate IsSymbol(t: Token) {
    t in {"+", "-", "*", "/", "%", "&", "|", "^", "~", "(", ")", "<<", ">>"}
  }

  /** The tokens with blanks after each. */
  function Text(ts: seq<Token>, gaps: seq<string>): string
    requires |gaps| == |ts|
  {
    if ts == [] then "" else ts[0] + gaps[0] + Text(ts[1..], gaps[1..])
  }

  /** Spaces, tabs and the other blanks but the newline. */
  predicate AllBlank(s: string): (b: bool)
    ensures b ==> forall i :: 0 <= i < |s| ==> IsBlank(s[i])
  {
    forall i :: 0 <= i < |s| ==> s[i] in " \t\r\U{0B}\U{0C}"
  }

  /** Gaps hold blanks only, and two neighbouring words have at least one between them. */
  ghost predicate Spaced(ts: seq<Token>, gaps: seq<string>) {
    && |gaps| == |ts|
    && (forall i :: 0 <= i < |ts| ==> AllBlank(gaps[i]))
    && (forall i :: 0 <= i < |ts| - 1 && OkConst(ts[i]) && gaps[i] == "" ==> IsSymbol(ts[i + 1]))
  }

  ghost predicate Printable(ts: seq<Token>) {
    forall i :: 0 <= i < |ts| ==> OkConst(ts[i]) || IsSymbol(ts[i])
  }

  lemma {:induction false} ScanWord(w: string, rest: string, cur: Token, acc: seq<Token>)
    requires |cur| + |w| <= MAX_TOKEN_LEN && forall i :: 0 <= i < |w| ==> IsWordChar(w[i])
    ensures Scan(w + rest, cur, acc) == Scan(rest, cur + w, acc)
    decreases |w|
  {
    if w == "" {
      assert w + rest == rest && cur + w == cur;
    } else {
      assert (w + rest)[0] == w[0] && (w + rest)[1..] == w[1..] + rest;
      assert IsWordChar(w[0]);
      ScanWord(w[1..], rest, cur + [w[0]], acc);
      assert cur + [w[0]] + w[1..] == cur + w;
    }
  }

  lemma {:induction false} ScanBlanks(s: string, rest: string, acc: seq<Token>)
    requires AllBlank(s)
    ensures Scan(s + rest, "", acc) == Scan(rest, "", acc)
    decreases |s|
  {
    if s == "" {
      assert s + rest == rest;
    } else {
      assert (s + rest)[0] == s[0] && (s + rest)[1..] == s[1..] + rest;
      ScanBlanks(s[1..], rest, acc);
    }
  }

  /** A begun word ends where a blank, a symbol or the closing quote follows. */
  lemma ScanEndsWord(rest: string, cur: Token, acc: seq<Token>)
    requires cur != "" && |acc| < TOKEN_BUFFER_SIZE - 1
    requires rest == "`" || (rest != "" && (IsBlank(rest[0]) || IsAngle(rest[0]) || IsSymbolChar(rest[0])))
    ensures Scan(rest, cur, acc) == Scan(rest, "", acc + [cur])
  {
    if rest == "`" {
      assert rest[1..] == "";
    }
  }

  lemma ScanSymbol(t: Token, rest: string, acc: seq<Token>)
    requires IsSymbol(t) && |acc| < TOKEN_BUFFER_SIZE - 1
    ensures Scan(t + rest, "", acc) == Scan(rest, "", acc + [t])
    ensures IsAngle(t[0]) || IsSymbolChar(t[0])
  {
    var text := t + rest;
    assert text[..|t|] == t && text[|t|..] == rest;
    assert IsAngle(t[0]) <==> |t| == 2;
    assert text[0] == t[0];
    assert |t| == 2 ==> text[1] == t[1];
  }

  lemma {:induction false} ScanText(ts: seq<Token>, gaps: seq<string>, acc: seq<Token>)
    requires Spaced(ts, gaps) && Printable(ts) && |acc| + |ts| < TOKEN_BUFFER_SIZE
    ensures Scan(Text(ts, gaps) + "`", "", acc) == Some(acc + ts)
    decreases |ts|
  {
    hide Scan, IsSymbol, OkConst, IsBlank, IsAngle, IsSymbolChar;
    if ts == [] {
      ScanQuote(acc);
      assert Text(ts, gaps) + "`" == "`" && acc + ts == acc;
    } else {
      var t, gap := ts[0], gaps[0];
      var later := Text(ts[1..], gaps[1..]) + "`";
      assert Text(ts, gaps) + "`" == t + (gap + later);
      assert OkConst(t) || IsSymbol(t);
      if IsSymbol(t) {
        ScanSymbol(t, gap + later, acc);
      } else {
        ScanConst(ts, gaps, gap + later, acc);
      }
      ScanBlanks(gap, later, acc + [t]);
      ScanText(ts[1..], gaps[1..], acc + [t]);
      assert acc + [t] + ts[1..] == acc + ts;
    }
  }

  lemma ScanQuote(acc: seq<Token>)
    ensures Scan("`", "", acc) == Some(acc)
  {
    assert "`"[1..] == "";
  }

  lemma ScanConst(ts: seq<Token>, gaps: seq<string>, rest: string, acc: seq<Token>)
    requires Spaced(ts, gaps) && Printable(ts) && |acc| < TOKEN_BUFFER_SIZE - 1
    requires ts != [] && OkConst(ts[0])
    requires rest == gaps[0] + (Text(ts[1..], gaps[1..]) + "`")
    ensures Scan(ts[0] + rest, "", acc) == Scan(rest, "", acc + [ts[0]])
  {
    hide Scan, IsSymbol, IsBlank, IsAngle, IsSymbolChar, Text;
    ScanWord(ts[0], rest, "", acc);
    assert "" + ts[0] == ts[0];
    WordEnds(ts, gaps, rest);
    ScanEndsWord(rest, ts[0], acc);
  }

  /** What follows a printed word ends it. */
  lemma WordEnds(ts: seq<Token>, gaps: seq<string>, rest: string)
    requires Spaced(ts, gaps) && Printable(ts) && ts != [] && OkConst(ts[0])
    requires rest == gaps[0] + (Text(ts[1..], gaps[1..]) + "`")
    ensures rest == "`" || (rest != "" && (IsBlank(rest[0]) || IsAngle(rest[0]) || IsSymbolChar(rest[0])))
  {
    hide IsSymbol, IsBlank, IsAngle, IsSymbolChar;
    if gaps[0] != "" {
      assert AllBlank(gaps[0]) && rest[0] == gaps[0][0];
    } else if |ts| == 1 {
      assert rest == "`";
    } else {
      ScanSymbol(ts[1], "", []);
      SymbolStarts(ts, gaps, rest);
    }
  }

  lemma SymbolStarts(ts: seq<Token>, gaps: seq<string>, rest: string)
    requires |gaps| == |ts| > 1 && IsSymbol(ts[1])
    requires rest == "" + (Text(ts[1..], gaps[1..]) + "`")
    ensures |rest| > 0 && |ts[1]| > 0 && rest[0] == ts[1][0]
  {
    assert ts[1..][0] == ts[1];
  }

  /** The tokens of an expression are words and symbols. */
  lemma {:induction false} TokensPrintable(e: Expr, level: nat)
    requires InGrammar(e, level)
    ensures Printable(Tokens(e))
    decreases e
  {
    hide IsSymbol, OkConst;
    SymbolTokens();
    match e {
      case Const(_) =>
      case Paren(inner) => TokensPrintable(inner, TOP);
      case Unary(_, operand) => TokensPrintable(operand, 0);
      case Binary(op, l, r) =>
        TokensPrintable(l, Level(op));
        TokensPrintable(r, RightLevel(Level(op)));
    }
  }

  lemma SymbolTokens()
    ensures IsSymbol("(") && IsSymbol(")")
    ensures forall p :: IsSymbol(PrefixToken(p))
    ensures forall op :: IsSymbol(OpToken(op)) || OkConst(OpToken(op))
  {
  }

  /** Reading back: any expression of the grammar whose parentheses all close at its end, printed
      with any blanks that keep its words apart, is cut into its own tokens again and evaluates to
      its value, and the cursor ends before the first closing parenthesis. */
  lemma ReadBack(e: Expr, gaps: seq<string>, env: Env)
    requires InGrammar(e, TOP) && ClosesAtEnd(e)
    requires Spaced(Tokens(e), gaps) && |Tokens(e)| < TOKEN_BUFFER_SIZE
    ensures var text := "`" + Text(Tokens(e), gaps) + "`";
      && Scan(text, "", []) == Some(Tokens(e))
      && Result(text, env) == Value(e, env)
      && (Value(e, env).Some? ==>
            Eval(Tokens(e), env, 0, TOP) == Some(Parsed(Value(e, env).value, Reach(e))))
  {
    hide Eval, Loop, Spaced, Printable, InGrammar, ClosesAtEnd, Value, OpAt, Text, Tokens, Reach;
    TokensPrintable(e, TOP);
    ScanPrinted(Tokens(e), gaps);
    EvalPrinted(e, env);
    var text := "`" + Text(Tokens(e), gaps) + "`";
    TextNonEmpty(e, gaps);
  }

  lemma TextNonEmpty(e: Expr, gaps: seq<string>)
    requires |gaps| == |Tokens(e)| && Printable(Tokens(e))
    ensures Text(Tokens(e), gaps) != ""
  {
    hide Tokens;
    assert OkConst(Tokens(e)[0]) || IsSymbol(Tokens(e)[0]);
  }

  lemma ScanPrinted(ts: seq<Token>, gaps: seq<string>)
    requires Spaced(ts, gaps) && Printable(ts) && |ts| < TOKEN_BUFFER_SIZE
    ensures |gaps| == |ts|
    ensures Scan("`" + Text(ts, gaps) + "`", "", []) == Some(ts)
  {
    ScanText(ts, gaps, []);
    var text := "`" + Text(ts, gaps) + "`";
    assert text[0] == '`' && text[1..] == Text(ts, gaps) + "`";
    assert [] + ts == ts;
  }

  lemma EvalPrinted(e: Expr, env: Env)
    requires InGrammar(e, TOP) && ClosesAtEnd(e)
    ensures Eval(Tokens(e), env, 0, TOP) ==
      match Value(e, env)
      case None => None
      case Some(v) => Some(Parsed(v, Reach(e)))
  {
    hide OpOf, Tokens, InGrammar, ClosesAtEnd, Value, Reach;
    var ts := Tokens(e);
    assert ts[0..0 + |ts|] == ts;
    OpTokens(Add);
    ReachParts(e);
    if !NoParen(e) {
      StandsConst(ts, 0, e);
    }
    EvalThenContinue(ts, env, 0, e, TOP);
  }

  /** The evaluator uses up all tokens of an expression exactly when it has no parentheses: a
      closing parenthesis is never passed. */
  lemma AllConsumedIff(e: Expr, env: Env)
    requires InGrammar(e, TOP) && env.constant(")") == None
    requires Eval(Tokens(e), env, 0, TOP).Some?
    ensures Eval(Tokens(e), env, 0, TOP).value.next == |Tokens(e)| <==> NoParen(e)
  {
    hide Eval, InGrammar, Reach, Value;
    if NoParen(e) {
      NoParenCloses(e);
      EvalPrinted(e, env);
      ReachParts(e);
    } else {
      ReachFirst(e, TOP);
      EvalPlainOrStuck(Tokens(e), env, 0, TOP);
      assert Tokens(e)[Reach(e)] == ")";
    }
  }

  /** What follows the first closing parenthesis has no effect: an expression with parentheses
      evaluates like any token list that agrees with it up to that parenthesis. */
  lemma RestIgnored(e: Expr, env: Env, rest: seq<Token>)
    requires InGrammar(e, TOP) && !NoParen(e) && env.constant(")") == None
    ensures Eval(Tokens(e), env, 0, TOP) == Eval(Tokens(e)[..Reach(e) + 1] + rest, env, 0, TOP)
  {
    hide Eval, InGrammar, Value, Tokens, NoParen, Reach;
    ReachFirst(e, TOP);
    var k := Reach(e);
    ReachLess(e);
    var us := Tokens(e)[..k + 1] + rest;
    assert us[..k + 1] == Tokens(e)[..k + 1];
    EvalStopsAtClose(Tokens(e), us, env, 0, k, TOP);
  }

  lemma ReachLess(e: Expr)
    requires !NoParen(e)
    ensures Reach(e) < |Tokens(e)| && Tokens(e)[Reach(e)] == ")"
  {
  }

  lemma {:induction false} ReachFirst(e: Expr, level: nat)
    requires InGrammar(e, level)
    ensures NoneBefore(Tokens(e), 0, Reach(e), ")")
    decreases e
  {
    SymbolTokensNotClose();
    match e {
      case Const(text) => PrefixTokens(Plus, text);
      case Paren(inner) => ReachFirst(inner, TOP);
      case Unary(_, operand) => ReachFirst(operand, 0);
      case Binary(op, l, r) =>
        ReachFirst(l, Level(op));
        ReachFirst(r, RightLevel(Level(op)));
    }
  }

  lemma SymbolTokensNotClose()
    ensures forall p :: PrefixToken(p) != ")"
    ensures forall op :: OpToken(op) != ")"
  {
  }

  /** The expression that the evaluator sees: everything up to the first closing parenthesis, with
      the open parentheses closed there. */
  function Trunc(e: Expr): Expr {
    match e
    case Const(_) => e
    case Paren(inner) => Paren(Trunc(inner))
    case Unary(p, operand) => Unary(p, Trunc(operand))
    case Binary(op, l, r) => if NoParen(l) then Binary(op, l, Trunc(r)) else Trunc(l)
  }

  lemma {:induction false} TruncSmaller(e: Expr)
    ensures |Tokens(Trunc(e))| <= |Tokens(e)|
    ensures !ClosesAtEnd(e) ==> |Tokens(Trunc(e))| < |Tokens(e)|
    ensures ClosesAtEnd(e) ==> Trunc(e) == e
    decreases e
  {
    match e {
      case Const(_) =>
      case Paren(inner) => TruncSmaller(inner);
      case Unary(_, operand) => TruncSmaller(operand);
      case Binary(_, l, r) =>
        TruncSmaller(l);
        TruncSmaller(r);
    }
  }

  /** It is the whole expression exactly when all parentheses close at the end. */
  lemma TruncWholeIff(e: Expr)
    ensures Trunc(e) == e <==> ClosesAtEnd(e)
  {
    TruncSmaller(e);
  }

  lemma {:induction false} HigherRung(e: Expr, low: nat, high: nat)
    requires InGrammar(e, low) && low <= high
    ensures InGrammar(e, high)
  {
  }

  lemma {:induction false} TruncInGrammar(e: Expr, level: nat)
    requires InGrammar(e, level)
    ensures InGrammar(Trunc(e), level) && ClosesAtEnd(Trunc(e))
    ensures level == 0 ==> !Trunc(e).Unary?
    decreases e
  {
    hide OkConst;
    match e {
      case Const(_) =>
      case Paren(inner) => TruncInGrammar(inner, TOP);
      case Unary(_, operand) => TruncInGrammar(operand, 0);
      case Binary(op, l, r) =>
        if NoParen(l) {
          TruncInGrammar(r, RightLevel(Level(op)));
        } else {
          TruncInGrammar(l, Level(op));
          HigherRung(Trunc(l), Level(op), level);
        }
    }
  }

  /** Up to its first closing parenthesis an expression has the tokens of its truncation. */
  lemma {:induction false} TruncTokens(e: Expr)
    ensures Reach(Trunc(e)) == Reach(e) && (NoParen(Trunc(e)) <==> NoParen(e))
    ensures Tokens(Trunc(e))[..Reach(e)] == Tokens(e)[..Reach(e)]
    decreases e
  {
    hide OpToken, PrefixToken;
    match e {
      case Const(_) =>
      case Paren(inner) =>
        TruncTokens(inner);
        TakeInside("(", Tokens(inner), Tokens(Trunc(inner)), Reach(inner));
      case Unary(p, operand) =>
        TruncTokens(operand);
        TakeAfter([PrefixToken(p)], Tokens(operand), Tokens(Trunc(operand)), Reach(operand));
      case Binary(op, l, r) =>
        TruncTokens(l);
        TruncTokens(r);
        TruncBinary(op, l, r);
    }
  }

  lemma TruncBinary(op: Op, l: Expr, r: Expr)
    requires Reach(Trunc(l)) == Reach(l) && (NoParen(Trunc(l)) <==> NoParen(l))
    requires Reach(Trunc(r)) == Reach(r) && (NoParen(Trunc(r)) <==> NoParen(r))
    requires Tokens(Trunc(l))[..Reach(l)] == Tokens(l)[..Reach(l)]
    requires Tokens(Trunc(r))[..Reach(r)] == Tokens(r)[..Reach(r)]
    ensures var e := Binary(op, l, r);
      && Reach(Trunc(e)) == Reach(e) && (NoParen(Trunc(e)) <==> NoParen(e))
      && Tokens(Trunc(e))[..Reach(e)] == Tokens(e)[..Reach(e)]
  {
    hide OpToken, Trunc, Reach, NoParen, Tokens;
    var e := Binary(op, l, r);
    TruncCases(op, l, r);
    ReachCases(op, l, r);
    ReachCases(op, l, Trunc(r));
    if NoParen(l) {
      TakeAfter(Tokens(l) + [OpToken(op)], Tokens(r), Tokens(Trunc(r)), Reach(r));
    } else {
      assert Tokens(e) == Tokens(l) + ([OpToken(op)] + Tokens(r));
      assert Tokens(e)[..Reach(l)] == Tokens(l)[..Reach(l)];
    }
  }

  lemma TruncCases(op: Op, l: Expr, r: Expr)
    ensures Trunc(Binary(op, l, r)) == if NoParen(l) then Binary(op, l, Trunc(r)) else Trunc(l)
  {
  }

  lemma ReachCases(op: Op, l: Expr, r: Expr)
    ensures var e := Binary(op, l, r);
      && Tokens(e) == Tokens(l) + [OpToken(op)] + Tokens(r)
      && Reach(e) == (if NoParen(l) then |Tokens(l)| + 1 + Reach(r) else Reach(l))
      && (NoParen(e) <==> NoParen(l) && NoParen(r))
  {
  }

  lemma TakeAfter(front: seq<Token>, a: seq<Token>, b: seq<Token>, n: nat)
    requires n <= |a| && n <= |b| && a[..n] == b[..n]
    ensures (front + a)[..|front| + n] == (front + b)[..|front| + n]
  {
    assert (front + a)[..|front| + n] == front + a[..n];
    assert (front + b)[..|front| + n] == front + b[..n];
  }

  lemma TakeInside(open: Token, a: seq<Token>, b: seq<Token>, n: nat)
    requires n <= |a| && n <= |b| && a[..n] == b[..n]
    ensures ([open] + a + [")"])[..1 + n] == ([open] + b + [")"])[..1 + n]
  {
    assert ([open] + a + [")"])[..1 + n] == [open] + a[..n];
    assert ([open] + b + [")"])[..1 + n] == [open] + b[..n];
  }

  /** What every expression of the grammar evaluates to: the value of its truncation, with the
      cursor before the first closing parenthesis.  So its own value comes out exactly when that is
      the value of its truncation. */
  lemma EvalTruncates(e: Expr, env: Env)
    requires InGrammar(e, TOP) && env.constant(")") == None
    ensures Eval(Tokens(e), env, 0, TOP) ==
      match Value(Trunc(e), env)
      case None => None
      case Some(v) => Some(Parsed(v, Reach(e)))
  {
    hide Eval, InGrammar, Value, Tokens, NoParen, Reach, Trunc, ClosesAtEnd;
    TruncInGrammar(e, TOP);
    TruncTokens(e);
    EvalPrinted(Trunc(e), env);
    if NoParen(e) {
      NoParenCloses(e);
      TruncWholeIff(e);
    } else {
      var t, k := Trunc(e), Reach(e);
      ReachLess(e);
      ReachLess(t);
      ReachFirst(e, TOP);
      assert Tokens(e)[..k + 1] == Tokens(e)[..k] + [")"];
      assert Tokens(t)[..k + 1] == Tokens(t)[..k] + [")"];
      EvalStopsAtClose(Tokens(e), Tokens(t), env, 0, k, TOP);
    }
  }

  /** The parentheses do not group: `(1)*3` evaluates to 1. */
  lemma ClosedFactorLost(env: Env)
    requires env.constant("1") == Some(1) && env.constant(")") == None
    requires env.constant("3") == Some(3)
    ensures var e := Binary(Mul, Paren(Const("1")), Const("3"));
      && InGrammar(e, TOP) && Value(e, env) == Some(3)
      && Eval(Tokens(e), env, 0, TOP) == Some(Parsed(1, 2))
  {
    var e := Binary(Mul, Paren(Const("1")), Const("3"));
    var shorter := Paren(Const("1"));
    assert Tokens(e) == ["(", "1", ")", "*", "3"];
    assert Tokens(shorter) == ["(", "1", ")"];
    EvalPrinted(shorter, env);
    assert NoneBefore(Tokens(e), 0, 2, ")");
    EvalStopsAtClose(Tokens(e), Tokens(shorter), env, 0, 2, TOP);
  }
}
