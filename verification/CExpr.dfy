/** The constant-expression evaluator as the source runs it: a tokenizer loop, and a ladder of
    methods that share one cursor.  Every method computes what `CExprSpec` says. */
module CExpr {
  import opened CExprSpec
  import opened Machine

  /** `GetCExprTokens`. */
  method GetCExprTokens(text: string) returns (r: Option<seq<Token>>)
    ensures r == Scan(text, "", [])
  {
    var tokens: seq<Token> := [];
    var token: Token := "";
    var i := 0;
    assert text[0..] == text;
    while i < |text|
      invariant 0 <= i <= |text| && |tokens| < TOKEN_BUFFER_SIZE && |token| <= MAX_TOKEN_LEN
      invariant Scan(text, "", []) == Scan(text[i..], token, tokens)
      decreases |text| - i
    {
      hide Scan, IsBlank, IsAngle, IsSymbolChar, IsWordChar;
      var c := text[i];
      ScanStep(text, i, token, tokens);
      if IsBlank(c) {
        if token != "" {
          if |tokens| == TOKEN_BUFFER_SIZE - 1 { return None; }
          tokens := tokens + [token];
        }
        token := "";
      } else if IsAngle(c) || IsSymbolChar(c) {
        if token != "" {
          if |tokens| == TOKEN_BUFFER_SIZE - 1 { return None; }
          tokens := tokens + [token];
        }
        token := [c];
        assert text[i..i + 1] == [c];
        if IsAngle(c) && i + 1 != |text| && text[i + 1] == c {
          assert text[i..i + 2] == [c] + [c];
          i := i + 1;
          token := token + [c];
        }
        if |tokens| == TOKEN_BUFFER_SIZE - 1 { return None; }
        tokens := tokens + [token];
        token := "";
      } else if IsWordChar(c) {
        if |token| == MAX_TOKEN_LEN { return None; }
        token := token + [c];
      }
      i := i + 1;
    }
    assert text[i..] == "";
    if token != "" {
      if |tokens| == TOKEN_BUFFER_SIZE - 1 { return None; }
      tokens := tokens + [token];
    }
    r := Some(tokens);
  }

  lemma ScanStep(text: string, i: nat, cur: Token, acc: seq<Token>)
    requires i < |text|
    ensures var c := text[i];
      var n := if IsAngle(c) && i + 1 < |text| && text[i + 1] == c then 2 else 1;
      Scan(text[i..], cur, acc) ==
        if IsBlank(c) then
          if Flush(acc, cur).None? then None else Scan(text[i + 1..], "", Flush(acc, cur).value)
        else if IsAngle(c) || IsSymbolChar(c) then
          if Flush(acc, cur).None? then None
          else if Push(Flush(acc, cur).value, text[i..i + n]).None? then None
          else Scan(text[i + n..], "", Flush(acc, cur).value + [text[i..i + n]])
        else if IsWordChar(c) then
          if |cur| >= MAX_TOKEN_LEN then None else Scan(text[i + 1..], cur + [c], acc)
        else Scan(text[i + 1..], cur, acc)
  {
    var rest := text[i..];
    assert rest[0] == text[i] && rest[1..] == text[i + 1..];
    if |rest| > 1 {
      assert rest[1] == text[i + 1] && rest[2..] == text[i + 2..] && rest[..2] == text[i..i + 2];
    }
    assert rest[..1] == text[i..i + 1];
  }

  class Evaluator {
    const tokens: seq<Token>
    const env: Env
    var cursor: nat

    constructor (tokens: seq<Token>, env: Env)
      ensures this.tokens == tokens && this.env == env && cursor == 0
    {
      this.tokens, this.env, cursor := tokens, env, 0;
    }

    /** The result and the new cursor are those of `expected`; after an error the cursor is free. */
    predicate Did(expected: Option<Parsed>, r: Option<Word>)
      reads this
    {
      match expected
      case None => r == None
      case Some(p) => r == Some(p.value) && cursor == p.next
    }

    /** The token at the cursor is `t`; there is none at the end of the list. */
    predicate At(t: Token)
      reads this
    {
      cursor < |tokens| && tokens[cursor] == t
    }

    method Atom() returns (r: Option<Word>)
      requires cursor <= |tokens| && !At("(")
      modifies this
      ensures Did(Eval(tokens, env, old(cursor), 0), r)
    {
      if cursor == |tokens| {
        return None;
      }
      r := env.constant(tokens[cursor]);
      cursor := cursor + 1;
    }

    method Parentheses() returns (r: Option<Word>)
      requires cursor <= |tokens|
      modifies this
      ensures Did(Eval(tokens, env, old(cursor), 0), r)
      decreases |tokens| - cursor, 1
    {
      hide Loop;
      if At("(") {
        cursor := cursor + 1;
        r := CalcCExpr();
        if r.None? || !At(")") {
          return None;
        }
      } else {
        r := Atom();
      }
    }

    method CalcUnary() returns (r: Option<Word>)
      requires cursor <= |tokens|
      modifies this
      ensures Did(Eval(tokens, env, old(cursor), 1), r)
      decreases |tokens| - cursor, 2
    {
      hide Loop, PrefixOf, Eval, ApplyPrefixAt;
      PrefixAt(tokens, cursor);
      UnaryStep(tokens, env, cursor);
      if At("+") || At("-") || At("~") {
        var token := tokens[cursor];
        cursor := cursor + 1;
        r := Parentheses();
        if r.None? {
          return;
        }
        PrefixMeans(token, r.value);
        if token == "+" {
        } else if token == "-" {
          r := Some(Wrap(0 - r.value));
        } else {
          r := Some(BitNot(r.value));
        }
      } else {
        r := Parentheses();
      }
    }

    /** The rung entered at cursor `start` goes on with its loop here, or has failed. */
    ghost predicate InLoop(start: nat, level: nat, r: Option<Word>)
      requires start <= |tokens|
      reads this
    {
      match r
      case None => Eval(tokens, env, start, level) == None
      case Some(v) =>
        cursor <= |tokens| &&
        Eval(tokens, env, start, level) == Loop(tokens, env, cursor, v, level)
    }

    method CalcPow() returns (r: Option<Word>)
      requires cursor <= |tokens|
      modifies this
      ensures Did(Eval(tokens, env, old(cursor), 2), r)
      decreases |tokens| - cursor, 3
    {
      hide Eval, Loop, OpOf, Level, ApplyAt, Wrap, BitAnd, BitOr, BitXor, ShiftLeft, ShiftRight, Quotient;
      Rung(tokens, env, cursor, 2);
      r := CalcUnary();
      while r.Some? && (At("POW"))
        invariant r.Some? ==> old(cursor) < cursor <= |tokens|
        invariant InLoop(old(cursor), 2, r)
        decreases |tokens| - cursor, r.Some?
      {
        var token := tokens[cursor];
        OpsAt(tokens, cursor);
        LoopStep(tokens, env, cursor, r.value, 2);
        cursor := cursor + 1;
        var right := CalcUnary();
        if right.None? {
          return None;
        }
        PowMeans(token, env, r.value, right.value);
        r := Some(env.power(r.value, right.value));
      }
      if r.Some? {
        if cursor < |tokens| {
          OpsAt(tokens, cursor);
        }
        LoopEnd(tokens, env, cursor, r.value, 2);
      }
    }

    method CalcMulDivMod() returns (r: Option<Word>)
      requires cursor <= |tokens|
      modifies this
      ensures Did(Eval(tokens, env, old(cursor), 3), r)
      decreases |tokens| - cursor, 4
    {
      hide Eval, Loop, OpOf, Level, ApplyAt, Wrap, BitAnd, BitOr, BitXor, ShiftLeft, ShiftRight, Quotient;
      Rung(tokens, env, cursor, 3);
      r := CalcPow();
      while r.Some? && (At("*") || At("/") || At("%"))
        invariant r.Some? ==> old(cursor) < cursor <= |tokens|
        invariant InLoop(old(cursor), 3, r)
        decreases |tokens| - cursor, r.Some?
      {
        var token := tokens[cursor];
        OpsAt(tokens, cursor);
        LoopStep(tokens, env, cursor, r.value, 3);
        cursor := cursor + 1;
        var right := CalcPow();
        if right.None? {
          return None;
        }
        MulMeans(token, env, r.value, right.value);
        if token != "*" && right.value == 0 {
          return None;
        }
        if token == "*" {
          r := Some(Wrap(r.value * right.value));
        } else if token == "/" {
          r := Some(Quotient(r.value, right.value));
        } else {
          r := Some(r.value % right.value);
        }
      }
      if r.Some? {
        if cursor < |tokens| {
          OpsAt(tokens, cursor);
        }
        LoopEnd(tokens, env, cursor, r.value, 3);
      }
    }

    method CalcAddSub() returns (r: Option<Word>)
      requires cursor <= |tokens|
      modifies this
      ensures Did(Eval(tokens, env, old(cursor), 4), r)
      decreases |tokens| - cursor, 5
    {
      hide Eval, Loop, OpOf, Level, ApplyAt, Wrap, BitAnd, BitOr, BitXor, ShiftLeft, ShiftRight, Quotient;
      Rung(tokens, env, cursor, 4);
      r := CalcMulDivMod();
      while r.Some? && (At("+") || At("-"))
        invariant r.Some? ==> old(cursor) < cursor <= |tokens|
        invariant InLoop(old(cursor), 4, r)
        decreases |tokens| - cursor, r.Some?
      {
        var token := tokens[cursor];
        OpsAt(tokens, cursor);
        LoopStep(tokens, env, cursor, r.value, 4);
        cursor := cursor + 1;
        var right := CalcMulDivMod();
        if right.None? {
          return None;
        }
        AddMeans(token, env, r.value, right.value);
        if token == "+" {
          r := Some(Wrap(r.value + right.value));
        } else {
          r := Some(Wrap(r.value - right.value));
        }
      }
      if r.Some? {
        if cursor < |tokens| {
          OpsAt(tokens, cursor);
        }
        LoopEnd(tokens, env, cursor, r.value, 4);
      }
    }

    method CalcShift() returns (r: Option<Word>)
      requires cursor <= |tokens|
      modifies this
      ensures Did(Eval(tokens, env, old(cursor), 5), r)
      decreases |tokens| - cursor, 6
    {
      hide Eval, Loop, OpOf, Level, ApplyAt, Wrap, BitAnd, BitOr, BitXor, ShiftLeft, ShiftRight, Quotient;
      Rung(tokens, env, cursor, 5);
      r := CalcAddSub();
      while r.Some? && (At("<<") || At(">>"))
        invariant r.Some? ==> old(cursor) < cursor <= |tokens|
        invariant InLoop(old(cursor), 5, r)
        decreases |tokens| - cursor, r.Some?
      {
        var token := tokens[cursor];
        OpsAt(tokens, cursor);
        LoopStep(tokens, env, cursor, r.value, 5);
        cursor := cursor + 1;
        var right := CalcMulDivMod();
        if right.None? {
          return None;
        }
        ShiftMeans(token, env, r.value, right.value);
        if right.value >= 32 {
          return None;
        }
        if token == "<<" {
          r := Some(ShiftLeft(r.value, right.value));
        } else {
          r := Some(ShiftRight(r.value, right.value));
        }
      }
      if r.Some? {
        if cursor < |tokens| {
          OpsAt(tokens, cursor);
        }
        LoopEnd(tokens, env, cursor, r.value, 5);
      }
    }

    method CalcAndOrXor() returns (r: Option<Word>)
      requires cursor <= |tokens|
      modifies this
      ensures Did(Eval(tokens, env, old(cursor), 6), r)
      decreases |tokens| - cursor, 7
    {
      hide Eval, Loop, OpOf, Level, ApplyAt, Wrap, BitAnd, BitOr, BitXor, ShiftLeft, ShiftRight, Quotient;
      Rung(tokens, env, cursor, 6);
      r := CalcShift();
      while r.Some? && (At("&") || At("|") || At("^"))
        invariant r.Some? ==> old(cursor) < cursor <= |tokens|
        invariant InLoop(old(cursor), 6, r)
        decreases |tokens| - cursor, r.Some?
      {
        var token := tokens[cursor];
        OpsAt(tokens, cursor);
        LoopStep(tokens, env, cursor, r.value, 6);
        cursor := cursor + 1;
        var right := CalcShift();
        if right.None? {
          return None;
        }
        BitMeans(token, env, r.value, right.value);
        if token == "&" {
          r := Some(BitAnd(r.value, right.value));
        } else if token == "|" {
          r := Some(BitOr(r.value, right.value));
        } else {
          r := Some(BitXor(r.value, right.value));
        }
      }
      if r.Some? {
        if cursor < |tokens| {
          OpsAt(tokens, cursor);
        }
        LoopEnd(tokens, env, cursor, r.value, 6);
      }
    }

    method CalcCExpr() returns (r: Option<Word>)
      requires cursor <= |tokens|
      modifies this
      ensures Did(Eval(tokens, env, old(cursor), TOP), r)
      decreases |tokens| - cursor, 8
    {
      r := CalcAndOrXor();
    }
  }

  function ApplyAt(t: Token, env: Env, a: Word, b: Word): Option<Word> {
    match OpOf(t)
    case None => None
    case Some(op) => Apply(op, env, a, b)
  }

  function ApplyPrefixAt(t: Token, a: Word): Word {
    match PrefixOf(t)
    case None => a
    case Some(p) => ApplyPrefix(p, a)
  }

  lemma PrefixMeans(t: Token, a: Word)
    ensures t == "+" ==> ApplyPrefixAt(t, a) == a
    ensures t == "-" ==> ApplyPrefixAt(t, a) == Wrap(0 - a)
    ensures t == "~" ==> ApplyPrefixAt(t, a) == BitNot(a)
  {
  }

  lemma PowMeans(t: Token, env: Env, a: Word, b: Word)
    ensures t == "POW" ==> ApplyAt(t, env, a, b) == Some(env.power(a, b))
  {
    hide BitAnd, BitOr, BitXor, ShiftLeft, ShiftRight, Quotient;
  }

  lemma MulMeans(t: Token, env: Env, a: Word, b: Word)
    ensures t == "*" ==> ApplyAt(t, env, a, b) == Some(Wrap(a * b))
    ensures t == "/" ==> ApplyAt(t, env, a, b) == if b == 0 then None else Some(Quotient(a, b))
    ensures t == "%" ==> ApplyAt(t, env, a, b) == if b == 0 then None else Some(a % b)
  {
    hide BitAnd, BitOr, BitXor, ShiftLeft, ShiftRight, Quotient;
  }

  lemma AddMeans(t: Token, env: Env, a: Word, b: Word)
    ensures t == "+" ==> ApplyAt(t, env, a, b) == Some(Wrap(a + b))
    ensures t == "-" ==> ApplyAt(t, env, a, b) == Some(Wrap(a - b))
  {
    hide BitAnd, BitOr, BitXor, ShiftLeft, ShiftRight, Quotient;
  }

  lemma ShiftMeans(t: Token, env: Env, a: Word, b: Word)
    ensures t == "<<" ==> ApplyAt(t, env, a, b) == if b < 32 then Some(ShiftLeft(a, b)) else None
    ensures t == ">>" ==> ApplyAt(t, env, a, b) == if b < 32 then Some(ShiftRight(a, b)) else None
  {
    hide BitAnd, BitOr, BitXor, ShiftLeft, ShiftRight, Quotient;
  }

  lemma BitMeans(t: Token, env: Env, a: Word, b: Word)
    ensures t == "&" ==> ApplyAt(t, env, a, b) == Some(BitAnd(a, b))
    ensures t == "|" ==> ApplyAt(t, env, a, b) == Some(BitOr(a, b))
    ensures t == "^" ==> ApplyAt(t, env, a, b) == Some(BitXor(a, b))
  {
    hide BitAnd, BitOr, BitXor, ShiftLeft, ShiftRight, Quotient;
  }

  /** The operator tokens of each rung. */
  lemma OpsAt(ts: seq<Token>, i: nat)
    requires i < |ts|
    ensures OpAt(ts, i, 2) <==> ts[i] == "POW"
    ensures OpAt(ts, i, 3) <==> ts[i] == "*" || ts[i] == "/" || ts[i] == "%"
    ensures OpAt(ts, i, 4) <==> ts[i] == "+" || ts[i] == "-"
    ensures OpAt(ts, i, 5) <==> ts[i] == "<<" || ts[i] == ">>"
    ensures OpAt(ts, i, 6) <==> ts[i] == "&" || ts[i] == "|" || ts[i] == "^"
  {
  }

  lemma PrefixAt(ts: seq<Token>, i: nat)
    ensures i < |ts| ==>
      (PrefixOf(ts[i]).Some? <==> ts[i] == "+" || ts[i] == "-" || ts[i] == "~")
  {
  }

  lemma UnaryStep(ts: seq<Token>, env: Env, i: nat)
    requires i <= |ts|
    ensures Eval(ts, env, i, 1) ==
      if i < |ts| && PrefixOf(ts[i]).Some? then
        match Eval(ts, env, i + 1, 0)
        case None => None
        case Some(p) => Some(Parsed(ApplyPrefixAt(ts[i], p.value), p.next))
      else Eval(ts, env, i, 0)
  {
  }

  lemma LoopStep(ts: seq<Token>, env: Env, i: nat, acc: Word, level: nat)
    requires i < |ts| && OpAt(ts, i, level) && level >= 2
    ensures Loop(ts, env, i, acc, level) ==
      match Eval(ts, env, i + 1, RightLevel(level))
      case None => None
      case Some(p) =>
        match ApplyAt(ts[i], env, acc, p.value)
        case None => None
        case Some(v) => Loop(ts, env, p.next, v, level)
  {
  }

  lemma LoopEnd(ts: seq<Token>, env: Env, i: nat, acc: Word, level: nat)
    requires i <= |ts| && !OpAt(ts, i, level)
    ensures Loop(ts, env, i, acc, level) == Some(Parsed(acc, i))
  {
  }

  lemma Rung(ts: seq<Token>, env: Env, i: nat, level: nat)
    requires i <= |ts| && level >= 2
    ensures Eval(ts, env, i, level) ==
      match Eval(ts, env, i, level - 1)
      case None => None
      case Some(p) => Loop(ts, env, p.next, p.value, level)
  {
  }

  /** `GetCExprResult`, without the freeing of its tokens. */
  method GetCExprResult(text: string, env: Env) returns (r: Option<Word>)
    ensures r == Result(text, env)
  {
    if !IsCExpr(text) {
      return None;
    }
    var tokens := GetCExprTokens(text);
    if tokens.None? {
      return None;
    }
    var evaluator := new Evaluator(tokens.value, env);
    r := evaluator.CalcCExpr();
  }
}
