/** Number tokens of the assembler: which texts are numbers, in four bases, and what they are worth
    modulo 2^32; and the constants of an expression made of numbers and labels. */
module Numerals {
  import opened Machine
  import opened CExprSpec

  // ------------------------------------------------------------------ which are numbers

  /** What a character counts as a digit, -1 if it is none. */
  function DigitOf(c: char): int {
    if '0' <= c <= '9' then c as int - '0' as int
    else if 'a' <= c <= 'f' then c as int - 'a' as int + 10
    else if 'A' <= c <= 'F' then c as int - 'A' as int + 10
    else -1
  }

  predicate IsDigit(c: char, base: nat) {
    0 <= DigitOf(c) < base
  }

  /** `_` may stand between the digits of a binary number. */
  predicate IsPlace(c: char, base: nat) {
    IsDigit(c, base) || (base == 2 && c == '_')
  }

  predicate AllPlaces(s: string, base: nat) {
    forall i :: 0 <= i < |s| ==> IsPlace(s[i], base)
  }

  /** The base that the last character names; 0 if none. */
  function BaseOf(t: Token): nat {
    if t == "" then 0
    else
      var c := t[|t| - 1];
      if c == 'h' || c == 'H' then 16
      else if c == 'b' || c == 'B' then 2
      else if c == 'o' || c == 'O' then 8
      else if c == 'd' || c == 'D' || '0' <= c <= '9' then 10
      else 0
  }

  /** The places of the number, without a letter for the base. */
  function Places(t: Token): string {
    if t != "" && !('0' <= t[|t| - 1] <= '9') then t[..|t| - 1] else t
  }

  predicate IsNumber(t: Token) {
    if |t| == 1 then '0' <= t[0] <= '9'
    else
      && |t| > 1 && BaseOf(t) > 0 && AllPlaces(Places(t), BaseOf(t))
      && (BaseOf(t) == 16 ==> '0' <= t[0] <= '9')
      && (BaseOf(t) == 2 ==> t[0] != '_')
  }

  // ----------------------------------------------------------------------- their value

  function Power(base: nat, k: nat): nat {
    if k == 0 then 1 else base * Power(base, k - 1)
  }

  /** How many digits a text has, not counting `_`. */
  function DigitCount(s: string): nat {
    if s == "" then 0 else (if s[0] == '_' then 0 else 1) + DigitCount(s[1..])
  }

  /** The value of the digits in a base. */
  function Worth(s: string, base: nat): int {
    if s == "" then 0
    else (if s[0] == '_' then 0 else DigitOf(s[0]) * Power(base, DigitCount(s[1..])))
         + Worth(s[1..], base)
  }

  function Number(t: Token): Word {
    Wrap(Worth(Places(t), BaseOf(t)))
  }

  /** `IsNumber`, whose loops look at every place. */
  method CheckNumber(t: Token) returns (ok: bool)
    ensures ok <==> IsNumber(t)
  {
    if |t| == 1 {
      return '0' <= t[0] <= '9';
    }
    if |t| == 0 {
      return false;
    }
    var last := t[|t| - 1];
    var base;
    if '0' <= last <= '9' || last == 'd' || last == 'D' {
      base := 10;
    } else if last == 'h' || last == 'H' {
      if !('0' <= t[0] <= '9') {
        return false;
      }
      base := 16;
    } else if last == 'b' || last == 'B' {
      if t[0] != '0' && t[0] != '1' {
        assert Places(t)[0] == t[0];
        return false;
      }
      base := 2;
    } else if last == 'o' || last == 'O' {
      base := 8;
    } else {
      return false;
    }
    var ui := 0;
    while ui < |t| - 1
      invariant 0 <= ui <= |t| - 1
      invariant forall i :: 0 <= i < ui ==> IsPlace(t[i], base)
    {
      if !IsPlace(t[ui], base) {
        assert Places(t)[ui] == t[ui];
        return false;
      }
      ui := ui + 1;
    }
    ok := true;
  }

  lemma WrapAdd(a: int, b: int, d: int)
    ensures Wrap(Wrap(a) + d * Wrap(b)) == Wrap(a + d * b)
  {
    var k, m := a / WORD, b / WORD;
    assert a == Wrap(a) + WORD * k && b == Wrap(b) + WORD * m;
    assert d * b == d * Wrap(b) + WORD * (d * m);
    WrapShift(Wrap(a) + d * Wrap(b), k + d * m);
  }

  lemma WrapShift(a: int, k: int)
    ensures Wrap(a + WORD * k) == Wrap(a)
  {
  }

  /** `StringToUInteger` and its siblings: from the last place to the first, with the weight of the
      place in a 32-bit word; 0 if there is anything but places. */
  method ToUInteger(s: string, base: nat) returns (n: Word)
    requires base in {2, 8, 10, 16}
    ensures n == if AllPlaces(s, base) then Wrap(Worth(s, base)) else 0
  {
    hide Wrap;
    n := 0;
    var weight: Word := 1;
    var i := |s|;
    WrapSmall();
    while i > 0
      invariant 0 <= i <= |s|
      invariant AllPlaces(s[i..], base) && n == Wrap(Worth(s[i..], base))
      invariant weight == Wrap(Power(base, DigitCount(s[i..])))
    {
      i := i - 1;
      assert s[i..][1..] == s[i + 1..];
      if !IsPlace(s[i], base) {
        return 0;
      }
      if s[i] != '_' {
        WrapAdd(Worth(s[i + 1..], base), Power(base, DigitCount(s[i + 1..])), DigitOf(s[i]));
        WrapAdd(0, Power(base, DigitCount(s[i + 1..])), base);
        n := Wrap(n + DigitOf(s[i]) * weight);
        weight := Wrap(base * weight);
      }
    }
    assert s[0..] == s;
  }

  lemma WrapSmall()
    ensures Wrap(0) == 0 && Wrap(1) == 1
  {
  }

  /** `Number` of a number token. */
  method ToNumber(t: Token) returns (n: Word)
    requires IsNumber(t)
    ensures n == Number(t)
  {
    PlacesOk(t);
    n := ToUInteger(Places(t), BaseOf(t));
  }

  lemma PlacesOk(t: Token)
    requires IsNumber(t)
    ensures BaseOf(t) in {2, 8, 10, 16} && AllPlaces(Places(t), BaseOf(t))
  {
  }

  // ---------------------------------------------------------------------- round trips

  function DigitChar(d: nat): (c: char)
    requires d < 16
    ensures DigitOf(c) == d && c != '_'
  {
    if d < 10 then (d + '0' as int) as char else (d - 10 + 'a' as int) as char
  }

  lemma {:induction false} AtLeastTwice(base: nat, q: nat)
    requires base >= 2
    ensures base * q >= 2 * q
    decreases base
  {
    if base > 2 {
      AtLeastTwice(base - 1, q);
      assert base * q == (base - 1) * q + q;
    }
  }

  lemma Divides(n: nat, base: nat)
    requires base > 0
    ensures n == base * (n / base) + n % base && 0 <= n % base < base && 0 <= n / base
  {
  }

  lemma DivideLess(n: nat, base: nat)
    requires 2 <= base <= n
    ensures 0 <= n / base < n && 0 <= n % base < base
    ensures n == base * (n / base) + n % base
  {
    Divides(n, base);
    AtLeastTwice(base, n / base);
  }

  /** The numeral of `n`. */
  function Numeral(n: nat, base: nat): (s: string)
    requires 2 <= base <= 16
    ensures |s| > 0 && '_' !in s
    ensures forall i :: 0 <= i < |s| ==> IsDigit(s[i], base)
  {
    if n < base then [DigitChar(n)]
    else
      DivideLess(n, base);
      Numeral(n / base, base) + [DigitChar(n % base)]
  }

  lemma {:induction false} WorthSnoc(s: string, c: char, base: nat)
    requires '_' !in s && c != '_'
    ensures Worth(s + [c], base) == base * Worth(s, base) + DigitOf(c)
    ensures DigitCount(s + [c]) == DigitCount(s) + 1
    decreases |s|
  {
    hide DigitOf;
    if s == "" {
      assert s + [c] == [c] && [c][1..] == "";
      assert Power(base, 0) == 1;
    } else {
      assert (s + [c])[0] == s[0] && (s + [c])[1..] == s[1..] + [c];
      WorthSnoc(s[1..], c, base);
      var d, p := DigitOf(s[0]), Power(base, DigitCount(s[1..]));
      assert Power(base, DigitCount(s[1..]) + 1) == base * p;
      Distribute(base, d, p, Worth(s[1..], base));
    }
  }

  lemma Distribute(b: int, d: int, p: int, w: int)
    ensures d * (b * p) + b * w == b * (d * p + w)
  {
    assert d * (b * p) == b * (d * p);
  }

  /** A numeral is worth its number. */
  lemma {:induction false} NumeralWorth(n: nat, base: nat)
    requires 2 <= base <= 16
    ensures Worth(Numeral(n, base), base) == n
    decreases n
  {
    hide DigitOf;
    if n < base {
      assert Numeral(n, base)[1..] == "" && Power(base, 0) == 1;
    } else {
      DivideLess(n, base);
      NumeralWorth(n / base, base);
      WorthSnoc(Numeral(n / base, base), DigitChar(n % base), base);
    }
  }

  /** The token of a number in a base: its numeral and the letter, after a 0 in base 16. */
  function Spelled(n: nat, base: nat): Token
    requires base in {2, 8, 10, 16}
  {
    var s := Numeral(n, base);
    if base == 2 then s + "b"
    else if base == 8 then s + "o"
    else if base == 10 then s
    else "0" + s + "h"
  }

  /** Every 32-bit number, spelled in any base, is a number token and has its value. */
  lemma NumberReadBack(n: Word, base: nat)
    requires base in {2, 8, 10, 16}
    ensures IsNumber(Spelled(n, base)) && Number(Spelled(n, base)) == n
    ensures base == 10 ==> IsNumber(Spelled(n, base) + "d") && Number(Spelled(n, base) + "d") == n
  {
    hide Numeral, Worth;
    NumeralWorth(n, base);
    SpelledNumber(n, base);
    if base == 10 {
      DecimalLetter(n);
    }
  }

  lemma LastDigit(s: string, base: nat)
    requires s != "" && forall i :: 0 <= i < |s| ==> IsDigit(s[i], base)
    ensures base <= 10 ==> '0' <= s[|s| - 1] <= '9' && '0' <= s[0] <= '9'
    ensures AllPlaces(s, base)
  {
    assert IsDigit(s[|s| - 1], base) && IsDigit(s[0], base);
  }

  lemma SpelledNumber(n: Word, base: nat)
    requires base in {2, 8, 10, 16} && Worth(Numeral(n, base), base) == n
    ensures IsNumber(Spelled(n, base)) && Number(Spelled(n, base)) == n
  {
    hide Numeral, Worth;
    var s := Numeral(n, base);
    var t := Spelled(n, base);
    LastDigit(s, base);
    if base == 16 {
      assert Places(t) == "0" + s;
      WorthZero(s, base);
      assert AllPlaces("0" + s, base);
    } else {
      assert Places(t) == s;
    }
    WrapWord(n);
  }

  lemma WorthZero(s: string, base: nat)
    ensures Worth("0" + s, base) == Worth(s, base)
  {
    assert ("0" + s)[0] == '0' && ("0" + s)[1..] == s;
  }

  lemma WrapWord(n: Word)
    ensures Wrap(n) == n
  {
  }

  lemma DecimalLetter(n: Word)
    requires Worth(Numeral(n, 10), 10) == n
    ensures IsNumber(Numeral(n, 10) + "d") && Number(Numeral(n, 10) + "d") == n
  {
    hide Numeral, Worth;
    var s := Numeral(n, 10);
    LastDigit(s, 10);
    assert Places(s + "d") == s;
    WrapWord(n);
  }

  // ---------------------------------------------------------------- constants of expressions

  predicate LabelStart(c: char) {
    'A' <= c <= 'Z' || 'a' <= c <= 'z' || c == '_'
  }

  predicate IsLabel(t: Token) {
    t != "" && LabelStart(t[0]) && forall i :: 0 <= i < |t| ==> IsWordChar(t[i])
  }

  /** `IsConstant` and `GetConstant` for a token without a backquote: a number, or the offset of a
      label; none where the source ends with an error. */
  function Constant(t: Token, labels: Token -> Option<Word>): Option<Word> {
    if IsNumber(t) then Some(Number(t)) else if IsLabel(t) then labels(t) else None
  }

  function Constants(labels: Token -> Option<Word>, power: (Word, Word) -> Word): Env {
    Env(t => Constant(t, labels), power)
  }

  /** A closing parenthesis is no constant, so the laws about it hold with these constants. */
  lemma CloseIsNoConstant(labels: Token -> Option<Word>, power: (Word, Word) -> Word)
    ensures Constants(labels, power).constant(")") == None
  {
    assert !IsNumber(")") && !IsLabel(")");
  }

  /** A spelled number is a word of the grammar and worth its number in an expression. */
  lemma NumberInExpression(n: Word, base: nat, labels: Token -> Option<Word>,
                           power: (Word, Word) -> Word)
    requires base in {2, 8, 10, 16} && |Spelled(n, base)| <= MAX_TOKEN_LEN
    ensures InGrammar(Const(Spelled(n, base)), 0)
    ensures Value(Const(Spelled(n, base)), Constants(labels, power)) == Some(n)
  {
    hide Numeral, Worth, IsNumber, Number;
    NumberReadBack(n, base);
    var s, t := Numeral(n, base), Spelled(n, base);
    forall i | 0 <= i < |t|
      ensures IsWordChar(t[i])
    {
      assert t[i] in s || t[i] in "0hbo";
      if t[i] in s {
        assert IsDigit(t[i], base);
      }
    }
  }
}
