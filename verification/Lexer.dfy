/** The assembler's lexer: one token per call, with the position and the line kept between calls. */
module Lexer {
  import opened Sequences

  /** What kind of token has been begun. */
  datatype Mode = Idle | Word | Quoted | Memory | Expression

  /** What the lexer does with a character: store it, stay before it, go on in a mode or end, count
      a line, or skip a comment. */
  datatype Reaction = Reaction(put: bool, back: bool, mode: Mode, end: bool, newline: bool,
                               comment: bool)

  datatype Outcome =
    | Got(text: string, pos: nat, line: nat)
    | TooLong
    | Overrun

  predicate IsBlank(c: char) {
    c == '\t' || c == '\r' || c == '\U{0C}' || c == '\U{0B}' || c == ' '
  }

  predicate Enclosed(mode: Mode) {
    mode == Quoted || mode == Memory || mode == Expression
  }

  function Skip(mode: Mode): Reaction {
    Reaction(false, false, mode, false, false, false)
  }

  function Put(mode: Mode): Reaction {
    Reaction(true, false, mode, false, false, false)
  }

  function PutLast(mode: Mode): Reaction {
    Reaction(true, false, mode, true, false, false)
  }

  function Stop(mode: Mode, back: bool): Reaction {
    Reaction(false, back, mode, true, false, false)
  }

  function React(mode: Mode, c: char): Reaction {
    if c == '\n' then
      if mode == Idle then Reaction(true, false, mode, true, true, false) else Stop(mode, true)
    else if IsBlank(c) then
      if mode == Word then Stop(mode, false) else if Enclosed(mode) then Put(mode) else Skip(mode)
    else if c == ',' then
      if Enclosed(mode) then Put(mode) else if mode == Word then Stop(mode, true) else PutLast(mode)
    else if c == '\'' then
      if mode == Idle then Put(Quoted) else if mode == Quoted then PutLast(mode) else Skip(mode)
    else if c == '`' then
      if mode == Idle then Put(Expression)
      else if mode == Expression then PutLast(mode) else Skip(mode)
    else if c == '[' then
      if mode == Idle then Put(Memory)
      else if mode == Quoted || mode == Expression then Put(mode) else Skip(mode)
    else if c == ']' then
      if mode == Memory then PutLast(mode)
      else if mode == Quoted || mode == Expression then Put(mode) else Skip(mode)
    else if c == ';' then
      if mode == Idle then Reaction(false, false, mode, false, false, true) else Put(mode)
    else Put(if mode == Idle then Word else mode)
  }

  /** The first newline at or after `i`, or the end. */
  function LineEnd(src: string, i: nat): (end: nat)
    requires i <= |src|
    ensures i <= end <= |src|
    ensures end < |src| ==> src[end] == '\n'
    ensures forall k :: i <= k < end ==> src[k] != '\n'
    decreases |src| - i
  {
    if i == |src| || src[i] == '\n' then i else LineEnd(src, i + 1)
  }

  /** The rest of a call that is in `mode` at `pos` with `acc` stored.  A comment sign that is the
      last character sends the source's inner loop past the end of the text. */
  function Scan(src: string, pos: nat, line: nat, mode: Mode, acc: string, size: nat): Outcome
    requires pos <= |src|
    decreases |src| - pos
  {
    if pos == |src| then Got(acc, pos, line)
    else
      var r := React(mode, src[pos]);
      var next := if r.back then pos else pos + 1;
      if r.comment then
        if next == |src| then Overrun else Scan(src, LineEnd(src, next), line, mode, acc, size)
      else if r.put && |acc| + 1 >= size then TooLong
      else
        var text := if r.put then acc + [src[pos]] else acc;
        var lines := if r.newline then line + 1 else line;
        if r.end then Got(text, next, lines)
        else Scan(src, pos + 1, lines, r.mode, text, size)
  }

  /** One call. */
  function Next(src: string, pos: nat, line: nat, size: nat): Outcome
    requires pos <= |src|
  {
    Scan(src, pos, line, Idle, "", size)
  }

  lemma ScanStep(src: string, pos: nat, line: nat, mode: Mode, acc: string, size: nat)
    requires pos < |src|
    ensures var r := React(mode, src[pos]);
      var next := if r.back then pos else pos + 1;
      var o := Scan(src, pos, line, mode, acc, size);
      var text := if r.put then acc + [src[pos]] else acc;
      var lines := if r.newline then line + 1 else line;
      && (r.comment ==> !r.put && !r.back && !r.end && !r.newline && mode == Idle)
      && (r.comment && pos + 1 == |src| ==> o == Overrun)
      && (r.comment && pos + 1 < |src| ==>
            o == Scan(src, LineEnd(src, pos + 1), line, mode, acc, size))
      && (!r.comment && r.put && |acc| + 1 >= size ==> o == TooLong)
      && (!r.comment && !(r.put && |acc| + 1 >= size) && r.end ==> o == Got(text, next, lines))
      && (!r.comment && !(r.put && |acc| + 1 >= size) && !r.end ==>
            o == Scan(src, pos + 1, lines, r.mode, text, size))
  {
  }

  // ---------------------------------------------------------------------- call boundaries

  function Newlines(src: string, lo: nat, hi: nat): (n: nat)
    requires lo <= hi <= |src|
    decreases hi - lo
  {
    if lo == hi then 0 else (if src[lo] == '\n' then 1 else 0) + Newlines(src, lo + 1, hi)
  }

  lemma {:induction false} NewlinesSplit(src: string, lo: nat, mid: nat, hi: nat)
    requires lo <= mid <= hi <= |src|
    ensures Newlines(src, lo, hi) == Newlines(src, lo, mid) + Newlines(src, mid, hi)
    decreases mid - lo
  {
    if lo < mid {
      NewlinesSplit(src, lo + 1, mid, hi);
    }
  }

  lemma {:induction false} NoNewlines(src: string, lo: nat, hi: nat)
    requires lo <= hi <= |src| && forall k :: lo <= k < hi ==> src[k] != '\n'
    ensures Newlines(src, lo, hi) == 0
    decreases hi - lo
  {
    if lo < hi {
      NoNewlines(src, lo + 1, hi);
    }
  }

  /** Only a call's own newline token moves it past a newline. */
  lemma ReactNewline(mode: Mode, c: char)
    ensures var r := React(mode, c);
      && (c == '\n' ==> r.end && (r.newline <==> !r.back) && !r.comment)
      && (c != '\n' ==> !r.newline)
      && (r.back ==> r.end && mode != Idle && !r.put)
      && (r.comment ==> c == ';')
      && (mode != Idle ==> r.mode != Idle)
  {
  }

  lemma {:induction false} ScanLines(src: string, pos: nat, line: nat, mode: Mode, acc: string,
                                     size: nat)
    requires pos <= |src|
    ensures var o := Scan(src, pos, line, mode, acc, size);
      o.Got? ==>
        && pos <= o.pos <= |src|
        && o.line == line + Newlines(src, pos, o.pos)
        && (pos < |src| && mode == Idle ==> pos < o.pos)
    decreases |src| - pos
  {
    hide Scan, React;
    var o := Scan(src, pos, line, mode, acc, size);
    if pos == |src| {
      ScanAtEnd(src, line, mode, acc, size);
    } else {
      ScanStep(src, pos, line, mode, acc, size);
      ReactNewline(mode, src[pos]);
      var r := React(mode, src[pos]);
      var text := if r.put then acc + [src[pos]] else acc;
      if r.comment {
        if pos + 1 < |src| {
          var e := LineEnd(src, pos + 1);
          ScanLines(src, e, line, mode, acc, size);
          NoNewlines(src, pos, e);
          if o.Got? {
            NewlinesSplit(src, pos, e, o.pos);
          }
        }
      } else if !(r.put && |acc| + 1 >= size) && !r.end {
        ScanLines(src, pos + 1, line, r.mode, text, size);
      }
    }
  }

  lemma ScanAtEnd(src: string, line: nat, mode: Mode, acc: string, size: nat)
    ensures Scan(src, |src|, line, mode, acc, size) == Got(acc, |src|, line)
  {
  }

  /** At every call boundary the line is one more than the newlines before the position, and every
      call that does not start at the end moves on. */
  lemma CallBoundary(src: string, pos: nat, line: nat, size: nat)
    requires pos <= |src| && line == 1 + Newlines(src, 0, pos)
    ensures var o := Next(src, pos, line, size);
      o.Got? ==>
        && o.pos <= |src| && o.line == 1 + Newlines(src, 0, o.pos)
        && (pos < |src| ==> pos < o.pos)
        && (pos == |src| ==> o == Got("", pos, line))
  {
    hide Scan;
    ScanLines(src, pos, line, Idle, "", size);
    ScanAtEnd(src, line, Idle, "", size);
    var o := Next(src, pos, line, size);
    if o.Got? {
      NewlinesSplit(src, 0, pos, o.pos);
    }
  }

  /** A call runs past the end of the text exactly when nothing but blanks and closing brackets
      stand between its start and a comment sign that is the last character. */
  lemma OverrunIff(src: string, pos: nat, line: nat, size: nat)
    requires pos <= |src|
    ensures Next(src, pos, line, size) == Overrun <==>
            pos < |src| && src[|src| - 1] == ';'
            && forall k :: pos <= k < |src| - 1 ==> src[k] in " \t\r\U{0B}\U{0C}]"
  {
    hide Scan;
    IdleOverrun(src, pos, line, size);
  }

  lemma {:induction false} IdleOverrun(src: string, pos: nat, line: nat, size: nat)
    requires pos <= |src|
    ensures Scan(src, pos, line, Idle, "", size) == Overrun <==>
            pos < |src| && src[|src| - 1] == ';'
            && forall k :: pos <= k < |src| - 1 ==> IsBlank(src[k]) || src[k] == ']'
    decreases |src| - pos
  {
    hide Scan, IsBlank;
    if pos == |src| {
      ScanAtEnd(src, line, Idle, "", size);
    } else {
      ScanStep(src, pos, line, Idle, "", size);
      var c := src[pos];
      var r := React(Idle, c);
      BlankPlain(c);
      if IsBlank(c) || c == ']' {
        IdleOverrun(src, pos + 1, line, size);
      } else if c == ';' {
        if pos + 1 < |src| {
          AfterComment(src, LineEnd(src, pos + 1), line, size);
        }
      } else if !r.end && !(r.put && 1 >= size) {
        BusyNoOverrun(src, pos + 1, line, r.mode, "" + [c], size);
      }
    }
  }

  lemma BlankPlain(c: char)
    ensures IsBlank(c) ==> c != ';' && c != ']' && c != '\n' && c != ','
    ensures IsBlank(c) ==> c != '\'' && c != '`' && c != '['
  {
  }

  lemma AfterComment(src: string, end: nat, line: nat, size: nat)
    requires end <= |src| && (end < |src| ==> src[end] == '\n')
    ensures Scan(src, end, line, Idle, "", size) != Overrun
  {
    if end < |src| {
      ScanStep(src, end, line, Idle, "", size);
    } else {
      ScanAtEnd(src, line, Idle, "", size);
    }
  }

  lemma {:induction false} BusyNoOverrun(src: string, pos: nat, line: nat, mode: Mode, acc: string,
                                         size: nat)
    requires pos <= |src| && mode != Idle
    ensures Scan(src, pos, line, mode, acc, size) != Overrun
    decreases |src| - pos
  {
    hide Scan, React;
    if pos == |src| {
      ScanAtEnd(src, line, mode, acc, size);
    } else {
      ScanStep(src, pos, line, mode, acc, size);
      ReactNewline(mode, src[pos]);
      var r := React(mode, src[pos]);
      if !r.end && !(r.put && |acc| + 1 >= size) {
        BusyNoOverrun(src, pos + 1, if r.newline then line + 1 else line, r.mode,
                      if r.put then acc + [src[pos]] else acc, size);
      }
    }
  }

  // --------------------------------------------------------------------- round trip

  /** A token as it is written; a newline may have a comment before it, and a token that was opened
      may be left open, up to the end of its line. */
  datatype Item =
    | Plain(text: string)
    | Enclosing(mode: Mode, body: string, closed: bool)
    | Comma
    | Newline(comment: string)

  predicate PlainChar(c: char): (b: bool)
    ensures b ==> c != '\n' && !IsBlank(c)
  {
    c !in " \t\r\U{0B}\U{0C}\n,"
  }

  /** A character that the lexer drops where it belongs to no token. */
  predicate Dropped(mode: Mode, c: char) {
    match mode
    case Word => c in "'`[]"
    case Quoted => c == '`'
    case Memory => c in "'`["
    case Expression => c == '\''
    case Idle => false
  }

  function One(mode: Mode, c: char): (t: string)
    ensures |t| <= 1
  {
    if Dropped(mode, c) then "" else [c]
  }

  function Kept(mode: Mode, text: string): (t: string)
    ensures |t| <= |text|
  {
    if text == "" then "" else One(mode, text[0]) + Kept(mode, text[1..])
  }

  function Opening(mode: Mode): string {
    if mode == Quoted then "'" else if mode == Memory then "[" else "`"
  }

  function Closing(mode: Mode): string {
    if mode == Quoted then "'" else if mode == Memory then "]" else "`"
  }

  function End(mode: Mode, closed: bool): string {
    if closed then Closing(mode) else ""
  }

  /** A character that does not end a token of the mode. */
  predicate Inner(mode: Mode, c: char) {
    && c != '\n' && (mode == Quoted ==> c != '\'') && (mode == Memory ==> c != ']')
    && (mode == Expression ==> c != '`')
  }

  ghost predicate AllInner(mode: Mode, body: string) {
    forall i :: 0 <= i < |body| ==> Inner(mode, body[i])
  }

  ghost predicate AllPlain(text: string) {
    forall i :: 0 <= i < |text| ==> PlainChar(text[i])
  }

  ghost predicate WellFormed(x: Item) {
    match x
    case Plain(text) => text != "" && text[0] !in ";'`[]" && AllPlain(text)
    case Enclosing(mode, body, _) => Enclosed(mode) && AllInner(mode, body)
    case Comma => true
    case Newline(comment) =>
      comment != "" ==> comment[0] == ';' && forall i :: 0 <= i < |comment| ==> comment[i] != '\n'
  }

  /** The text a call returns for the token. */
  function TokenText(x: Item): string {
    match x
    case Plain(text) => Kept(Word, text)
    case Enclosing(mode, body, closed) => Opening(mode) + Kept(mode, body) + End(mode, closed)
    case Comma => ","
    case Newline(_) => "\n"
  }

  function Written(x: Item): string {
    match x
    case Plain(text) => text
    case Enclosing(mode, body, closed) => Opening(mode) + body + End(mode, closed)
    case Comma => ","
    case Newline(comment) => comment + "\n"
  }

  /** Spaces, tabs and the other blanks but the newline. */
  ghost predicate AllBlank(s: string): (b: bool)
    ensures b ==> forall i :: 0 <= i < |s| ==> IsBlank(s[i])
  {
    forall i :: 0 <= i < |s| ==> s[i] in " \t\r\U{0B}\U{0C}"
  }

  function Source(xs: seq<Item>, gaps: seq<string>): string
    requires |gaps| == |xs| + 1
    decreases |xs|
  {
    if xs == [] then gaps[0] else gaps[0] + Written(xs[0]) + Source(xs[1..], gaps[1..])
  }

  predicate Open(x: Item) {
    x.Enclosing? && !x.closed
  }

  /** The gaps are blank, a plain token is kept apart from the next one by its gap unless that is a
      comma or a newline without a comment, and a token left open is ended by the newline or by the
      end of the text. */
  ghost predicate Apart(xs: seq<Item>, gaps: seq<string>) {
    && |gaps| == |xs| + 1
    && (forall i :: 0 <= i < |gaps| ==> AllBlank(gaps[i]))
    && (forall i :: 0 <= i < |xs| - 1 && xs[i].Plain? && gaps[i + 1] == "" ==>
          xs[i + 1].Comma? || xs[i + 1] == Newline(""))
    && (forall i :: 0 <= i < |xs| && Open(xs[i]) ==>
          gaps[i + 1] == "" && (i + 1 < |xs| ==> xs[i + 1] == Newline("")))
  }

  ghost predicate AllWellFormed(xs: seq<Item>, size: nat) {
    forall i :: 0 <= i < |xs| ==> WellFormed(xs[i]) && |TokenText(xs[i])| < size
  }

  function Texts(xs: seq<Item>): (ts: seq<string>)
    ensures |ts| == |xs|
  {
    if xs == [] then [] else [TokenText(xs[0])] + Texts(xs[1..])
  }

  /** The tokens of `k` successive calls, as far as they succeed. */
  function Calls(src: string, pos: nat, line: nat, size: nat, k: nat): seq<string>
    requires pos <= |src|
    decreases k
  {
    if k == 0 then []
    else
      var o := Next(src, pos, line, size);
      if o.Got? && o.pos <= |src| then [o.text] + Calls(src, o.pos, o.line, size, k - 1) else []
  }

  lemma PeelOne(text: string, pos: nat, w: string, rest: string)
    requires pos <= |text| && text[pos..] == w + rest && w != ""
    ensures pos < |text| && text[pos] == w[0] && text[pos + 1..] == w[1..] + rest
  {
    assert w + rest == w[..1] + (w[1..] + rest);
    Peel(text, pos, w[..1], w[1..] + rest);
  }

  lemma {:induction false} SkipBlanks(src: string, pos: nat, line: nat, gap: string, rest: string,
                                      size: nat)
    requires pos <= |src| && src[pos..] == gap + rest && AllBlank(gap)
    ensures pos + |gap| <= |src| && src[pos + |gap|..] == rest
    ensures Scan(src, pos, line, Idle, "", size) == Scan(src, pos + |gap|, line, Idle, "", size)
    decreases |gap|
  {
    hide Scan, IsBlank;
    if gap == "" {
      assert gap + rest == rest;
    } else {
      PeelOne(src, pos, gap, rest);
      assert IsBlank(gap[0]);
      BlankPlain(gap[0]);
      ScanStep(src, pos, line, Idle, "", size);
      SkipBlanks(src, pos + 1, line, gap[1..], rest, size);
    }
  }

  lemma KeepStep(src: string, pos: nat, line: nat, mode: Mode, acc: string, size: nat)
    requires pos < |src| && |acc| + |One(mode, src[pos])| < size
    requires React(mode, src[pos]) == if Dropped(mode, src[pos]) then Skip(mode) else Put(mode)
    ensures Scan(src, pos, line, mode, acc, size) ==
            Scan(src, pos + 1, line, mode, acc + One(mode, src[pos]), size)
  {
    hide Scan, React, Dropped;
    ScanStep(src, pos, line, mode, acc, size);
    assert acc + "" == acc;
  }

  /** The rest of a plain token, up to a blank, a comma, a newline or the end of the text. */
  lemma {:induction false} ScanPlainBody(src: string, pos: nat, line: nat, w: string, acc: string,
                                         rest: string, size: nat)
    requires pos <= |src| && src[pos..] == w + rest && AllPlain(w) && |acc| + |Kept(Word, w)| < size
    requires rest == "" || IsBlank(rest[0]) || rest[0] == ',' || rest[0] == '\n'
    ensures var past := if rest != "" && IsBlank(rest[0]) then 1 else 0;
      Scan(src, pos, line, Word, acc, size) == Got(acc + Kept(Word, w), |src| - |rest| + past, line)
    decreases |w|
  {
    hide Scan, IsBlank, Dropped;
    if w == "" {
      assert w + rest == rest && acc + Kept(Word, w) == acc;
      if rest == "" {
        ScanAtEnd(src, line, Word, acc, size);
      } else {
        PeelOne(src, pos, rest, "");
        BlankPlain(rest[0]);
        ScanStep(src, pos, line, Word, acc, size);
      }
    } else {
      PeelOne(src, pos, w, rest);
      assert PlainChar(w[0]);
      WordReacts(w[0]);
      KeepStep(src, pos, line, Word, acc, size);
      var more := acc + One(Word, w[0]);
      ScanPlainBody(src, pos + 1, line, w[1..], more, rest, size);
      assert more + Kept(Word, w[1..]) == acc + Kept(Word, w);
    }
  }

  lemma WordReacts(c: char)
    requires PlainChar(c)
    ensures React(Word, c) == if Dropped(Word, c) then Skip(Word) else Put(Word)
    ensures c !in ";'`[]" ==> React(Idle, c) == Put(Word) && !Dropped(Word, c)
  {
  }

  /** The end of an opened token. */
  lemma ScanEnd(src: string, pos: nat, line: nat, mode: Mode, closed: bool, acc: string,
                rest: string, size: nat)
    requires pos <= |src| && src[pos..] == End(mode, closed) + rest
    requires Enclosed(mode) && |acc| + |End(mode, closed)| < size
    requires !closed ==> rest == "" || rest[0] == '\n'
    ensures Scan(src, pos, line, mode, acc, size) ==
            Got(acc + End(mode, closed), |src| - |rest|, line)
  {
    hide Scan, IsBlank;
    if closed {
      PeelOne(src, pos, Closing(mode), rest);
      BlankPlain(Closing(mode)[0]);
      ScanStep(src, pos, line, mode, acc, size);
      assert Closing(mode) == [Closing(mode)[0]];
    } else {
      assert acc + "" == acc && "" + rest == rest;
      if rest == "" {
        ScanAtEnd(src, line, mode, acc, size);
      } else {
        PeelOne(src, pos, rest, "");
        ScanStep(src, pos, line, mode, acc, size);
      }
    }
  }

  /** The rest of an opened token. */
  lemma {:induction false} ScanOpenBody(src: string, pos: nat, line: nat, mode: Mode, body: string,
                                        closed: bool, acc: string, rest: string, size: nat)
    requires pos <= |src| && src[pos..] == body + (End(mode, closed) + rest)
    requires Enclosed(mode) && AllInner(mode, body)
    requires |acc| + |Kept(mode, body) + End(mode, closed)| < size
    requires !closed ==> rest == "" || rest[0] == '\n'
    ensures Scan(src, pos, line, mode, acc, size) ==
            Got(acc + (Kept(mode, body) + End(mode, closed)), |src| - |rest|, line)
    decreases |body|
  {
    hide Scan, React, Dropped, End;
    if body == "" {
      assert body + (End(mode, closed) + rest) == End(mode, closed) + rest;
      assert Kept(mode, body) + End(mode, closed) == End(mode, closed);
      ScanEnd(src, pos, line, mode, closed, acc, rest, size);
    } else {
      PeelOne(src, pos, body, End(mode, closed) + rest);
      assert Inner(mode, body[0]);
      InnerReacts(mode, body[0]);
      KeepStep(src, pos, line, mode, acc, size);
      var more := acc + One(mode, body[0]);
      ScanOpenBody(src, pos + 1, line, mode, body[1..], closed, more, rest, size);
      assert more + (Kept(mode, body[1..]) + End(mode, closed)) ==
             acc + (Kept(mode, body) + End(mode, closed));
    }
  }

  lemma InnerReacts(mode: Mode, c: char)
    requires Enclosed(mode) && Inner(mode, c)
    ensures React(mode, c) == if Dropped(mode, c) then Skip(mode) else Put(mode)
  {
  }

  ghost predicate MayFollow(x: Item, rest: string) {
    && (x.Plain? ==> rest == "" || IsBlank(rest[0]) || rest[0] == ',' || rest[0] == '\n')
    && (Open(x) ==> rest == "" || rest[0] == '\n')
  }

  /** How many blanks after a token its own call takes. */
  function Taken(x: Item, rest: string): nat {
    if x.Plain? && rest != "" && IsBlank(rest[0]) then 1 else 0
  }

  lemma ScanPlain(src: string, pos: nat, line: nat, w: string, rest: string, size: nat)
    requires pos <= |src| && src[pos..] == w + rest && WellFormed(Plain(w)) && |Kept(Word, w)| < size
    requires MayFollow(Plain(w), rest)
    ensures Scan(src, pos, line, Idle, "", size) ==
            Got(Kept(Word, w), |src| - |rest| + Taken(Plain(w), rest), line)
  {
    hide Scan, IsBlank, Dropped;
    PeelOne(src, pos, w, rest);
    assert PlainChar(w[0]);
    WordReacts(w[0]);
    ScanStep(src, pos, line, Idle, "", size);
    assert "" + [w[0]] == [w[0]] && [w[0]] + Kept(Word, w[1..]) == Kept(Word, w);
    ScanPlainBody(src, pos + 1, line, w[1..], [w[0]], rest, size);
  }

  lemma ScanEnclosing(src: string, pos: nat, line: nat, x: Item, rest: string, size: nat)
    requires x.Enclosing? && pos <= |src| && src[pos..] == Written(x) + rest
    requires WellFormed(x) && |TokenText(x)| < size && MayFollow(x, rest)
    ensures Scan(src, pos, line, Idle, "", size) == Got(TokenText(x), |src| - |rest|, line)
  {
    hide Scan, IsBlank, React, Opening, Closing, AllInner, Kept;
    var tail := x.body + (End(x.mode, x.closed) + rest);
    EnclosingParts(x, rest);
    OpeningReacts(x.mode);
    PeelOne(src, pos, Opening(x.mode), tail);
    assert Opening(x.mode)[1..] + tail == tail;
    OpenStep(src, pos, line, x.mode, size);
    ScanOpenBody(src, pos + 1, line, x.mode, x.body, x.closed, Opening(x.mode), rest, size);
  }

  lemma OpenStep(src: string, pos: nat, line: nat, mode: Mode, size: nat)
    requires pos < |src| && 1 < size && React(Idle, src[pos]) == Put(mode)
    ensures Scan(src, pos, line, Idle, "", size) == Scan(src, pos + 1, line, mode, [src[pos]], size)
  {
    hide Scan, React;
    ScanStep(src, pos, line, Idle, "", size);
    assert "" + [src[pos]] == [src[pos]];
  }

  lemma OpeningReacts(mode: Mode)
    requires Enclosed(mode)
    ensures |Opening(mode)| == 1 && React(Idle, Opening(mode)[0]) == Put(mode)
    ensures [Opening(mode)[0]] == Opening(mode)
  {
  }

  lemma EnclosingParts(x: Item, rest: string)
    requires x.Enclosing? && Enclosed(x.mode)
    ensures TokenText(x) == Opening(x.mode) + (Kept(x.mode, x.body) + End(x.mode, x.closed))
    ensures Written(x) + rest == Opening(x.mode) + (x.body + (End(x.mode, x.closed) + rest))
    ensures Opening(x.mode) != ""
  {
  }

  lemma ScanComma(src: string, pos: nat, line: nat, rest: string, size: nat)
    requires pos <= |src| && src[pos..] == "," + rest && 1 < size
    ensures Scan(src, pos, line, Idle, "", size) == Got(",", |src| - |rest|, line)
  {
    hide Scan;
    PeelOne(src, pos, ",", rest);
    ScanStep(src, pos, line, Idle, "", size);
    assert "" + [','] == ",";
  }

  lemma ScanNewline(src: string, pos: nat, line: nat, comment: string, rest: string, size: nat)
    requires pos <= |src| && src[pos..] == comment + ("\n" + rest) && 1 < size
    requires WellFormed(Newline(comment))
    ensures Scan(src, pos, line, Idle, "", size) == Got("\n", |src| - |rest|, line + 1)
  {
    hide Scan;
    var at := pos + |comment|;
    Peel(src, pos, comment, "\n" + rest);
    PeelOne(src, at, "\n", rest);
    ScanStep(src, at, line, Idle, "", size);
    assert "" + ['\n'] == "\n";
    if comment != "" {
      assert src[pos] == ';' && React(Idle, ';').comment;
      ScanStep(src, pos, line, Idle, "", size);
      forall k | pos <= k < at
        ensures src[k] != '\n'
      {
        assert src[k] == src[pos..][k - pos] == comment[k - pos];
      }
      assert LineEnd(src, pos + 1) == at;
    }
  }

  /** One call reads one written token, past the gap before it. */
  lemma ScanItem(src: string, pos: nat, line: nat, gap: string, x: Item, rest: string, size: nat)
    requires pos <= |src| && src[pos..] == gap + (Written(x) + rest) && AllBlank(gap)
    requires WellFormed(x) && |TokenText(x)| < size && MayFollow(x, rest)
    ensures var o := Next(src, pos, line, size);
      o.Got? && o.text == TokenText(x) && o.pos == |src| - |rest| + Taken(x, rest)
  {
    hide Scan, IsBlank, WellFormed, MayFollow;
    SkipBlanks(src, pos, line, gap, Written(x) + rest, size);
    var start := pos + |gap|;
    match x {
      case Plain(w) => ScanPlain(src, start, line, w, rest, size);
      case Enclosing(_, _, _) => ScanEnclosing(src, start, line, x, rest, size);
      case Comma => ScanComma(src, start, line, rest, size);
      case Newline(comment) =>
        assert Written(x) + rest == comment + ("\n" + rest);
        ScanNewline(src, start, line, comment, rest, size);
    }
  }

  lemma FollowHolds(xs: seq<Item>, gaps: seq<string>)
    requires Apart(xs, gaps) && xs != []
    ensures MayFollow(xs[0], Source(xs[1..], gaps[1..]))
    ensures Taken(xs[0], Source(xs[1..], gaps[1..])) == 1 ==>
      (gaps[1] != ""
       && Source(xs[1..], gaps[1..])[1..] == Source(xs[1..], gaps[1..][0 := gaps[1][1..]])
       && Apart(xs[1..], gaps[1..][0 := gaps[1][1..]]))
  {
    hide IsBlank;
    assert AllBlank(gaps[1]);
    Commas();
    if gaps[1] != "" {
      assert IsBlank(gaps[1][0]);
      ShorterGap(xs, gaps);
    } else if |xs| > 1 {
      assert Source(xs[1..], gaps[1..]) == Written(xs[1]) + Source(xs[2..], gaps[2..]);
    }
  }

  lemma Commas()
    ensures !IsBlank(',') && !IsBlank('\n')
  {
  }

  lemma ShorterGap(xs: seq<Item>, gaps: seq<string>)
    requires Apart(xs, gaps) && xs != [] && gaps[1] != ""
    ensures var less := gaps[1..][0 := gaps[1][1..]];
      && |less| == |xs| && Source(xs[1..], gaps[1..])[1..] == Source(xs[1..], less)
      && Apart(xs[1..], less)
  {
    var less := gaps[1..][0 := gaps[1][1..]];
    assert AllBlank(gaps[1]);
    assert AllBlank(less[0]);
    assert less[1..] == gaps[1..][1..];
    forall i | 0 <= i < |less|
      ensures AllBlank(less[i])
    {
      assert AllBlank(gaps[i + 1]);
    }
  }

  /** After the call for the first token the others are left, with a gap one blank shorter if the
      call took that blank. */
  lemma AfterItem(src: string, pos: nat, line: nat, xs: seq<Item>, gaps: seq<string>, size: nat)
    returns (left: seq<string>)
    requires Apart(xs, gaps) && AllWellFormed(xs, size) && xs != []
    requires pos <= |src| && src[pos..] == Source(xs, gaps)
    ensures Apart(xs[1..], left)
    ensures var o := Next(src, pos, line, size);
      o.Got? && o.text == TokenText(xs[0]) && o.pos <= |src| && src[o.pos..] == Source(xs[1..], left)
  {
    hide Next, Written, IsBlank, WellFormed, MayFollow, TokenText, Apart, Taken;
    ApartLengths(xs, gaps);
    var rest := Source(xs[1..], gaps[1..]);
    assert Source(xs, gaps) == gaps[0] + (Written(xs[0]) + rest);
    FollowHolds(xs, gaps);
    ScanItem(src, pos, line, gaps[0], xs[0], rest, size);
    assert gaps[0] + Written(xs[0]) + rest == gaps[0] + (Written(xs[0]) + rest);
    Peel(src, pos, gaps[0] + Written(xs[0]), rest);
    TakenRange(xs[0], rest);
    left := gaps[1..];
    if Taken(xs[0], rest) == 1 {
      Peel(src, |src| - |rest|, rest[..1], rest[1..]);
      left := gaps[1..][0 := gaps[1][1..]];
    }
  }

  lemma {:induction false} ReadCalls(src: string, pos: nat, line: nat, xs: seq<Item>,
                                     gaps: seq<string>, size: nat)
    requires Apart(xs, gaps) && AllWellFormed(xs, size)
    requires pos <= |src| && src[pos..] == Source(xs, gaps)
    ensures Calls(src, pos, line, size, |xs|) == Texts(xs)
    decreases |xs|
  {
    hide Next, Written, IsBlank, WellFormed, TokenText, Apart, Source;
    if xs != [] {
      var left := AfterItem(src, pos, line, xs, gaps, size);
      var o := Next(src, pos, line, size);
      ReadCalls(src, o.pos, o.line, xs[1..], left, size);
    }
  }

  lemma TakenRange(x: Item, rest: string)
    ensures Taken(x, rest) <= 1 && (Taken(x, rest) == 1 ==> rest != "")
  {
  }

  lemma ApartLengths(xs: seq<Item>, gaps: seq<string>)
    requires Apart(xs, gaps) && xs != []
    ensures |gaps| == |xs| + 1 && AllBlank(gaps[0]) && Apart(xs[1..], gaps[1..])
  {
    forall i | 0 <= i < |gaps[1..]|
      ensures AllBlank(gaps[1..][i])
    {
      assert AllBlank(gaps[i + 1]);
    }
  }

  /** Well-formed tokens written one after the other, apart where they must be, come back as the
      same list from as many calls. */
  lemma TokensReadBack(xs: seq<Item>, gaps: seq<string>, size: nat)
    requires Apart(xs, gaps) && AllWellFormed(xs, size)
    ensures Calls(Source(xs, gaps), 0, 1, size, |xs|) == Texts(xs)
  {
    hide Calls, Apart, AllWellFormed;
    assert |gaps| == |xs| + 1 by { ApartSize(xs, gaps); }
    var src := Source(xs, gaps);
    assert src[0..] == src;
    ReadCalls(src, 0, 1, xs, gaps, size);
  }

  lemma ApartSize(xs: seq<Item>, gaps: seq<string>)
    requires Apart(xs, gaps)
    ensures |gaps| == |xs| + 1
  {
  }

  // ------------------------------------------------------------------------ the lexer

  class SourceLexer {
    const source: string
    var pos: nat
    var line: nat

    ghost predicate Valid()
      reads this
    {
      pos <= |source| && line == 1 + Newlines(source, 0, pos)
    }

    constructor (source: string)
      ensures Valid() && this.source == source && pos == 0 && line == 1
    {
      this.source, pos, line := source, 0, 1;
    }

    /** `ResetLexer`. */
    method Reset()
      modifies this
      ensures Valid() && pos == 0 && line == 1
    {
      pos, line := 0, 1;
    }

    /** `_GetToken` with a buffer of `size` characters; a failed call ends the assembler.  A peek
        returns the line from before the call. */
    method Token(token: array<char>, size: nat, peek: bool)
      returns (ok: bool, length: nat, at: nat)
      requires Valid() && 0 < size <= token.Length
      modifies this, token
      ensures ok <==> Next(source, old(pos), old(line), size).Got?
      ensures ok ==>
        var o := Next(source, old(pos), old(line), size);
        && Valid() && length < size && token[..length] == o.text && token[length] == '\0'
        && (if peek then pos == old(pos) && line == old(line)
            else pos == o.pos && line == o.line)
        && at == line
    {
      hide Scan, React, Newlines;
      CallBoundary(source, pos, line, size);
      var oldPos, oldLine := pos, line;
      ghost var goal := Next(source, pos, line, size);
      var mode := Idle;
      var end := false;
      ok, length, at := true, 0, line;
      while pos != |source| && !end
        invariant pos <= |source| && length < size
        invariant goal == if end then Got(token[..length], pos, line)
                          else Scan(source, pos, line, mode, token[..length], size)
        decreases |source| - pos, !end
      {
        var c := source[pos];
        ScanStep(source, pos, line, mode, token[..length], size);
        ReactNewline(mode, c);
        if c == ';' && mode == Idle {
          CommentReacts();
          ok := SkipComment();
          if !ok {
            return;
          }
        } else {
          var put, back;
          put, back, mode, end := Consume(mode, c);
          if c == '\n' && put {
            line := line + 1;
          }
          if put {
            if length + 1 >= size {
              ok := false;
              return;
            }
            token[length] := c;
            length := length + 1;
            assert token[..length] == token[..length - 1] + [c];
          }
          if !back {
            pos := pos + 1;
          }
        }
      }
      if !end {
        ScanAtEnd(source, line, mode, token[..length], size);
      }
      assert token[..length] == goal.text;
      token[length] := '\0';
      if peek {
        pos, line := oldPos, oldLine;
      }
      at := line;
    }

    /** The loop that skips a comment from its sign on, up to a newline or the end; it fails when
        the sign is the last character. */
    method SkipComment() returns (ok: bool)
      requires pos < |source|
      modifies this`pos
      ensures ok <==> old(pos) + 1 < |source|
      ensures ok ==> old(pos) < pos == LineEnd(source, old(pos) + 1)
    {
      pos := pos + 1;
      if pos == |source| {
        return false;
      }
      ok := true;
      while pos != |source| && source[pos] != '\n'
        invariant old(pos) < pos <= |source|
        invariant LineEnd(source, old(pos) + 1) == LineEnd(source, pos)
        decreases |source| - pos
      {
        pos := pos + 1;
      }
    }

    /** The cases of the switch, but for a comment sign between tokens. */
    static method Consume(mode: Mode, c: char)
      returns (put: bool, back: bool, next: Mode, end: bool)
      requires !(c == ';' && mode == Idle)
      ensures React(mode, c) == Reaction(put, back, next, end, c == '\n' && put, false)
    {
      put, back, next, end := false, false, mode, false;
      if c == '\n' {
        put, back, end := mode == Idle, mode != Idle, true;
      } else if IsBlank(c) {
        put, end := Enclosed(mode), mode == Word;
      } else if c == ',' {
        if Enclosed(mode) {
          put := true;
        } else {
          put, back, end := mode != Word, mode == Word, true;
        }
      } else if c == '\'' {
        put, end := mode == Idle || mode == Quoted, mode == Quoted;
        next := if mode == Idle then Quoted else mode;
      } else if c == '`' {
        put, end := mode == Idle || mode == Expression, mode == Expression;
        next := if mode == Idle then Expression else mode;
      } else if c == '[' {
        put := mode == Idle || mode == Quoted || mode == Expression;
        next := if mode == Idle then Memory else mode;
      } else if c == ']' {
        put, end := Enclosed(mode), mode == Memory;
      } else if c == ';' {
        put := true;
      } else {
        put := true;
        next := if mode == Idle then Word else mode;
      }
    }
  }

  lemma CommentReacts()
    ensures React(Idle, ';') == Reaction(false, false, Idle, false, false, true)
  {
  }

  /** The buffer size only limits a token: a call that succeeds does the same with any larger one,
      so a peek with one buffer and the next call with another return the same text. */
  lemma {:induction false} SizeOnlyLimits(src: string, pos: nat, line: nat, mode: Mode, acc: string,
                                          size: nat, more: nat)
    requires pos <= |src| && size <= more
    ensures Scan(src, pos, line, mode, acc, size).Got? ==>
            Scan(src, pos, line, mode, acc, more) == Scan(src, pos, line, mode, acc, size)
    decreases |src| - pos
  {
    hide Scan, React;
    if pos == |src| {
      ScanAtEnd(src, line, mode, acc, size);
      ScanAtEnd(src, line, mode, acc, more);
    } else {
      ScanStep(src, pos, line, mode, acc, size);
      ScanStep(src, pos, line, mode, acc, more);
      ReactNewline(mode, src[pos]);
      var r := React(mode, src[pos]);
      if r.comment {
        if pos + 1 < |src| {
          SizeOnlyLimits(src, LineEnd(src, pos + 1), line, mode, acc, size, more);
        }
      } else if !r.end && !(r.put && |acc| + 1 >= size) {
        SizeOnlyLimits(src, pos + 1, if r.newline then line + 1 else line, r.mode,
                       if r.put then acc + [src[pos]] else acc, size, more);
      }
    }
  }
}
