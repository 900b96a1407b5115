/** Cutting a console command into words: bare words and words in double or single quotes with
    backslash escapes. */
module Console {
  import opened Sequences

  const BUFFER_SIZE: nat := 1024

  // --------------------------------------------------------------- one parser call

  predicate IsBlank(c: char) {
    c == ' ' || c == '\t'
  }

  /** Where the parser is inside a word. */
  datatype Mode = Outside | Bare | Quoted(quote: char)

  /** The character that a backslash and `d` stand for inside quotes, if it is an escape. */
  function Escape(quote: char, d: char): string {
    if d == quote || d == '\\' then [d]
    else if d == 'r' then "\r"
    else if d == 'n' then "\n"
    else if d == 't' then "\t"
    else ""
  }

  /** The word and the position after a call that is in `mode` at `pos` with `acc` stored and room
      for `n` characters. */
  function Scan(text: string, pos: nat, mode: Mode, acc: string, n: nat): (r: (string, nat))
    requires pos <= |text|
    ensures pos <= r.1 <= |text| && (|acc| <= n ==> |r.0| <= n)
    decreases |text| - pos
  {
    if pos == |text| || |acc| >= n then (acc, pos)
    else
      var c := text[pos];
      match mode
      case Outside =>
        if c == '"' || c == '\'' then Scan(text, pos + 1, Quoted(c), acc, n)
        else if IsBlank(c) then Scan(text, pos + 1, Outside, acc, n)
        else Scan(text, pos + 1, Bare, acc + [c], n)
      case Bare =>
        if IsBlank(c) || c == '"' then (acc, pos) else Scan(text, pos + 1, Bare, acc + [c], n)
      case Quoted(q) =>
        if c == q then (acc, pos + 1)
        else if c != '\\' then Scan(text, pos + 1, mode, acc + [c], n)
        else if pos + 1 == |text| then Scan(text, pos + 1, mode, acc, n)
        else if Escape(q, text[pos + 1]) != "" then
          Scan(text, pos + 2, mode, acc + Escape(q, text[pos + 1]), n)
        else Scan(text, pos + 1, mode, acc + "\\", n)
  }

  /** The words of `k` successive calls. */
  function Words(text: string, pos: nat, n: nat, k: nat): (ws: seq<string>)
    requires pos <= |text|
    ensures |ws| == k
    decreases k
  {
    if k == 0 then []
    else
      var (word, next) := Scan(text, pos, Outside, "", n);
      [word] + Words(text, next, n, k - 1)
  }

  /** Where `k` successive calls leave the position. */
  function After(text: string, pos: nat, n: nat, k: nat): (next: nat)
    requires pos <= |text|
    ensures pos <= next <= |text|
    decreases k
  {
    if k == 0 then pos else After(text, Scan(text, pos, Outside, "", n).1, n, k - 1)
  }

  /** What `UtlCopyString` leaves in the buffer: up to the end mark, cut to the buffer. */
  function Copied(cmd: string): (text: string)
    ensures text <= cmd && '\0' !in text && |text| < 1024
    ensures |text| < |cmd| ==> |text| == 1023 || cmd[|text|] == '\0'
  {
    var end := FirstEnd(cmd, 0);
    cmd[..if end < BUFFER_SIZE - 1 then end else BUFFER_SIZE - 1]
  }

  function FirstEnd(cmd: string, i: nat): (end: nat)
    requires i <= |cmd|
    ensures i <= end <= |cmd|
    ensures forall k :: i <= k < end ==> cmd[k] != '\0'
    ensures end < |cmd| ==> cmd[end] == '\0'
    decreases |cmd| - i
  {
    if i == |cmd| || cmd[i] == '\0' then i else FirstEnd(cmd, i + 1)
  }

  lemma ScanStep(text: string, pos: nat, mode: Mode, acc: string, n: nat)
    requires pos < |text| && |acc| < n
    ensures var c := text[pos];
      var r := Scan(text, pos, mode, acc, n);
      && (mode.Outside? && (c == '"' || c == '\'') ==> r == Scan(text, pos + 1, Quoted(c), acc, n))
      && (mode.Outside? && IsBlank(c) ==> r == Scan(text, pos + 1, Outside, acc, n))
      && (mode.Outside? && !IsBlank(c) && c != '"' && c != '\'' ==>
            r == Scan(text, pos + 1, Bare, acc + [c], n))
      && (mode.Bare? && (IsBlank(c) || c == '"') ==> r == (acc, pos))
      && (mode.Bare? && !IsBlank(c) && c != '"' ==> r == Scan(text, pos + 1, Bare, acc + [c], n))
  {
  }

  lemma QuotedStep(text: string, pos: nat, q: char, acc: string, n: nat)
    requires pos < |text| && |acc| < n
    ensures var c := text[pos];
      var r := Scan(text, pos, Quoted(q), acc, n);
      && (c == q ==> r == (acc, pos + 1))
      && (c != q && c != '\\' ==> r == Scan(text, pos + 1, Quoted(q), acc + [c], n))
      && (c != q && c == '\\' && pos + 1 == |text| ==>
            r == Scan(text, pos + 1, Quoted(q), acc, n))
      && (c != q && c == '\\' && pos + 1 < |text| ==>
            var e := Escape(q, text[pos + 1]);
            r == if e != "" then Scan(text, pos + 2, Quoted(q), acc + e, n)
                 else Scan(text, pos + 1, Quoted(q), acc + "\\", n))
  {
  }

  lemma ScanDone(text: string, pos: nat, mode: Mode, acc: string, n: nat)
    requires pos <= |text| && (pos == |text| || |acc| >= n)
    ensures Scan(text, pos, mode, acc, n) == (acc, pos)
  {
  }

  // ------------------------------------------------------------------- the parser

  class CommandParser {
    const buffer: array<char>
    var len: nat
    var pos: nat

    ghost predicate Valid()
      reads this
    {
      buffer.Length == BUFFER_SIZE && pos <= len < BUFFER_SIZE
    }

    /** The command that was set. */
    ghost function Text(): string
      requires Valid()
      reads this, buffer
    {
      buffer[..len]
    }

    constructor ()
      ensures Valid() && Text() == "" && pos == 0 && fresh(buffer)
    {
      buffer := new char[BUFFER_SIZE](i => '\0');
      len, pos := 0, 0;
    }

    /** A call with a command. */
    method SetCommand(cmd: string) returns (left: nat)
      requires Valid()
      modifies this, buffer
      ensures Valid() && Text() == Copied(cmd) && pos == 0 && left == len
    {
      var i := 0;
      while i < BUFFER_SIZE - 1 && i < |cmd| && cmd[i] != '\0'
        invariant 0 <= i <= |cmd| && i < BUFFER_SIZE
        invariant buffer[..i] == cmd[..i] && '\0' !in cmd[..i]
        invariant FirstEnd(cmd, 0) == FirstEnd(cmd, i)
      {
        buffer[i] := cmd[i];
        i := i + 1;
      }
      buffer[i] := '\0';
      len := i;
      pos := 0;
      left := len;
      assert i == if FirstEnd(cmd, 0) < BUFFER_SIZE - 1 then FirstEnd(cmd, 0) else BUFFER_SIZE - 1;
    }

    /** The character stored for a backslash before `d`, and how many places `d` takes. */
    static method Unescape(quote: char, d: char) returns (c: char, width: nat)
      ensures Escape(quote, d) != "" ==> [c] == Escape(quote, d) && width == 1
      ensures Escape(quote, d) == "" ==> c == '\\' && width == 0
    {
      if d == quote || d == '\\' {
        c, width := d, 1;
      } else if d == 'r' {
        c, width := '\r', 1;
      } else if d == 'n' {
        c, width := '\n', 1;
      } else if d == 't' {
        c, width := '\t', 1;
      } else {
        c, width := '\\', 0;
      }
    }

    /** One character inside quotes. */
    method QuotedChar(word: array<char>, at: nat, quote: char, n: nat) returns (ui: nat, done: bool)
      requires Valid() && word != buffer && at < n < word.Length && pos < len
      requires quote == '"' || quote == '\''
      modifies this`pos, word
      ensures Valid() && old(pos) < pos && ui <= n
      ensures Scan(Text(), old(pos), Quoted(quote), old(word[..at]), n) ==
              if done then (word[..ui], pos) else Scan(Text(), pos, Quoted(quote), word[..ui], n)
    {
      hide Scan, Escape, Copied;
      ghost var text, was := buffer[..len], word[..at];
      var chr := buffer[pos];
      ui, done := at, false;
      QuotedStep(text, pos, quote, was, n);
      if chr == '\\' && pos + 1 < len {
        var c, width := Unescape(quote, buffer[pos + 1]);
        word[ui] := c;
        ui := ui + 1;
        pos := pos + width;
        assert word[..ui] == was + [c];
      } else if chr != '\\' && chr != quote {
        word[ui] := chr;
        ui := ui + 1;
        assert word[..ui] == was + [chr];
      } else if chr == quote {
        done := true;
      }
      pos := pos + 1;
      assert buffer[..len] == text;
    }

    /** A call without a command and with variable processing off: the next word, ended by a mark
        that needs one place more than `n`.  `size` is the length of the word. */
    method NextWord(word: array<char>, n: nat) returns (left: nat, ghost size: nat)
      requires Valid() && word != buffer && n < word.Length
      modifies this`pos, word
      ensures Valid() && Text() == old(Text())
      ensures pos == Scan(Text(), old(pos), Outside, "", n).1 && left == len - pos
      ensures size <= n && word[size] == '\0'
      ensures word[..size] == Scan(Text(), old(pos), Outside, "", n).0
    {
      hide Scan, Escape, Copied;
      var ui := 0;
      var mode := Outside;
      var done := false;
      ghost var text := buffer[..len];
      while !done && pos < len && ui < n
        invariant pos <= len && buffer[..len] == text && 0 <= ui <= n
        invariant mode.Quoted? ==> mode.quote == '"' || mode.quote == '\''
        invariant Scan(text, old(pos), Outside, "", n) ==
                  if done then (word[..ui], pos) else Scan(text, pos, mode, word[..ui], n)
        decreases len - pos, !done
      {
        var chr := buffer[pos];
        ghost var was := word[..ui];
        if mode.Quoted? {
          ui, done := QuotedChar(word, ui, mode.quote, n);
        } else {
          ScanStep(text, pos, mode, was, n);
          if mode.Bare? && (IsBlank(chr) || chr == '"') {
            done := true;
          } else {
            if mode.Bare? || (!IsBlank(chr) && chr != '"' && chr != '\'') {
              word[ui] := chr;
              ui := ui + 1;
              assert word[..ui] == was + [chr];
              mode := Bare;
            } else if !IsBlank(chr) {
              mode := Quoted(chr);
            }
            pos := pos + 1;
          }
        }
      }
      if !done {
        ScanDone(text, pos, mode, word[..ui], n);
      }
      assert Text() == text;
      word[ui] := '\0';
      left := len - pos;
      size := ui;
    }
  }

  // --------------------------------------------------------------------- round trip

  /** A word as it is written in a command; in quotes, line ends and tabs as they are or as letters
      after a backslash. */
  datatype Written = Plain(word: string) | InQuotes(word: string, quote: char, letters: bool)

  function Code(c: char, quote: char, letters: bool): (t: string)
    ensures |t| > 0
  {
    if c == quote || c == '\\' then ['\\', c]
    else if letters && c == '\r' then ['\\', 'r']
    else if letters && c == '\n' then ['\\', 'n']
    else if letters && c == '\t' then ['\\', 't']
    else [c]
  }

  function Escaped(w: string, quote: char, letters: bool): string {
    if w == "" then "" else Code(w[0], quote, letters) + Escaped(w[1..], quote, letters)
  }

  function Spelled(x: Written): string {
    match x
    case Plain(w) => w
    case InQuotes(w, q, letters) => [q] + Escaped(w, q, letters) + [q]
  }

  /** A word needs quotes when it is empty, starts with a quote, or holds a blank or a double
      quote. */
  ghost predicate Writable(x: Written) {
    match x
    case Plain(w) => w != "" && w[0] != '\'' && BareText(w)
    case InQuotes(_, q, _) => q == '"' || q == '\''
  }

  ghost predicate BareText(w: string): (b: bool)
    ensures b ==> forall i :: 0 <= i < |w| ==> !IsBlank(w[i]) && w[i] != '"'
  {
    forall i :: 0 <= i < |w| ==> w[i] != ' ' && w[i] != '\t' && w[i] != '"'
  }

  /** Spaces and tabs. */
  ghost predicate AllBlank(s: string): (b: bool)
    ensures b ==> forall i :: 0 <= i < |s| ==> IsBlank(s[i])
  {
    forall i :: 0 <= i < |s| ==> s[i] == ' ' || s[i] == '\t'
  }

  /** A command: each word after its gap, and a gap at the end. */
  function Line(xs: seq<Written>, gaps: seq<string>): string
    requires |gaps| == |xs| + 1
    decreases |xs|
  {
    if xs == [] then gaps[0] else gaps[0] + Spelled(xs[0]) + Line(xs[1..], gaps[1..])
  }

  /** The gaps are blank, and a plain word is kept apart from the next word by its gap or by the
      double quote that starts it. */
  ghost predicate Apart(xs: seq<Written>, gaps: seq<string>) {
    && |gaps| == |xs| + 1
    && (forall i :: 0 <= i < |gaps| ==> AllBlank(gaps[i]))
    && (forall i :: 0 <= i < |xs| - 1 && xs[i].Plain? && gaps[i + 1] == "" ==>
          xs[i + 1].InQuotes? && xs[i + 1].quote == '"')
  }

  ghost predicate AllWritable(xs: seq<Written>, n: nat) {
    forall i :: 0 <= i < |xs| ==> Writable(xs[i]) && |xs[i].word| < n
  }

  function WordsOf(xs: seq<Written>): (ws: seq<string>)
    ensures |ws| == |xs|
  {
    if xs == [] then [] else [xs[0].word] + WordsOf(xs[1..])
  }

  lemma {:induction false} SkipBlanks(text: string, pos: nat, gap: string, rest: string, n: nat)
    requires pos <= |text| && text[pos..] == gap + rest && AllBlank(gap) && n > 0
    ensures pos + |gap| <= |text| && text[pos + |gap|..] == rest
    ensures Scan(text, pos, Outside, "", n) == Scan(text, pos + |gap|, Outside, "", n)
    decreases |gap|
  {
    hide Scan;
    Peel(text, pos, gap, rest);
    if gap != "" {
      assert IsBlank(gap[0]);
      ScanStep(text, pos, Outside, "", n);
      assert gap + rest == gap[..1] + (gap[1..] + rest);
      Peel(text, pos, gap[..1], gap[1..] + rest);
      SkipBlanks(text, pos + 1, gap[1..], rest, n);
    }
  }

  lemma {:induction false} ScanBareBody(text: string, pos: nat, w: string, acc: string,
                                        rest: string, n: nat)
    requires pos <= |text| && text[pos..] == w + rest && BareText(w) && |acc| + |w| < n
    requires rest == "" || IsBlank(rest[0]) || rest[0] == '"'
    ensures Scan(text, pos, Bare, acc, n) == (acc + w, |text| - |rest|)
    decreases |w|
  {
    hide Scan;
    if w == "" {
      assert text[pos..] == rest && acc + w == acc;
      if rest == "" {
        ScanDone(text, pos, Bare, acc, n);
      } else {
        Peel(text, pos, rest[..1], rest[1..]);
        ScanStep(text, pos, Bare, acc, n);
      }
    } else {
      assert w + rest == w[..1] + (w[1..] + rest);
      Peel(text, pos, w[..1], w[1..] + rest);
      assert !IsBlank(w[0]) && w[0] != '"';
      ScanStep(text, pos, Bare, acc, n);
      ScanBareBody(text, pos + 1, w[1..], acc + [w[0]], rest, n);
      assert acc + [w[0]] + w[1..] == acc + w;
    }
  }

  lemma {:induction false} BareCut(text: string, pos: nat, w: string, acc: string, rest: string, n: nat)
    requires pos <= |text| && text[pos..] == w + rest && BareText(w) && |acc| <= n <= |acc| + |w|
    ensures Scan(text, pos, Bare, acc, n) == (acc + w[..n - |acc|], pos + n - |acc|)
    decreases |w|
  {
    hide Scan;
    if |acc| == n {
      ScanDone(text, pos, Bare, acc, n);
      assert acc + w[..0] == acc;
    } else {
      assert w + rest == w[..1] + (w[1..] + rest);
      Peel(text, pos, w[..1], w[1..] + rest);
      assert !IsBlank(w[0]) && w[0] != '"';
      ScanStep(text, pos, Bare, acc, n);
      BareCut(text, pos + 1, w[1..], acc + [w[0]], rest, n);
      assert acc + [w[0]] + w[1..][..n - |acc| - 1] == acc + w[..n - |acc|];
    }
  }

  /** A plain word with at least as many characters as a call has room for is cut there, and the
      next call goes on with what is left of it. */
  lemma LongWordCut(text: string, pos: nat, w: string, rest: string, n: nat)
    requires pos <= |text| && text[pos..] == w + rest && Writable(Plain(w)) && 0 < n <= |w|
    ensures Scan(text, pos, Outside, "", n) == (w[..n], pos + n)
    ensures pos + n <= |text| && text[pos + n..] == w[n..] + rest
  {
    hide Scan, IsBlank;
    assert w + rest == w[..1] + (w[1..] + rest) == w[..n] + (w[n..] + rest);
    Peel(text, pos, w[..1], w[1..] + rest);
    Peel(text, pos, w[..n], w[n..] + rest);
    assert !IsBlank(w[0]) && w[0] != '"';
    ScanStep(text, pos, Outside, "", n);
    assert "" + [w[0]] == [w[0]] && [w[0]] + w[1..][..n - 1] == w[..n];
    BareCut(text, pos + 1, w[1..], [w[0]], rest, n);
  }

  /** One written character inside quotes. */
  lemma CodeRead(text: string, pos: nat, c: char, q: char, letters: bool, acc: string, tail: string,
                 n: nat)
    requires pos <= |text| && text[pos..] == Code(c, q, letters) + tail && |acc| < n
    requires q == '"' || q == '\''
    ensures var next := pos + |Code(c, q, letters)|;
      && next <= |text| && text[next..] == tail
      && Scan(text, pos, Quoted(q), acc, n) == Scan(text, next, Quoted(q), acc + [c], n)
  {
    hide Scan;
    var code := Code(c, q, letters);
    Peel(text, pos, code, tail);
    QuotedStep(text, pos, q, acc, n);
    if |code| == 2 {
      assert code + tail == ['\\'] + ([code[1]] + tail);
      Peel(text, pos, ['\\'], [code[1]] + tail);
      Peel(text, pos + 1, [code[1]], tail);
    }
  }

  lemma {:induction false} ScanQuotedBody(text: string, pos: nat, w: string, q: char, letters: bool,
                                          acc: string, rest: string, n: nat)
    requires pos <= |text| && text[pos..] == Escaped(w, q, letters) + [q] + rest && |acc| + |w| < n
    requires q == '"' || q == '\''
    ensures Scan(text, pos, Quoted(q), acc, n) == (acc + w, |text| - |rest|)
    decreases |w|
  {
    hide Scan, Code;
    if w == "" {
      assert Escaped(w, q, letters) + [q] + rest == [q] + rest && acc + w == acc;
      Peel(text, pos, [q], rest);
      QuotedStep(text, pos, q, acc, n);
    } else {
      var tail := Escaped(w[1..], q, letters) + [q] + rest;
      assert Escaped(w, q, letters) + [q] + rest == Code(w[0], q, letters) + tail;
      CodeRead(text, pos, w[0], q, letters, acc, tail, n);
      assert acc + [w[0]] + w[1..] == acc + w;
      ScanQuotedBody(text, pos + |Code(w[0], q, letters)|, w[1..], q, letters, acc + [w[0]], rest, n);
    }
  }

  /** One call reads one written word, whatever stands before it, and stops right after it. */
  lemma ScanWritten(text: string, pos: nat, gap: string, x: Written, rest: string, n: nat)
    requires pos <= |text| && text[pos..] == gap + (Spelled(x) + rest)
    requires AllBlank(gap) && Writable(x) && |x.word| < n
    requires x.Plain? ==> rest == "" || IsBlank(rest[0]) || rest[0] == '"'
    ensures Scan(text, pos, Outside, "", n) == (x.word, |text| - |rest|)
  {
    hide Scan, Escaped, IsBlank;
    SkipBlanks(text, pos, gap, Spelled(x) + rest, n);
    var start := pos + |gap|;
    match x {
      case Plain(w) => ScanPlain(text, start, w, rest, n);
      case InQuotes(w, q, letters) => ScanQuoted(text, start, w, q, letters, rest, n);
    }
  }

  lemma ScanPlain(text: string, pos: nat, w: string, rest: string, n: nat)
    requires pos <= |text| && text[pos..] == w + rest && Writable(Plain(w)) && |w| < n
    requires rest == "" || IsBlank(rest[0]) || rest[0] == '"'
    ensures Scan(text, pos, Outside, "", n) == (w, |text| - |rest|)
  {
    hide Scan, IsBlank;
    assert w + rest == w[..1] + (w[1..] + rest);
    Peel(text, pos, w[..1], w[1..] + rest);
    assert !IsBlank(w[0]) && w[0] != '"';
    ScanStep(text, pos, Outside, "", n);
    assert "" + [w[0]] == [w[0]] && [w[0]] + w[1..] == w;
    ScanBareBody(text, pos + 1, w[1..], [w[0]], rest, n);
  }

  lemma ScanQuoted(text: string, pos: nat, w: string, q: char, letters: bool, rest: string, n: nat)
    requires pos <= |text| && text[pos..] == Spelled(InQuotes(w, q, letters)) + rest && |w| < n
    requires q == '"' || q == '\''
    ensures Scan(text, pos, Outside, "", n) == (w, |text| - |rest|)
  {
    hide Scan, Escaped;
    var body := Escaped(w, q, letters) + [q] + rest;
    assert Spelled(InQuotes(w, q, letters)) + rest == [q] + body;
    Peel(text, pos, [q], body);
    ScanStep(text, pos, Outside, "", n);
    ScanQuotedBody(text, pos + 1, w, q, letters, "", rest, n);
    assert "" + w == w;
  }

  lemma {:induction false} ReadLine(text: string, pos: nat, xs: seq<Written>, gaps: seq<string>,
                                    n: nat)
    requires Apart(xs, gaps) && AllWritable(xs, n)
    requires pos <= |text| && text[pos..] == Line(xs, gaps)
    ensures Words(text, pos, n, |xs|) == WordsOf(xs)
    ensures text[After(text, pos, n, |xs|)..] == gaps[|xs|]
    decreases |xs|
  {
    hide Scan, Spelled, IsBlank;
    if xs != [] {
      var rest := Line(xs[1..], gaps[1..]);
      assert Line(xs, gaps) == gaps[0] + (Spelled(xs[0]) + rest);
      RestStarts(xs, gaps);
      ScanWritten(text, pos, gaps[0], xs[0], rest, n);
      Peel(text, pos, gaps[0] + Spelled(xs[0]), rest);
      assert gaps[0] + Spelled(xs[0]) + rest == gaps[0] + (Spelled(xs[0]) + rest);
      ReadLine(text, |text| - |rest|, xs[1..], gaps[1..], n);
    }
  }

  lemma RestStarts(xs: seq<Written>, gaps: seq<string>)
    requires Apart(xs, gaps) && xs != []
    ensures var rest := Line(xs[1..], gaps[1..]);
      xs[0].Plain? ==> rest == "" || IsBlank(rest[0]) || rest[0] == '"'
  {
    if xs[0].Plain? {
      assert AllBlank(gaps[1]);
      if gaps[1] == "" && |xs| > 1 {
        assert Spelled(xs[1])[0] == '"';
      }
    }
  }

  /** A command that fits the buffer comes back word for word: setting a line of plain and quoted
      words and calling once for each word gives exactly those words, and only the last gap is
      left. */
  lemma CommandReadBack(xs: seq<Written>, gaps: seq<string>, n: nat)
    requires Apart(xs, gaps) && AllWritable(xs, n)
    requires |Line(xs, gaps)| < BUFFER_SIZE && '\0' !in Line(xs, gaps)
    ensures Words(Copied(Line(xs, gaps)), 0, n, |xs|) == WordsOf(xs)
    ensures var text := Copied(Line(xs, gaps));
      text[After(text, 0, n, |xs|)..] == gaps[|xs|]
  {
    hide Words, After, Line;
    var line := Line(xs, gaps);
    assert FirstEnd(line, 0) == |line|;
    assert Copied(line) == line && line[0..] == line;
    ReadLine(line, 0, xs, gaps, n);
  }

  /** The bound on the word is exact: a quoted word is read to its closing quote if and only if it
      is shorter than `n`; a longer one leaves its end for the next call. */
  lemma QuotedWordReadIff(w: string, q: char, letters: bool, n: nat)
    requires q == '"' || q == '\''
    ensures var text := Spelled(InQuotes(w, q, letters));
      (Scan(text, 0, Outside, "", n) == (w, |text|) <==> |w| < n)
  {
    hide Scan, Escaped;
    var x := InQuotes(w, q, letters);
    var text := Spelled(x);
    assert text[0..] == "" + (text + "");
    if |w| < n {
      ScanWritten(text, 0, "", x, "", n);
    } else if n == 0 {
      ScanDone(text, 0, Outside, "", n);
    } else {
      ScanStep(text, 0, Outside, "", n);
      Cut(text, 1, w, q, letters, "", n);
    }
  }

  lemma {:induction false} Cut(text: string, pos: nat, w: string, q: char, letters: bool, acc: string, n: nat)
    requires pos <= |text| && text[pos..] == Escaped(w, q, letters) + [q] && |acc| + |w| >= n
    requires q == '"' || q == '\''
    ensures Scan(text, pos, Quoted(q), acc, n).1 < |text|
    decreases |w|
  {
    hide Scan, Code;
    if |acc| >= n {
      ScanDone(text, pos, Quoted(q), acc, n);
    } else {
      var tail := Escaped(w[1..], q, letters) + [q];
      assert Escaped(w, q, letters) + [q] == Code(w[0], q, letters) + tail;
      CodeRead(text, pos, w[0], q, letters, acc, tail, n);
      Cut(text, pos + |Code(w[0], q, letters)|, w[1..], q, letters, acc + [w[0]], n);
    }
  }

  /** A backslash before any other character stands for itself; one at the very end is lost. */
  lemma LoneBackslash(q: char, d: char, n: nat)
    requires (q == '"' || q == '\'') && d != q && d !in "\\rnt" && n >= 3
    ensures Scan([q, '\\', d, q], 0, Outside, "", n) == (['\\', d], 4)
    ensures Scan([q, d, '\\'], 0, Outside, "", n) == ([d], 3)
  {
    hide Scan;
    var text := [q, '\\', d, q];
    ScanStep(text, 0, Outside, "", n);
    QuotedStep(text, 1, q, "", n);
    assert "" + "\\" == "\\";
    QuotedStep(text, 2, q, "\\", n);
    assert "\\" + [d] == ['\\', d];
    QuotedStep(text, 3, q, ['\\', d], n);
    var open := [q, d, '\\'];
    ScanStep(open, 0, Outside, "", n);
    QuotedStep(open, 1, q, "", n);
    assert "" + [d] == [d];
    QuotedStep(open, 2, q, [d], n);
    ScanDone(open, 3, Quoted(q), [d], n);
  }
}
