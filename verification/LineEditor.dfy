/** Editing an input line: a text split just after the cursor, and the buffer loops that keep it. */
module LineEditor {

  const ENTER: nat := 10
  const BACKSPACE: nat := 8
  const KEY_EXT: nat := 224
  const ARROW_LEFT: nat := 75
  const ARROW_RIGHT: nat := 77

  /** A key byte, and whether the screen cursor is free to follow it: not at the screen's first
      place for backspace and left, not at its last for right. */
  datatype Key = Key(chr: nat, free: bool)

  /** The text before and after the cursor. */
  datatype Line = Line(left: seq<nat>, right: seq<nat>)

  /** Still reading, or finished with a text and the number of keys read. */
  datatype Outcome = Waiting(line: Line) | Finished(text: seq<nat>, read: nat)

  function Text(line: Line): seq<nat> {
    line.left + line.right
  }

  function Type(line: Line, chr: nat): Line {
    line.(left := line.left + [chr])
  }

  function Backspace(line: Line, free: bool): Line {
    if line.left != [] && free then line.(left := line.left[..|line.left| - 1]) else line
  }

  function MoveLeft(line: Line, free: bool): Line {
    if line.left != [] && free then
      Line(line.left[..|line.left| - 1], [line.left[|line.left| - 1]] + line.right)
    else line
  }

  function MoveRight(line: Line, free: bool): Line {
    if line.right != [] && free then Line(line.left + [line.right[0]], line.right[1..]) else line
  }

  function Arrow(line: Line, key: Key): Line {
    if key.chr == ARROW_LEFT then MoveLeft(line, key.free)
    else if key.chr == ARROW_RIGHT then MoveRight(line, key.free)
    else line
  }

  predicate Ends(line: Line, key: Key, n: nat) {
    key.chr == ENTER || |Text(line)| >= n
  }

  /** The outcome of the keys from place `i` on. */
  function Edit(line: Line, keys: seq<Key>, i: nat, n: nat): Outcome
    requires i <= |keys|
    decreases |keys| - i
  {
    if i == |keys| then Waiting(line)
    else
      var key := keys[i];
      if Ends(line, key, n) then Finished(Text(line), i + 1)
      else if key.chr == BACKSPACE then Edit(Backspace(line, key.free), keys, i + 1, n)
      else if key.chr != KEY_EXT then Edit(Type(line, key.chr), keys, i + 1, n)
      else if i + 1 == |keys| then Waiting(line)
      else Edit(Arrow(line, keys[i + 1]), keys, i + 2, n)
  }

  lemma EditStep(line: Line, keys: seq<Key>, i: nat, n: nat)
    requires i < |keys|
    ensures var key := keys[i];
      var r := Edit(line, keys, i, n);
      && (Ends(line, key, n) ==> r == Finished(Text(line), i + 1))
      && (!Ends(line, key, n) && key.chr == BACKSPACE ==>
            r == Edit(Backspace(line, key.free), keys, i + 1, n))
      && (!Ends(line, key, n) && key.chr != BACKSPACE && key.chr != KEY_EXT ==>
            r == Edit(Type(line, key.chr), keys, i + 1, n))
      && (!Ends(line, key, n) && key.chr == KEY_EXT && i + 1 == |keys| ==> r == Waiting(line))
      && (!Ends(line, key, n) && key.chr == KEY_EXT && i + 1 < |keys| ==>
            r == Edit(Arrow(line, keys[i + 1]), keys, i + 2, n))
  {
  }

  lemma EditDone(line: Line, keys: seq<Key>, n: nat)
    ensures Edit(line, keys, |keys|, n) == Waiting(line)
  {
  }

  /** An arrow moves one character across the split and leaves the text alone. */
  lemma ArrowKeepsText(line: Line, key: Key)
    ensures Text(Arrow(line, key)) == Text(line)
    ensures |Arrow(line, key).left| ==
            if key.chr == ARROW_LEFT && key.free && line.left != [] then |line.left| - 1
            else if key.chr == ARROW_RIGHT && key.free && line.right != [] then |line.left| + 1
            else |line.left|
  {
  }

  lemma EndsIs(line: Line, key: Key, n: nat)
    ensures Ends(line, key, n) <==> key.chr == ENTER || |Text(line)| >= n
  {
  }

  lemma BackspaceBlocked(line: Line)
    ensures Backspace(line, false) == line
    ensures line.left == [] ==> Backspace(line, true) == line
  {
  }

  lemma TextLength(line: Line)
    ensures |Text(line)| == |line.left| + |line.right|
    ensures Text(Line([], [])) == []
  {
  }

  // ------------------------------------------------------------------- the buffer

  /** The buffer holds the line in its first `count` places, split after place `pos`. */
  ghost predicate Holds(buffer: seq<nat>, count: nat, pos: int, line: Line) {
    && count <= |buffer| && buffer[..count] == Text(line)
    && pos == |line.left| - 1
  }

  /** The insertion loop: everything from `pos` on moves up one place, then the new character
      takes the place after `pos`. */
  method Insert(buffer: array<nat>, count: nat, pos: int, chr: nat, ghost line: Line)
    requires Holds(buffer[..], count, pos, line) && count < buffer.Length
    modifies buffer
    ensures Holds(buffer[..], count + 1, pos + 1, Type(line, chr))
  {
    ghost var before := buffer[..];
    var i: int := count - 1;
    while i >= pos && i != -1
      invariant -1 <= i < count && pos - 1 <= i
      invariant forall k :: 0 <= k <= i + 1 && k < count ==> buffer[k] == before[k]
      invariant forall k :: i + 1 < k <= count ==> buffer[k] == before[k - 1]
    {
      buffer[i + 1] := buffer[i];
      i := i - 1;
    }
    buffer[pos + 1] := chr;
    InsertHolds(before, buffer[..], count, pos, chr, line);
  }

  lemma InsertHolds(before: seq<nat>, after: seq<nat>, count: nat, pos: int, chr: nat, line: Line)
    requires Holds(before, count, pos, line) && count < |before| == |after|
    requires forall k :: 0 <= k <= pos ==> after[k] == before[k]
    requires after[pos + 1] == chr && forall k :: pos + 1 < k <= count ==> after[k] == before[k - 1]
    ensures Holds(after, count + 1, pos + 1, Type(line, chr))
  {
    var text := Text(Type(line, chr));
    forall k | 0 <= k < count + 1
      ensures after[k] == text[k]
    {
      assert k < count ==> before[k] == Text(line)[k];
      assert k > 0 ==> before[k - 1] == Text(line)[k - 1];
    }
  }

  /** The deletion loop: everything after `pos` moves down one place. */
  method Delete(buffer: array<nat>, count: nat, pos: int, ghost line: Line)
    requires Holds(buffer[..], count, pos, line) && count > 0 && pos != -1
    modifies buffer
    ensures Holds(buffer[..], count - 1, pos - 1, Backspace(line, true))
  {
    ghost var before := buffer[..];
    var i := pos;
    while i < count - 1
      invariant pos <= i <= count - 1
      invariant forall k :: 0 <= k < pos ==> buffer[k] == before[k]
      invariant forall k :: pos <= k < i ==> buffer[k] == before[k + 1]
      invariant forall k :: i <= k < count ==> buffer[k] == before[k]
    {
      buffer[i] := buffer[i + 1];
      i := i + 1;
    }
    ghost var after := Text(Backspace(line, true));
    forall k | 0 <= k < count - 1
      ensures buffer[k] == after[k]
    {
      assert before[k] == Text(line)[k];
      assert before[k + 1] == Text(line)[k + 1];
    }
  }

  /** `get_strn`, reading its keys from `keys`; it waits for more when they run out. */
  method GetStrn(buffer: array<nat>, n: nat, keys: seq<Key>) returns (finished: bool, count: nat)
    requires n < buffer.Length
    modifies buffer
    ensures count <= n
    ensures match Edit(Line([], []), keys, 0, n)
      case Waiting(line) => !finished && buffer[..count] == Text(line)
      case Finished(text, _) => finished && buffer[..count] == text && buffer[count] == 0
  {
    hide Edit, Type, Backspace, MoveLeft, MoveRight, Text, Ends;
    finished, count := false, 0;
    var pos := -1;
    buffer[0] := 0;
    ghost var line := Line([], []);
    TextLength(line);
    var next := 0;
    while next < |keys|
      invariant next <= |keys| && count <= n
      invariant Holds(buffer[..], count, pos, line)
      invariant Edit(Line([], []), keys, 0, n) == Edit(line, keys, next, n)
      decreases |keys| - next
    {
      EditStep(line, keys, next, n);
      TextLength(line);
      EndsIs(line, keys[next], n);
      BackspaceBlocked(line);
      var key := keys[next];
      next := next + 1;
      if key.chr == ENTER || count >= n {
        buffer[count] := 0;
        return true, count;
      }
      if key.chr == BACKSPACE {
        if count > 0 && pos != -1 && key.free {
          Delete(buffer, count, pos, line);
          count, pos := count - 1, pos - 1;
        }
        line := Backspace(line, key.free);
      } else if key.chr == KEY_EXT {
        if next == |keys| {
          return;
        }
        var arrow := keys[next];
        next := next + 1;
        if arrow.chr == ARROW_LEFT {
          if pos != -1 && arrow.free {
            pos := pos - 1;
          }
        } else if arrow.chr == ARROW_RIGHT {
          if pos + 1 < count && arrow.free {
            pos := pos + 1;
          }
        }
        ArrowKeepsText(line, arrow);
        line := Arrow(line, arrow);
      } else {
        Insert(buffer, count, pos, key.chr, line);
        count, pos := count + 1, pos + 1;
        line := Type(line, key.chr);
      }
    }
    EditDone(line, keys, n);
  }

  // -------------------------------------------------------------------------- laws

  /** Backspace undoes typing, and the arrows undo each other. */
  lemma KeysUndo(line: Line, chr: nat)
    ensures Backspace(Type(line, chr), true) == line
    ensures line.left != [] ==> MoveRight(MoveLeft(line, true), true) == line
    ensures line.right != [] ==> MoveLeft(MoveRight(line, true), true) == line
  {
  }

  /** The text never grows past `n` characters, whatever keys arrive. */
  lemma {:induction false} NeverTooLong(line: Line, keys: seq<Key>, i: nat, n: nat)
    requires i <= |keys| && |Text(line)| <= n
    ensures match Edit(line, keys, i, n)
      case Waiting(after) => |Text(after)| <= n
      case Finished(text, _) => |text| <= n
    decreases |keys| - i
  {
    hide Edit, Arrow;
    if i == |keys| {
      EditDone(line, keys, n);
    } else {
      var key := keys[i];
      EditStep(line, keys, i, n);
      if !Ends(line, key, n) {
        if key.chr == BACKSPACE {
          NeverTooLong(Backspace(line, key.free), keys, i + 1, n);
        } else if key.chr != KEY_EXT {
          NeverTooLong(Type(line, key.chr), keys, i + 1, n);
        } else if i + 1 < |keys| {
          ArrowKeepsText(line, keys[i + 1]);
          NeverTooLong(Arrow(line, keys[i + 1]), keys, i + 2, n);
        }
      }
    }
  }

  /** Not the enter key, backspace, or the mark of an extended key. */
  predicate Plain(chr: nat): (b: bool)
    ensures b ==> chr != ENTER && chr != BACKSPACE && chr != KEY_EXT
  {
    chr != 10 && chr != 8 && chr != 0xE0
  }

  function Typing(w: seq<nat>): (keys: seq<Key>)
    ensures |keys| == |w|
  {
    seq(|w|, i requires 0 <= i < |w| => Key(w[i], true))
  }

  /** `k` presses of the left arrow, of the right arrow, or of backspace. */
  function Lefts(k: nat): (keys: seq<Key>)
    ensures |keys| == 2 * k
  {
    if k == 0 then [] else [Key(0xE0, true), Key(0x4B, true)] + Lefts(k - 1)
  }

  function Rights(k: nat): (keys: seq<Key>)
    ensures |keys| == 2 * k
  {
    if k == 0 then [] else [Key(0xE0, true), Key(0x4D, true)] + Rights(k - 1)
  }

  function Deletes(k: nat): (keys: seq<Key>)
    ensures |keys| == k
  {
    if k == 0 then [] else [Key(8, true)] + Deletes(k - 1)
  }

  lemma {:induction false} EditTyping(line: Line, keys: seq<Key>, i: nat, w: seq<nat>, n: nat)
    requires i + |w| <= |keys| && keys[i..i + |w|] == Typing(w)
    requires (forall k :: 0 <= k < |w| ==> Plain(w[k])) && |Text(line)| + |w| <= n
    ensures Edit(line, keys, i, n) ==
            Edit(Line(line.left + w, line.right), keys, i + |w|, n)
    decreases |w|
  {
    hide Edit;
    if w == [] {
      assert Line(line.left + w, line.right) == line;
    } else {
      assert keys[i] == keys[i..i + |w|][0] == Key(w[0], true);
      assert Plain(w[0]);
      EditStep(line, keys, i, n);
      assert keys[i + 1..i + 1 + |w[1..]|] == keys[i..i + |w|][1..];
      assert Typing(w)[1..] == Typing(w[1..]);
      EditTyping(Type(line, w[0]), keys, i + 1, w[1..], n);
      assert line.left + [w[0]] + w[1..] == line.left + w;
    }
  }

  lemma {:induction false} EditLefts(line: Line, keys: seq<Key>, i: nat, k: nat, n: nat)
    requires i + 2 * k <= |keys| && keys[i..i + 2 * k] == Lefts(k)
    requires k <= |line.left| && |Text(line)| < n
    ensures var m := |line.left| - k;
      Edit(line, keys, i, n) ==
      Edit(Line(line.left[..m], line.left[m..] + line.right), keys, i + 2 * k, n)
    decreases k
  {
    hide Edit;
    var m := |line.left| - k;
    if k == 0 {
      assert line.left[..m] == line.left && line.left[m..] + line.right == line.right;
    } else {
      var here := keys[i..i + 2 * k];
      assert keys[i] == here[0] == Key(KEY_EXT, true) && keys[i + 1] == here[1];
      EditStep(line, keys, i, n);
      assert keys[i + 2..i + 2 + 2 * (k - 1)] == here[2..] == Lefts(k - 1);
      var moved := MoveLeft(line, true);
      ArrowKeepsText(line, keys[i + 1]);
      EditLefts(moved, keys, i + 2, k - 1, n);
      assert moved.left[..m] == line.left[..m];
      assert moved.left[m..] + moved.right == line.left[m..] + line.right;
    }
  }

  lemma {:induction false} EditRights(line: Line, keys: seq<Key>, i: nat, k: nat, n: nat)
    requires i + 2 * k <= |keys| && keys[i..i + 2 * k] == Rights(k)
    requires k <= |line.right| && |Text(line)| < n
    ensures Edit(line, keys, i, n) ==
      Edit(Line(line.left + line.right[..k], line.right[k..]), keys, i + 2 * k, n)
    decreases k
  {
    hide Edit;
    if k == 0 {
      assert line.left + line.right[..k] == line.left && line.right[k..] == line.right;
    } else {
      var here := keys[i..i + 2 * k];
      assert keys[i] == here[0] == Key(KEY_EXT, true) && keys[i + 1] == here[1];
      EditStep(line, keys, i, n);
      assert keys[i + 2..i + 2 + 2 * (k - 1)] == here[2..] == Rights(k - 1);
      var moved := MoveRight(line, true);
      ArrowKeepsText(line, keys[i + 1]);
      EditRights(moved, keys, i + 2, k - 1, n);
      assert moved.left + moved.right[..k - 1] == line.left + line.right[..k];
      assert moved.right[k - 1..] == line.right[k..];
    }
  }

  lemma {:induction false} EditDeletes(line: Line, keys: seq<Key>, i: nat, k: nat, n: nat)
    requires i + k <= |keys| && keys[i..i + k] == Deletes(k)
    requires k <= |line.left| && |Text(line)| < n
    ensures Edit(line, keys, i, n) ==
      Edit(Line(line.left[..|line.left| - k], line.right), keys, i + k, n)
    decreases k
  {
    hide Edit;
    if k == 0 {
      assert line.left[..|line.left| - k] == line.left;
    } else {
      var here := keys[i..i + k];
      assert keys[i] == here[0] == Key(BACKSPACE, true);
      EditStep(line, keys, i, n);
      assert keys[i + 1..i + 1 + (k - 1)] == here[1..] == Deletes(k - 1);
      var less := Backspace(line, true);
      EditDeletes(less, keys, i + 1, k - 1, n);
      assert less.left[..|less.left| - (k - 1)] == line.left[..|line.left| - k];
    }
  }

  lemma EditMoves(keys: seq<Key>, i: nat, w: seq<nat>, k: nat, j: nat, n: nat)
    requires j <= k <= |w| < n && i + 2 * k + 2 * j <= |keys|
    requires keys[i..i + 2 * k] == Lefts(k) && keys[i + 2 * k..i + 2 * k + 2 * j] == Rights(j)
    ensures var at := |w| - k + j;
      Edit(Line(w, []), keys, i, n) == Edit(Line(w[..at], w[at..]), keys, i + 2 * k + 2 * j, n)
  {
    hide Edit, Lefts, Rights;
    var m := |w| - k;
    var back, there := Line(w[..m], w[m..]), Line(w[..m + j], w[m + j..]);
    assert Edit(Line(w, []), keys, i, n) == Edit(back, keys, i + 2 * k, n) by {
      EditLefts(Line(w, []), keys, i, k, n);
      assert w[m..] + [] == w[m..];
    }
    assert Edit(back, keys, i + 2 * k, n) == Edit(there, keys, i + 2 * k + 2 * j, n) by {
      EditRights(back, keys, i + 2 * k, j, n);
      Moved(w, m, j);
    }
  }

  lemma Moved(w: seq<nat>, m: nat, j: nat)
    requires m + j <= |w|
    ensures w[..m] + w[m..][..j] == w[..m + j] && w[m..][j..] == w[m + j..]
  {
  }

  lemma EditReplaces(keys: seq<Key>, i: nat, line: Line, d: nat, v: seq<nat>, n: nat)
    requires forall i :: 0 <= i < |v| ==> Plain(v[i])
    requires d <= |line.left| && |Text(line)| < n && |Text(line)| - d + |v| <= n
    requires i + d + |v| + 1 == |keys| && keys[i..i + d] == Deletes(d)
    requires keys[i + d..i + d + |v|] == Typing(v) && keys[i + d + |v|] == Key(10, true)
    ensures Edit(line, keys, i, n) ==
      Finished(line.left[..|line.left| - d] + v + line.right, |keys|)
  {
    hide Edit, Typing, Deletes, Plain;
    EditDeletes(line, keys, i, d, n);
    var less := Line(line.left[..|line.left| - d], line.right);
    EditTyping(less, keys, i + d, v, n);
    EditStep(Line(less.left + v, less.right), keys, i + d + |v|, n);
  }

  /** Editing in the middle: type `w`, go back `k` characters and forth `j`, delete `d`, type `v` and
      press enter; the line is `w` with the `d` characters before that place replaced by `v`. */
  lemma EditedLine(w: seq<nat>, k: nat, j: nat, d: nat, v: seq<nat>, n: nat)
    requires forall i :: 0 <= i < |w| ==> Plain(w[i])
    requires forall i :: 0 <= i < |v| ==> Plain(v[i])
    requires j <= k <= |w| < n && d <= |w| - k + j && |w| - d + |v| <= n
    ensures var keys := Typing(w) + Lefts(k) + Rights(j) + Deletes(d) + Typing(v) + [Key(10, true)];
      var at := |w| - k + j;
      Edit(Line([], []), keys, 0, n) == Finished(w[..at - d] + v + w[at..], |keys|)
  {
    hide Edit, Typing, Lefts, Rights, Deletes, Plain, Text;
    var keys := Typing(w) + Lefts(k) + Rights(j) + Deletes(d) + Typing(v) + [Key(10, true)];
    Parts(Typing(w), Lefts(k), Rights(j), Deletes(d), Typing(v), [Key(10, true)]);
    var i, at := |w| + 2 * k + 2 * j, |w| - k + j;
    EditTyped(keys, w, n);
    EditMoves(keys, |w|, w, k, j, n);
    EditedAt(keys, i, w, at, d, v, n);
  }

  lemma EditTyped(keys: seq<Key>, w: seq<nat>, n: nat)
    requires forall i :: 0 <= i < |w| ==> Plain(w[i])
    requires |w| <= |keys| && |w| <= n && keys[0..|w|] == Typing(w)
    ensures Edit(Line([], []), keys, 0, n) == Edit(Line(w, []), keys, |w|, n)
  {
    hide Edit, Typing, Plain;
    EditTyping(Line([], []), keys, 0, w, n);
    assert [] + w == w;
  }

  lemma EditedAt(keys: seq<Key>, i: nat, w: seq<nat>, at: nat, d: nat, v: seq<nat>, n: nat)
    requires forall i :: 0 <= i < |v| ==> Plain(v[i])
    requires d <= at <= |w| < n && |w| - d + |v| <= n
    requires i + d + |v| + 1 == |keys| && keys[i..i + d] == Deletes(d)
    requires keys[i + d..i + d + |v|] == Typing(v) && keys[i + d + |v|] == Key(10, true)
    ensures Edit(Line(w[..at], w[at..]), keys, i, n) ==
      Finished(w[..at - d] + v + w[at..], |keys|)
  {
    hide Edit, Typing, Deletes, Plain;
    EditReplaces(keys, i, Line(w[..at], w[at..]), d, v, n);
    assert w[..at][..at - d] == w[..at - d];
  }

  lemma Parts<T>(a: seq<T>, b: seq<T>, c: seq<T>, d: seq<T>, e: seq<T>, f: seq<T>)
    ensures var s := a + b + c + d + e + f;
      var i, j, k, l := |a|, |a| + |b|, |a| + |b| + |c|, |a| + |b| + |c| + |d|;
      && s[0..i] == a && s[i..j] == b && s[j..k] == c && s[k..l] == d && s[l..l + |e|] == e
      && s[l + |e|..] == f
  {
  }

  /** A full line ends with the next key, whatever it is, and that key is lost. */
  lemma FullLineEnds(w: seq<nat>, last: Key)
    requires forall i :: 0 <= i < |w| ==> Plain(w[i])
    ensures Edit(Line([], []), Typing(w) + [last], 0, |w|) == Finished(w, |w| + 1)
  {
    hide Edit, Typing;
    var keys := Typing(w) + [last];
    assert [] + w == w && keys[0..0 + |w|] == Typing(w);
    EditTyping(Line([], []), keys, 0, w, |w|);
    EditStep(Line(w, []), keys, |w|, |w|);
    assert Text(Line(w, [])) == w;
  }
}
