/**
 The shell's line editor and its history.
 */
module LineEditor {
  import opened Bytes
  import opened CStrings
  import opened TextRows

  const LINE_MAX: nat := 256
  const HISTORY_SIZE: nat := 16

  type Line = seq<byte>

  // ---------------------------------------------------------------- history

  /** history_add: empty lines and repeats of the last line are dropped, the oldest of 16 gives way. */
  function HistoryAdd(h: seq<Line>, line: Line): seq<Line> {
    if line == [] || (h != [] && h[|h| - 1] == line) then h
    else if |h| < HISTORY_SIZE then h + [line]
    else h[1..] + [line]
  }

  function Session(lines: seq<Line>): seq<Line> {
    if lines == [] then [] else HistoryAdd(Session(lines[..|lines| - 1]), lines[|lines| - 1])
  }

  function NonEmpty(lines: seq<Line>): seq<Line> {
    if lines == [] then []
    else NonEmpty(lines[..|lines| - 1]) + (if lines[|lines| - 1] == [] then [] else [lines[|lines| - 1]])
  }

  /** Each run of equal neighbours reduced to one. */
  function Collapse(lines: seq<Line>): seq<Line> {
    if |lines| <= 1 then lines
    else if lines[|lines| - 2] == lines[|lines| - 1] then Collapse(lines[..|lines| - 1])
    else Collapse(lines[..|lines| - 1]) + [lines[|lines| - 1]]
  }

  function LastOf(lines: seq<Line>, n: nat): seq<Line> {
    if |lines| <= n then lines else lines[|lines| - n..]
  }

  lemma {:induction false} CollapseLast(lines: seq<Line>)
    requires lines != []
    ensures Collapse(lines) != [] && Collapse(lines)[|Collapse(lines)| - 1] == lines[|lines| - 1]
    decreases |lines|
  {
    if |lines| > 1 {
      CollapseLast(lines[..|lines| - 1]);
    }
  }

  lemma CollapseAppend(lines: seq<Line>, x: Line)
    ensures Collapse(lines + [x]) ==
            if lines != [] && lines[|lines| - 1] == x then Collapse(lines) else Collapse(lines) + [x]
  {
    assert (lines + [x])[..|lines|] == lines;
  }

  lemma LastOfAppend(lines: seq<Line>, x: Line)
    ensures LastOf(lines + [x], HISTORY_SIZE) ==
            var t := LastOf(lines, HISTORY_SIZE); if |t| < HISTORY_SIZE then t + [x] else t[1..] + [x]
  {
  }

  /**
   Over a whole session the history is the last at most 16 nonempty lines with
   consecutive repeats dropped.
   */
  lemma {:induction false} SessionIsSuffix(lines: seq<Line>)
    ensures Session(lines) == LastOf(Collapse(NonEmpty(lines)), HISTORY_SIZE)
    decreases |lines|
  {
    if lines != [] {
      var init, x := lines[..|lines| - 1], lines[|lines| - 1];
      SessionIsSuffix(init);
      var kept := NonEmpty(init);
      if x == [] {
        assert NonEmpty(lines) == kept;
      } else {
        HistoryStep(kept, x);
      }
    } else {
      assert Collapse([]) == [] && LastOf([], HISTORY_SIZE) == [];
    }
  }

  lemma HistoryStep(kept: seq<Line>, x: Line)
    requires x != []
    ensures HistoryAdd(LastOf(Collapse(kept), HISTORY_SIZE), x) == LastOf(Collapse(kept + [x]), HISTORY_SIZE)
  {
    hide Collapse, LastOf;
    NothingKept();
    CollapseAppend(kept, x);
    LastOfAppend(Collapse(kept), x);
    if kept != [] {
      CollapseLast(kept);
      LastKept(Collapse(kept));
    }
  }

  lemma NothingKept()
    ensures LastOf(Collapse([]), HISTORY_SIZE) == []
  {
  }

  lemma LastKept(lines: seq<Line>)
    requires lines != []
    ensures var t := LastOf(lines, HISTORY_SIZE); t != [] && t[|t| - 1] == lines[|lines| - 1]
  {
  }

  // ---------------------------------------------------------------- the zipper

  /** Text left and right of the cursor, and the history position. */
  datatype Zipper = Zipper(left: Line, right: Line, hist: nat)

  /** What one key other than Enter does to the line being edited. */
  function Key(z: Zipper, c: byte, h: seq<Line>): Zipper {
    if c == 0x11 then
      if 0 < z.hist <= |h| then Zipper(h[z.hist - 1], [], z.hist - 1) else z
    else if c == 0x12 then
      if z.hist < |h| then Zipper(if z.hist + 1 == |h| then [] else h[z.hist + 1], [], z.hist + 1) else z
    else if c == 0x13 then
      if z.left == [] then z
      else Zipper(z.left[..|z.left| - 1], [z.left[|z.left| - 1]] + z.right, z.hist)
    else if c == 0x14 then Zipper(z.left + z.right, [], z.hist)
    else if c == 8 then
      if z.left == [] then z else Zipper(z.left[..|z.left| - 1], z.right, z.hist)
    else if c == 0x1B || c == 0x0C then z
    else if |z.left| + |z.right| < LINE_MAX - 1 then Zipper(z.left + [c], z.right, z.hist)
    else z
  }

  ghost predicate Fits(z: Zipper, h: seq<Line>) {
    |z.left| + |z.right| < LINE_MAX && z.hist <= |h|
  }

  ghost predicate HistoryFits(h: seq<Line>) {
    |h| <= HISTORY_SIZE && forall i :: 0 <= i < |h| ==> |h[i]| < LINE_MAX && NulFree(h[i])
  }

  lemma HistoryAddFits(h: seq<Line>, line: Line)
    requires HistoryFits(h) && |line| < LINE_MAX && NulFree(line)
    ensures HistoryFits(HistoryAdd(h, line))
  {
  }

  function Typed(z: Zipper, keys: seq<byte>, h: seq<Line>): Zipper
    decreases |keys|
  {
    if keys == [] then z else Typed(Key(z, keys[0], h), keys[1..], h)
  }

  /** However many keys are typed, the line fits the buffer and the history position is valid. */
  lemma {:induction false} TypedFits(z: Zipper, keys: seq<byte>, h: seq<Line>)
    requires Fits(z, h) && HistoryFits(h)
    ensures Fits(Typed(z, keys, h), h)
    decreases |keys|
  {
    if keys != [] {
      TypedFits(Key(z, keys[0], h), keys[1..], h);
    }
  }

  /** Typing a printable character and erasing it restores the line, if there was room for it. */
  lemma EraseUndoesInsert(z: Zipper, c: byte, h: seq<Line>)
    requires c != 0x11 && c != 0x12 && c != 0x13 && c != 0x14 && c != 8 && c != 0x1B && c != 0x0C
    requires |z.left| + |z.right| < LINE_MAX - 1
    ensures Key(Key(z, c, h), 8, h) == z
  {
    assert (z.left + [c])[..|z.left|] == z.left;
  }

  // ---------------------------------------------------------------- what the keys do to text and cursor

  /** The line as it reads, and how many characters are left of the cursor. */
  function TextOf(z: Zipper): Line { z.left + z.right }
  function Cursor(z: Zipper): nat { |z.left| }

  /** A key that stands for itself: no control key of the editor. */
  predicate Printable(c: byte) {
    c !in {8, 10, 0x0C, 0x11, 0x12, 0x13, 0x14, 0x1B}
  }

  /** A character is inserted at the cursor if the line has room, and else ignored. */
  lemma InsertionReads(z: Zipper, c: byte, h: seq<Line>)
    requires Printable(c)
    ensures var r, t, n := Key(z, c, h), TextOf(z), Cursor(z);
            && r.hist == z.hist
            && (|t| < 255 ==> TextOf(r) == t[..n] + [c] + t[n..] && Cursor(r) == n + 1)
            && (|t| >= 255 ==> r == z)
  {
    var t, n := TextOf(z), Cursor(z);
    assert t[..n] == z.left && t[n..] == z.right;
  }

  /** Backspace removes the character before the cursor; at the start of the line it does nothing. */
  lemma BackspaceReads(z: Zipper, h: seq<Line>)
    ensures var r, t, n := Key(z, 8, h), TextOf(z), Cursor(z);
            && r.hist == z.hist
            && (n > 0 ==> TextOf(r) == t[..n - 1] + t[n..] && Cursor(r) == n - 1)
            && (n == 0 ==> r == z)
  {
    var t, n := TextOf(z), Cursor(z);
    assert t[n..] == z.right;
    if n > 0 { assert t[..n - 1] == z.left[..n - 1]; }
  }

  /** The arrows keep the text: left goes back by one, right to the end.  Escape and redraw keep everything. */
  lemma ArrowsRead(z: Zipper, h: seq<Line>)
    ensures var l, r := Key(z, 0x13, h), Key(z, 0x14, h);
            && TextOf(l) == TextOf(z) == TextOf(r) && l.hist == z.hist == r.hist
            && Cursor(l) == (if Cursor(z) == 0 then 0 else Cursor(z) - 1) && Cursor(r) == |TextOf(z)|
    ensures Key(z, 0x1B, h) == z == Key(z, 0x0C, h)
  {
  }

  /** Typing characters returns them, as far as the line has room. */
  lemma {:induction false} TypingReturns(z: Zipper, keys: seq<byte>, h: seq<Line>)
    requires (forall c :: c in keys ==> Printable(c)) && |z.left| + |z.right| <= 255
    ensures var room := 255 - |z.left| - |z.right|;
            Typed(z, keys, h) ==
              Zipper(z.left + (if |keys| <= room then keys else keys[..room]), z.right, z.hist)
    decreases |keys|
  {
    if keys == [] {
      assert z.left + [] == z.left;
    } else {
      assert keys[0] in keys && forall c :: c in keys[1..] ==> c in keys;
      TypingReturns(Key(z, keys[0], h), keys[1..], h);
      var room := 255 - |z.left| - |z.right|;
      if room > 0 {
        assert z.left + [keys[0]] + keys[1..] == z.left + keys;
        if |keys| > room { assert z.left + [keys[0]] + keys[1..][..room - 1] == z.left + keys[..room]; }
      } else {
        assert z.left + keys[1..][..0] == z.left + keys[..0];
      }
    }
  }

  /** Pressing the up key n times from the fresh line shows the n-th last line, cursor behind it. */
  lemma {:induction false} UpRecalls(z: Zipper, h: seq<Line>, n: nat)
    requires z.hist == |h| && 0 < n <= |h|
    ensures Typed(z, seq(n, _ => 0x11), h) == Zipper(h[|h| - n], [], |h| - n)
  {
    UpFrom(z, h, n);
  }

  lemma {:induction false} UpFrom(z: Zipper, h: seq<Line>, n: nat)
    requires 0 < n <= z.hist <= |h|
    ensures Typed(z, seq(n, _ => 0x11), h) == Zipper(h[z.hist - n], [], z.hist - n)
    decreases n
  {
    var keys: seq<byte> := seq(n, _ => 0x11);
    var z' := Key(z, 0x11, h);
    assert keys[1..] == seq(n - 1, _ => 0x11);
    if n > 1 {
      UpFrom(z', h, n - 1);
    } else {
      assert keys[1..] == [];
    }
  }

  /** Up then down, and down then up, come back to the same recalled line. */
  lemma UpAndDown(h: seq<Line>, i: nat)
    requires i < |h|
    ensures var shown := Zipper(h[i], [], i);
            && (i > 0 ==> Key(shown, 0x11, h) == Zipper(h[i - 1], [], i - 1))
            && (i == 0 ==> Key(shown, 0x11, h) == shown)
            && (i > 0 ==> Key(Key(shown, 0x11, h), 0x12, h) == shown)
            && (i + 1 < |h| ==> Key(shown, 0x12, h) == Zipper(h[i + 1], [], i + 1))
            && Key(Key(shown, 0x12, h), 0x11, h) == shown
    // below the newest line there is an empty one
    ensures i + 1 == |h| ==> Key(Zipper(h[i], [], i), 0x12, h) == Zipper([], [], |h|)
    ensures forall z: Zipper :: z.hist == |h| ==> Key(z, 0x12, h) == z
  {
  }

  /** The cursor one character to the right, as a right arrow is meant to move it. */
  function OneRight(z: Zipper): Zipper {
    if z.right == [] then z else Zipper(z.left + [z.right[0]], z.right[1..], z.hist)
  }

  /**
   The right arrow moves by one exactly when at most one character is right of the cursor,
   and it undoes the left arrow exactly when the cursor was at the end.
   */
  lemma RightArrowIff(z: Zipper, h: seq<Line>)
    ensures Key(z, 0x14, h) == OneRight(z) <==> |z.right| <= 1
    ensures z.left != [] ==> (Key(Key(z, 0x13, h), 0x14, h) == z <==> z.right == [])
  {
    if |z.right| == 1 {
      assert z.right == [z.right[0]];
    }
    if z.left != [] {
      var back := Key(z, 0x13, h);
      assert back.left + back.right == z.left + z.right;
    }
  }

  /** With "ab" right of the cursor it jumps over both characters. */
  lemma RightArrowJumps()
    ensures Key(Zipper([], [97, 98], 0), 0x14, []) == Zipper([97, 98], [], 0) != OneRight(Zipper([], [97, 98], 0))
  {
  }

  // ---------------------------------------------------------------- read_line and history_add

  class Editor {
    const buf: array<byte>
    var pos: nat
    var len: nat
    var histIdx: nat
    const rows: array<byte>            // history: 16 rows of 256 bytes
    var historyCount: nat

    ghost function View(): Zipper
      requires pos <= len <= buf.Length
      reads this, buf
    {
      Zipper(buf[..pos], buf[pos..len], histIdx)
    }

    ghost function History(): seq<Line>
      requires Shaped(rows[..], LINE_MAX, HISTORY_SIZE) && historyCount <= HISTORY_SIZE
      reads this, rows
    {
      Texts(rows[..], LINE_MAX, HISTORY_SIZE, historyCount)
    }

    ghost predicate Valid()
      reads this, buf, rows
    {
      && buf.Length == LINE_MAX && pos <= len < LINE_MAX && buf != rows
      && Shaped(rows[..], LINE_MAX, HISTORY_SIZE) && histIdx <= historyCount <= HISTORY_SIZE
      && HistoryFits(History())
    }

    constructor ()
      ensures Valid() && History() == [] && fresh(buf) && fresh(rows)
    {
      buf := new byte[LINE_MAX](_ => 0);
      rows := new byte[Start(LINE_MAX, HISTORY_SIZE)](_ => 0);
      pos, len, histIdx, historyCount := 0, 0, 0, 0;
    }

    /** Put a line and its terminator at the front of the buffer. */
    method CopyLine(line: Line)
      requires buf.Length == LINE_MAX && |line| < LINE_MAX
      modifies buf
      ensures buf[..|line|] == line && buf[|line|] == 0
    {
      var i := 0;
      while i < |line|
        invariant 0 <= i <= |line| && buf[..i] == line[..i]
      {
        buf[i] := line[i];
        i := i + 1;
      }
      buf[i] := 0;
      assert buf[..i] == line[..i];
    }

    /** Move the characters from `from` up to `to` one place to the right, the last one first. */
    method ShiftRight(from: nat, to: nat)
      requires from <= to < buf.Length
      modifies buf
      ensures forall j :: 0 <= j <= from ==> buf[j] == old(buf[j])
      ensures forall j :: from < j <= to ==> buf[j] == old(buf[j - 1])
    {
      var i := to;
      while i > from
        invariant from <= i <= to
        invariant forall j :: 0 <= j <= i ==> buf[j] == old(buf[j])
        invariant forall j :: i < j <= to ==> buf[j] == old(buf[j - 1])
      {
        buf[i] := buf[i - 1];
        i := i - 1;
      }
    }

    /** Move the characters behind `from` one place to the left, the first one first. */
    method ShiftLeft(from: nat, to: nat)
      requires from < to <= buf.Length
      modifies buf
      ensures forall j :: 0 <= j < from ==> buf[j] == old(buf[j])
      ensures forall j :: from <= j < to - 1 ==> buf[j] == old(buf[j + 1])
    {
      var i := from;
      while i < to - 1
        invariant from <= i <= to - 1
        invariant forall j :: 0 <= j < from ==> buf[j] == old(buf[j])
        invariant forall j :: from <= j < i ==> buf[j] == old(buf[j + 1])
        invariant forall j :: i <= j < buf.Length ==> buf[j] == old(buf[j])
      {
        buf[i] := buf[i + 1];
        i := i + 1;
      }
    }

    /** Shift the tail right by one and put c at the cursor. */
    method Insert(c: byte)
      requires Valid() && len < LINE_MAX - 1
      modifies buf, this`pos, this`len
      ensures Valid() && View() == Zipper(old(View()).left + [c], old(View()).right, histIdx)
    {
      hide HistoryFits, Shaped, Texts;
      ghost var z := View();
      ShiftRight(pos, len);
      buf[pos] := c;
      assert buf[..pos] == z.left;
      assert buf[..pos + 1] == buf[..pos] + [c];
      assert buf[pos + 1..len + 1] == z.right;
      pos := pos + 1;
      len := len + 1;
    }

    /** Drop the character before the cursor and close the gap. */
    method Erase()
      requires Valid() && pos > 0
      modifies buf, this`pos, this`len
      ensures Valid()
      ensures View() == Zipper(old(View()).left[..|old(View()).left| - 1], old(View()).right, histIdx)
    {
      ghost var z := View();
      pos := pos - 1;
      ShiftLeft(pos, len);
      len := len - 1;
      assert buf[..pos] == z.left[..|z.left| - 1];
      assert buf[pos..len] == z.right;
    }

    /** One turn of read_line for any key but Enter. */
    method Press(c: byte)
      requires Valid() && c != 10
      modifies buf, this`pos, this`len, this`histIdx
      ensures Valid() && View() == Key(old(View()), c, History())
    {
      hide NulFree;
      if c == 0x1B {
        return;
      }
      if c == 0x11 {
        Older();
        return;
      }
      if c == 0x12 {
        Newer();
        return;
      }
      if c == 0x13 {
        if pos > 0 {
          ghost var z := View();
          pos := pos - 1;
          assert buf[..pos] == z.left[..|z.left| - 1];
          assert buf[pos..len] == [z.left[|z.left| - 1]] + z.right;
        }
        return;
      }
      if c == 0x14 {
        ghost var z := View();
        if pos < len {
          pos := len;
        }
        assert buf[..pos] == z.left + z.right && buf[pos..len] == [];
        return;
      }
      if c == 0x0C {
        return;
      }
      if c == 8 {
        if pos > 0 {
          Erase();
        }
        return;
      }
      if len < LINE_MAX - 1 {
        Insert(c);
      }
    }

    /** Copy a line of the history into the buffer and put the cursor behind it. */
    method Recall(i: nat)
      requires Valid() && i < historyCount
      modifies buf, this`pos, this`len
      ensures Valid() && View() == Zipper(History()[i], [], histIdx)
    {
      hide NulFree, Shaped;
      ghost var line := History()[i];
      var text := GetText(rows, LINE_MAX, HISTORY_SIZE, i, 0);
      assert text == line;
      CopyLine(text);
      len := Length(line);
      pos := len;
    }

    method Older()
      requires Valid()
      modifies buf, this`pos, this`len, this`histIdx
      ensures Valid() && View() == Key(old(View()), 0x11, History())
    {
      hide Shaped;
      if histIdx > 0 {
        histIdx := histIdx - 1;
        Recall(histIdx);
      }
    }

    /** The length of the line in the buffer, found by looking for its terminator. */
    method Length(ghost line: Line) returns (n: nat)
      requires buf.Length == LINE_MAX && |line| < LINE_MAX && NulFree(line)
      requires buf[..|line|] == line && buf[|line|] == 0
      ensures n == |line|
    {
      n := 0;
      while buf[n] != 0
        invariant 0 <= n <= |line|
        decreases LINE_MAX - n
      {
        n := n + 1;
      }
      assert forall j :: 0 <= j < |line| ==> buf[..|line|][j] == buf[j];
    }

    method Newer()
      requires Valid()
      modifies buf, this`pos, this`len, this`histIdx
      ensures Valid() && View() == Key(old(View()), 0x12, History())
    {
      hide Shaped;
      if histIdx < historyCount {
        histIdx := histIdx + 1;
        if histIdx == historyCount {
          buf[0] := 0;
          len, pos := 0, 0;
        } else {
          Recall(histIdx);
        }
      }
    }

    method AddToHistory(line: Line)
      requires Valid() && |line| < LINE_MAX && NulFree(line)
      modifies rows, this`historyCount
      ensures Shaped(rows[..], LINE_MAX, HISTORY_SIZE) && historyCount <= HISTORY_SIZE && HistoryFits(History())
      ensures historyCount >= old(historyCount) && History() == HistoryAdd(old(History()), line)
    {
      hide Shaped, NulFree, CStr;
      ghost var h := History();
      HistoryAddFits(h, line);
      if line == [] {
        return;
      }
      if historyCount > 0 {
        var last := GetText(rows, LINE_MAX, HISTORY_SIZE, historyCount - 1, 0);
        assert last == h[historyCount - 1];
        var c := Strcmp(last, line);
        CStrOfNulFree(line);
        CStrOfNulFree(last);
        if c == 0 {
          return;
        }
      }
      if historyCount < HISTORY_SIZE {
        Record(historyCount, line);
        historyCount := historyCount + 1;
      } else {
        Rotate();
        Record(HISTORY_SIZE - 1, line);
        assert History() == h[1..] + [line];
      }
    }

    /** Copy a line with its terminator over row i. */
    method Record(i: nat, line: Line)
      requires Shaped(rows[..], LINE_MAX, HISTORY_SIZE) && i < HISTORY_SIZE && historyCount <= HISTORY_SIZE
      requires |line| < LINE_MAX && NulFree(line)
      modifies rows
      ensures Shaped(rows[..], LINE_MAX, HISTORY_SIZE)
      ensures i < historyCount ==> History() == old(History())[i := line]
      ensures i == historyCount ==> Texts(rows[..], LINE_MAX, HISTORY_SIZE, i + 1) == old(History()) + [line]
    {
      hide Start, CStr, Row;
      ghost var before := rows[..];
      assert Row(before, LINE_MAX, HISTORY_SIZE, i)[..0] + line == line;
      PutText(rows, LINE_MAX, HISTORY_SIZE, i, 0, line);
      TextsUpdate(before, rows[..], LINE_MAX, HISTORY_SIZE, historyCount, i);
    }

    /** Drop the oldest line by moving every other line one row down. */
    method Rotate()
      requires Shaped(rows[..], LINE_MAX, HISTORY_SIZE) && historyCount == HISTORY_SIZE && HistoryFits(History())
      modifies rows
      ensures Shaped(rows[..], LINE_MAX, HISTORY_SIZE)
      ensures History()[..HISTORY_SIZE - 1] == old(History())[1..]
    {
      hide Shaped, NulFree, CStr, Row;
      ghost var h := History();
      var i := 0;
      while i < HISTORY_SIZE - 1
        invariant 0 <= i <= HISTORY_SIZE - 1 && Shaped(rows[..], LINE_MAX, HISTORY_SIZE)
        invariant forall j :: 0 <= j < i ==> History()[j] == h[j + 1]
        invariant forall j :: i <= j < HISTORY_SIZE ==> History()[j] == h[j]
      {
        ghost var now := History();
        assert now[i + 1] == h[i + 1];
        var line := GetText(rows, LINE_MAX, HISTORY_SIZE, i + 1, 0);
        assert line == h[i + 1];
        Record(i, line);
        i := i + 1;
      }
    }

    lemma TypedIsRead(keys: seq<byte>, h: seq<Line>)
      requires |keys| <= 255 && forall c :: c in keys ==> Printable(c) && c != 0
      ensures var z := Typed(Zipper([], [], |h|), keys, h); CStr(z.left + z.right) == keys
    {
      hide Typed, CStr, Printable;
      TypingReturns(Zipper([], [], |h|), keys, h);
      assert [] + keys + [] == keys && [] + keys == keys;
      assert NulFree(keys) by { assert forall i :: 0 <= i < |keys| ==> keys[i] in keys; }
      CStrOfNulFree(keys);
    }

    /** read_line for the keys typed before Enter. */
    method ReadLine(keys: seq<byte>) returns (line: Line)
      requires Valid() && 10 !in keys
      modifies this, buf, rows
      ensures Valid()
      ensures var z := Typed(Zipper([], [], |old(History())|), keys, old(History()));
              line == CStr(z.left + z.right)
      ensures History() == HistoryAdd(old(History()), line)
      // in particular, typed text comes back
      ensures |keys| <= 255 && (forall c :: c in keys ==> Printable(c) && c != 0) ==> line == keys
    {
      hide Key, HistoryAdd, NulFree;
      if |keys| <= 255 && forall c :: c in keys ==> Printable(c) && c != 0 {
        TypedIsRead(keys, History());
      }
      pos, len, histIdx := 0, 0, historyCount;
      ghost var h := History();
      assert View() == Zipper([], [], |h|);
      var i := 0;
      while i < |keys|
        invariant 0 <= i <= |keys| && Valid() && History() == h
        invariant Typed(Zipper([], [], |h|), keys, h) == Typed(View(), keys[i..], h)
      {
        assert keys[i..][0] == keys[i] && keys[i..][1..] == keys[i + 1..];
        Press(keys[i]);
        i := i + 1;
      }
      line := Finish();
    }

    /** The Enter branch: terminate the buffer and record the line. */
    method Finish() returns (line: Line)
      requires Valid()
      modifies this`historyCount, buf, rows
      ensures Valid() && line == CStr(old(View()).left + old(View()).right)
      ensures History() == HistoryAdd(old(History()), line)
    {
      assert View().left + View().right == buf[..len];
      line := CStr(buf[..len]);
      CStrLength(buf[..len]);
      buf[len] := 0;
      AddToHistory(line);
    }
  }
}
