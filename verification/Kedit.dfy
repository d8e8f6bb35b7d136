/** The text editor's row buffer: 100 rows of 128 cells in one array, changed in place by every key. */
module Kedit {
  import opened Bytes
  import VfsModel
  import opened KeditModel
  import opened KeditLaws

  const CELLS := 12800

  function At(row: nat, k: nat): nat { row * MAX_COLS + k }

  /** Row `row` holds line `t` with its terminating NUL. */
  ghost predicate Holds(s: seq<byte>, row: nat, t: Line)
    requires |s| == CELLS
  {
    && row < MAX_LINES && |t| < MAX_COLS && NUL !in t
    && s[At(row, 0)..At(row, |t|)] == t && s[At(row, |t|)] == NUL
  }

  /** Some cell of the row ends the line. */
  ghost predicate Terminated(s: seq<byte>, row: nat)
    requires |s| == CELLS && row < MAX_LINES
  {
    NUL in s[At(row, 0)..At(row, MAX_COLS)]
  }

  lemma HoldsAt(s: seq<byte>, row: nat, t: Line)
    requires |s| == CELLS && row < MAX_LINES && |t| < MAX_COLS && NUL !in t
    requires forall k: nat :: k < |t| ==> s[At(row, k)] == t[k]
    requires s[At(row, |t|)] == NUL
    ensures Holds(s, row, t)
  {
    forall k: nat | k < |t|
      ensures s[At(row, 0)..At(row, |t|)][k] == t[k]
    {
      assert At(row, k) == At(row, 0) + k;
    }
  }

  lemma CellOf(s: seq<byte>, row: nat, t: Line, k: nat)
    requires |s| == CELLS && Holds(s, row, t) && k <= |t|
    ensures s[At(row, k)] == if k < |t| then t[k] else NUL
  {
    assert k < |t| ==> s[At(row, 0)..At(row, |t|)][k] == s[At(row, k)];
  }

  ghost predicate SameRow(s: seq<byte>, s': seq<byte>, row: nat)
    requires |s| == CELLS == |s'| && row < MAX_LINES
  {
    s'[At(row, 0)..At(row, MAX_COLS)] == s[At(row, 0)..At(row, MAX_COLS)]
  }

  /** The same cells show the same line. */
  lemma HoldsKept(s: seq<byte>, s': seq<byte>, row: nat, t: Line)
    requires |s| == CELLS == |s'| && Holds(s, row, t) && SameRow(s, s', row)
    ensures Holds(s', row, t)
  {
    var a, b := s[At(row, 0)..At(row, MAX_COLS)], s'[At(row, 0)..At(row, MAX_COLS)];
    assert s[At(row, 0)..At(row, |t|)] == a[..|t|] && s'[At(row, 0)..At(row, |t|)] == b[..|t|];
    assert s[At(row, |t|)] == a[|t|] && s'[At(row, |t|)] == b[|t|];
  }

  ghost predicate ShowsLines(s: seq<byte>, lines: seq<Line>)
    requires |s| == CELLS
  {
    |lines| <= MAX_LINES && forall r: nat :: r < |lines| ==> Holds(s, r, lines[r])
  }

  class Editor {
    const cells: array<byte>
    var numLines: int
    var x: int
    var y: int
    var scroll: int
    var dirty: bool
    ghost var lines: seq<Line>

    ghost predicate Shows()
      reads this, cells
    {
      && cells.Length == CELLS && numLines == |lines| && LinesOk(lines)
      && ShowsLines(cells[..], lines) && CursorOk(State())
    }

    ghost function State(): Ed
      reads this
    {
      Ed(lines, x, y, scroll, dirty)
    }

    ghost predicate Valid()
      reads this, cells
    {
      Shows() && EdOk(State())
    }

    /** The memset at the start of launch_kedit: one empty line. */
    constructor ()
      ensures Valid() && fresh(cells) && State() == Ed([[]], 0, 0, 0, false)
      ensures forall k :: 0 <= k < CELLS ==> cells[k] == NUL
    {
      cells := new byte[CELLS](_ => 0);
      numLines, x, y, scroll, dirty := 1, 0, 0, 0, false;
      lines := [[]];
      new;
      HoldsAt(cells[..], 0, []);
    }

    /** strlen of a row. */
    method Length(row: nat, ghost l: Line) returns (n: nat)
      requires cells.Length == CELLS && Holds(cells[..], row, l)
      ensures n == |l|
    {
      n := 0;
      CellOf(cells[..], row, l, n);
      while cells[At(row, n)] != NUL
        invariant n <= |l| && cells[At(row, n)] == if n < |l| then l[n] else NUL
        decreases |l| - n
      {
        n := n + 1;
        CellOf(cells[..], row, l, n);
      }
    }

    /** The string that starts in a row at column `from`. */
    method CopyOut(row: nat, from: nat, ghost l: Line) returns (t: Line)
      requires cells.Length == CELLS && Holds(cells[..], row, l) && from <= |l|
      ensures t == l[from..]
    {
      t := [];
      CellOf(cells[..], row, l, from);
      while cells[At(row, from + |t|)] != NUL
        invariant from + |t| <= |l| && t == l[from..from + |t|]
        invariant cells[At(row, from + |t|)] == if from + |t| < |l| then l[from + |t|] else NUL
        decreases |l| - |t|
      {
        t := t + [cells[At(row, from + |t|)]];
        CellOf(cells[..], row, l, from + |t|);
      }
    }

    /** strcpy to a row. */
    method CopyIn(row: nat, t: Line)
      requires cells.Length == CELLS && row < MAX_LINES && |t| < MAX_COLS && NUL !in t
      modifies cells
      ensures Holds(cells[..], row, t)
      ensures forall r: nat :: r < MAX_LINES && r != row ==> SameRow(old(cells[..]), cells[..], r)
    {
      for i := 0 to |t|
        invariant forall k: nat :: k < i ==> cells[At(row, k)] == t[k]
        invariant forall k: nat :: k < CELLS && !(At(row, 0) <= k < At(row, i)) ==> cells[k] == old(cells[k])
      {
        cells[At(row, i)] := t[i];
      }
      cells[At(row, |t|)] := NUL;
      HoldsAt(cells[..], row, t);
    }
  
    /** The arrow keys, by the third byte of their escape sequence. */
    method Arrow(third: byte)
      requires Shows() && 65 <= third <= 68
      modifies this`x, this`y
      ensures Shows() && State() == Edit(old(State()), KeyOf(27, 91, third))
    {
      if third == 65 && y > 0 {
        y := y - 1;
      } else if third == 66 && y < numLines - 1 {
        y := y + 1;
      } else if third == 67 {
        var n := Length(y, lines[y]);
        if x < n {
          x := x + 1;
        }
      } else if third == 68 && x > 0 {
        x := x - 1;
      }
      if third == 65 || third == 66 {
        ClampCursor();
      }
    }

    /** After a move to another row the cursor is not behind the end of its line. */
    method ClampCursor()
      requires cells.Length == CELLS && ShowsLines(cells[..], lines) && 0 <= y < |lines| && 0 <= x
      modifies this`x
      ensures x == Min(old(x), |lines[y]|)
    {
      var n := Length(y, lines[y]);
      if x > n {
        x := n;
      }
    }

    /** Backspace: the rest of the row moves one cell to the left. */
    method Erase()
      requires Shows()
      modifies this`x, this`dirty, this`lines, cells
      ensures Shows() && State() == Edit(old(State()), Backspace)
    {
      if x > 0 {
        ghost var before, e := cells[..], State();
        RemoveCell(y, x, lines[y]);
        ErasedLines(before, cells[..], e);
        lines := Edit(e, Backspace).lines;
        x := x - 1;
        dirty := true;
      }
    }

    /** Closes the gap left by the cell before column `k`. */
    method RemoveCell(row: nat, k: nat, ghost l: Line)
      requires cells.Length == CELLS && Holds(cells[..], row, l) && 0 < k <= |l|
      modifies cells
      ensures Holds(cells[..], row, l[..k - 1] + l[k..])
      ensures forall j: nat :: j < CELLS && !(At(row, 0) <= j < At(row, MAX_COLS)) ==> cells[j] == old(cells[j])
    {
      var n := Length(row, l);
      ShiftLeft(row, k - 1, n);
      ErasedRow(old(cells[..]), cells[..], row, l, k);
    }

    /** The shifting loop of backspace. */
    method ShiftLeft(row: nat, from: nat, n: nat)
      requires cells.Length == CELLS && row < MAX_LINES && from <= n < MAX_COLS
      modifies cells
      ensures forall k: nat :: from <= k < n ==> cells[At(row, k)] == old(cells[At(row, k) + 1])
      ensures forall k: nat :: k < CELLS && !(At(row, from) <= k < At(row, n)) ==> cells[k] == old(cells[k])
    {
      for i := from to n
        invariant forall k: nat :: from <= k < i ==> cells[At(row, k)] == old(cells[At(row, k) + 1])
        invariant forall k: nat :: k < CELLS && !(At(row, from) <= k < At(row, i)) ==> cells[k] == old(cells[k])
      {
        cells[At(row, i)] := cells[At(row, i) + 1];
      }
    }

    /**
     * A printable key: the rest of the row moves one cell to the right, its NUL included. On a line of 127
     * characters the NUL lands in the next row, whose line is lost; behind the last row it lands in
     * the low byte of the line count.
     */
    method TypeChar(c: byte)
      requires Shows() && 32 <= c <= 126
      modifies this`x, this`dirty, this`lines, this`numLines, cells
      ensures old(HasRoom(State(), Char(c))) ==> Shows() && State() == Edit(old(State()), Char(c))
      ensures !old(HasRoom(State(), Char(c))) ==>
        && !Terminated(cells[..], y)
        && if y + 1 < MAX_LINES then cells[At(y + 1, 0)] == NUL else numLines == 0
    {
      if x < MAX_COLS - 1 {
        ghost var before, e := cells[..], State();
        InsertCell(y, x, c, lines[y]);
        if |e.lines[e.y]| < MAX_COLS - 1 {
          TypedLines(before, cells[..], e, c);
          lines := Edit(e, Char(c)).lines;
        }
        x := x + 1;
        dirty := true;
      }
    }

    /** Makes room in the row and stores the character. */
    method InsertCell(row: nat, k: nat, c: byte, ghost l: Line)
      requires cells.Length == CELLS && Holds(cells[..], row, l) && k <= |l| && k < MAX_COLS - 1 && c != NUL
      requires 0 <= numLines < 256
      modifies this`numLines, cells
      ensures |l| < MAX_COLS - 1 ==> numLines == old(numLines) && Holds(cells[..], row, Insert(l, k, c))
      ensures |l| < MAX_COLS - 1 ==>
        forall j: nat :: j < CELLS && !(At(row, 0) <= j < At(row, MAX_COLS)) ==> cells[j] == old(cells[j])
      ensures |l| == MAX_COLS - 1 ==> !Terminated(cells[..], row)
      ensures |l| == MAX_COLS - 1 ==> if row + 1 < MAX_LINES then cells[At(row + 1, 0)] == NUL else numLines == 0
    {
      ghost var before := cells[..];
      var n := Length(row, l);
      CellOf(before, row, l, n);
      ShiftRight(row, k, n);
      cells[At(row, k)] := c;
      TypedRow(before, cells[..], row, l, k, c);
    }

    /** The shifting loop of a printable key. */
    method ShiftRight(row: nat, from: nat, n: nat)
      requires cells.Length == CELLS && row < MAX_LINES && from <= n < MAX_COLS && cells[At(row, n)] == NUL
      requires 0 <= numLines < 256
      modifies this`numLines, cells
      ensures forall k: nat :: from <= k <= n && At(row, k) + 1 < CELLS ==>
        cells[At(row, k) + 1] == old(cells[At(row, k)])
      ensures forall k: nat :: k < CELLS && !(At(row, from) < k <= At(row, n) + 1) ==> cells[k] == old(cells[k])
      ensures numLines == if At(row, n) + 1 < CELLS then old(numLines) else 0
    {
      var i: int := n;
      while i >= from
        invariant from - 1 <= i <= n
        invariant forall k: nat :: i < k <= n && At(row, k) + 1 < CELLS ==>
          cells[At(row, k) + 1] == old(cells[At(row, k)])
        invariant forall k: nat :: k < CELLS && !(At(row, 0) + i + 1 < k <= At(row, n) + 1) ==>
          cells[k] == old(cells[k])
        invariant numLines == if i < n && At(row, n) + 1 == CELLS then 0 else old(numLines)
      {
        Poke(At(row, i) + 1, cells[At(row, i)]);
        i := i - 1;
      }
    }

    /** A store to `E.lines`; the byte behind the last row is the low byte of `num_lines`. */
    method Poke(k: nat, c: byte)
      requires cells.Length == CELLS && k <= CELLS && 0 <= numLines
      modifies this`numLines, cells
      ensures k < CELLS ==> cells[..] == old(cells[..])[k := c] && numLines == old(numLines)
      ensures k == CELLS ==> cells[..] == old(cells[..]) && numLines == old(numLines) - old(numLines) % 256 + c as int
    {
      if k < CELLS {
        cells[k] := c;
      } else {
        numLines := numLines - numLines % 256 + c as int;
      }
    }
  
    /** The return key: the rows below move down, and the row breaks at the cursor. */
    method BreakLine()
      requires Shows()
      modifies this`x, this`y, this`dirty, this`lines, this`numLines, cells
      ensures Shows() && State() == Edit(old(State()), Enter)
    {
      if numLines < MAX_LINES {
        ghost var e := State();
        EditLinesOk(e, Enter);
        SplitRow(y, x, e);
        lines := Edit(e, Enter).lines;
        y := y + 1;
        x := 0;
        numLines := numLines + 1;
        dirty := true;
      }
    }

    /** Moves the rows below down and the text behind the cursor to the row between. */
    method SplitRow(row: nat, k: nat, ghost e: Ed)
      requires cells.Length == CELLS && numLines == |lines| < MAX_LINES && ShowsLines(cells[..], lines)
      requires CursorOk(e) && e.lines == lines && e.y == row && e.x == k
      modifies cells
      ensures ShowsLines(cells[..], Edit(e, Enter).lines)
    {
      ShiftRows(row);
      var temp := CopyOut(row, k, lines[row]);
      ghost var shifted := cells[..];
      CutAtCursor(row, k, lines[row]);
      ghost var cut := cells[..];
      CopyIn(row + 1, temp);
      BrokenRows(shifted, cut, cells[..], e);
    }

    /** The current line ends at the cursor. */
    method CutAtCursor(row: nat, k: nat, ghost l: Line)
      requires cells.Length == CELLS && Holds(cells[..], row, l) && k <= |l|
      modifies cells
      ensures Holds(cells[..], row, l[..k])
      ensures forall r: nat :: r < MAX_LINES && r != row ==> SameRow(old(cells[..]), cells[..], r)
    {
      cells[At(row, k)] := NUL;
      CutRow(old(cells[..]), cells[..], row, l, k);
    }

    /** The loop of the return key. */
    method ShiftRows(row: nat)
      requires cells.Length == CELLS && numLines == |lines| < MAX_LINES && ShowsLines(cells[..], lines) && row < |lines|
      modifies cells
      ensures RowsShifted(cells[..], lines, row)
    {
      var i := numLines;
      while i > row
        invariant row <= i <= |lines|
        invariant RowsShifted(cells[..], lines, i)
      {
        ghost var before := cells[..];
        var t := CopyOut(i - 1, 0, lines[i - 1]);
        CopyIn(i, t);
        OneMoreShifted(before, cells[..], lines, i);
        i := i - 1;
      }
    }

    /** The end of every key: the cursor's row scrolls into the 20 visible ones. */
    method KeepVisible()
      modifies this`scroll
      ensures State() == Scroll(old(State()))
    {
      if y < scroll {
        scroll := y;
      } else if y >= scroll + VISIBLE {
        scroll := y - (VISIBLE - 1);
      }
    }

    /** One round of the key loop, but for saving and leaving. */
    method HandleKey(c: byte, second: byte, third: byte)
      requires Valid()
      modifies this, cells
      ensures old(OnFullLine(c, State())) ==> y == old(y) && 0 <= y < MAX_LINES && !Terminated(cells[..], y)
      ensures !old(OnFullLine(c, State())) ==>
        Valid() && Keyed(c, second, third, old(State()), State()) && Scrolled(old(State()), State())
      ensures old(HasRoom(State(), KeyOf(c, second, third))) ==>
        Valid() && State() == Press(old(State()), KeyOf(c, second, third))
    {
      hide Keyed, Scrolled, KeditModel.Joined, Terminated, OnFullLine, ShowsLines, LinesOk;
      ghost var e := State();
      FullLine(c, second, third, e);
      if HasRoom(e, KeyOf(c, second, third)) {
        PressKeeps(e, KeyOf(c, second, third));
        PressKeys(c, second, third, e);
      }
      if c == 27 {
        if second == 91 && 65 <= third <= 68 {
          Arrow(third);
        }
      } else if c == 8 || c == 127 {
        Erase();
      } else if c == 13 || c == 10 {
        BreakLine();
      } else if 32 <= c <= 126 {
        TypeChar(c);
      }
      KeepVisible();
    }

    /** kedit_save: the text handed to the file system. */
    method Save() returns (text: seq<byte>)
      requires Valid()
      modifies this`dirty
      ensures Valid() && text == Saved(lines) && State() == old(State()).(dirty := false)
      ensures HoldsWhileRoom(text, lines)
    {
      hide HoldsWhileRoom, Joined, LineOk;
      text := [];
      for i := 0 to numLines
        invariant text == Saved(lines[..i])
      {
        var n := Length(i, lines[i]);
        SavedStep(lines, i);
        if |text| + n + 1 < VfsModel.MAX_FILE_SIZE {
          var l := CopyOut(i, 0, lines[i]);
          text := text + l + [NL];
        }
      }
      assert lines[..numLines] == lines;
      SavedHolds(lines);
      dirty := false;
    }

    /** The load loop of launch_kedit, on the cleared buffer. */
    method Load(data: seq<byte>)
      requires Valid() && State() == Ed([[]], 0, 0, 0, false) && forall k :: 0 <= k < CELLS ==> cells[k] == NUL
      modifies this`numLines, this`lines, cells
      ensures Valid() && State() == Ed(Loaded(data), 0, 0, 0, false)
    {
      var line, col := 0, 0;
      var i := 0;
      while i < |data|
        invariant 0 <= i <= |data| && line < MAX_LINES && LoadedSoFar(cells[..], data[..i], line, col)
      {
        ghost var before := cells[..];
        assert data[..i + 1][..i] == data[..i];
        if data[i] == NL {
          cells[At(line, col)] := NUL;
          LineDone(before, data[..i + 1], line, col);
          assert cells[..] == before;
          line := line + 1;
          col := 0;
          i := i + 1;
          if line >= MAX_LINES {
            break;
          }
        } else {
          if col < MAX_COLS - 1 {
            cells[At(line, col)] := data[i];
            col := col + 1;
          }
          ByteDone(before, cells[..], data[..i + 1], line, col);
          i := i + 1;
        }
      }
      numLines := if line == 0 then 1 else line;
      lines := Loaded(data);
      LoadDone(cells[..], data, i, line, col);
      LoadedOk(data);
    }
  }

  /** Erasing before column `x` takes that character out of the line. */
  lemma ErasedRow(s: seq<byte>, s': seq<byte>, row: nat, l: Line, x: nat)
    requires |s| == CELLS == |s'| && Holds(s, row, l) && 0 < x <= |l|
    requires forall k: nat :: x - 1 <= k < |l| ==> s'[At(row, k)] == s[At(row, k) + 1]
    requires forall k: nat :: k < CELLS && !(At(row, x - 1) <= k < At(row, |l|)) ==> s'[k] == s[k]
    ensures Holds(s', row, l[..x - 1] + l[x..])
  {
    var t := l[..x - 1] + l[x..];
    forall k: nat | k <= |t|
      ensures s'[At(row, k)] == if k < |t| then t[k] else NUL
    {
      CellOf(s, row, l, k);
      CellOf(s, row, l, k + 1);
    }
    HoldsAt(s', row, t);
  }

  /**
    Shifting the line right and storing `c` inserts it; the line still ends in its row exactly if it was shorter than
    127.
   */
  lemma TypedRow(s: seq<byte>, s': seq<byte>, row: nat, l: Line, x: nat, c: byte)
    requires |s| == CELLS == |s'| && Holds(s, row, l) && x <= |l| && x < MAX_COLS - 1 && c != NUL
    requires forall k: nat :: x <= k <= |l| && At(row, k) + 1 < CELLS ==> s'[At(row, k) + 1] == s[At(row, k)]
    requires s'[At(row, x)] == c
    requires forall k: nat :: k < x ==> s'[At(row, k)] == s[At(row, k)]
    ensures |l| < MAX_COLS - 1 ==> Holds(s', row, Insert(l, x, c))
    ensures Terminated(s', row) <==> |l| < MAX_COLS - 1
  {
    var t := Insert(l, x, c);
    forall k: nat | k <= |t| && k < MAX_COLS
      ensures s'[At(row, k)] == if k < |t| then t[k] else NUL
    {
      if k > x {
        CellOf(s, row, l, k - 1);
        assert At(row, k - 1) + 1 == At(row, k);
      } else if k < x {
        CellOf(s, row, l, k);
      }
    }
    if |l| < MAX_COLS - 1 {
      HoldsAt(s', row, t);
      assert s'[At(row, 0)..At(row, MAX_COLS)][|t|] == s'[At(row, |t|)] == NUL;
    } else {
      forall k: nat | k < MAX_COLS
        ensures s'[At(row, 0)..At(row, MAX_COLS)][k] != NUL
      {
        assert s'[At(row, 0)..At(row, MAX_COLS)][k] == s'[At(row, k)];
      }
    }
  }

  lemma ErasedLines(s: seq<byte>, s': seq<byte>, e: Ed)
    requires |s| == CELLS == |s'| && CursorOk(e) && LinesOk(e.lines) && ShowsLines(s, e.lines) && e.x > 0
    requires Holds(s', e.y, e.lines[e.y][..e.x - 1] + e.lines[e.y][e.x..])
    requires forall k: nat :: k < CELLS && !(At(e.y, 0) <= k < At(e.y, MAX_COLS)) ==> s'[k] == s[k]
    ensures (var e' := Edit(e, Backspace); LinesOk(e'.lines) && CursorOk(e') && ShowsLines(s', e'.lines))
  {
    EditLinesOk(e, Backspace);
    OtherRows(s, s', e.lines, Edit(e, Backspace).lines, e.y);
  }

  lemma TypedLines(s: seq<byte>, s': seq<byte>, e: Ed, c: byte)
    requires |s| == CELLS == |s'| && CursorOk(e) && LinesOk(e.lines) && ShowsLines(s, e.lines) && 32 <= c <= 126
    requires |e.lines[e.y]| < MAX_COLS - 1 && Holds(s', e.y, Insert(e.lines[e.y], e.x, c))
    requires forall k: nat :: k < CELLS && !(At(e.y, 0) <= k < At(e.y, MAX_COLS)) ==> s'[k] == s[k]
    ensures (var e' := Edit(e, Char(c)); LinesOk(e'.lines) && CursorOk(e') && ShowsLines(s', e'.lines))
  {
    EditLinesOk(e, Char(c));
    OtherRows(s, s', e.lines, Edit(e, Char(c)).lines, e.y);
  }

  /** A change inside one row leaves the lines of the others. */
  lemma OtherRows(s: seq<byte>, s': seq<byte>, lines: seq<Line>, lines': seq<Line>, row: nat)
    requires |s| == CELLS == |s'| && ShowsLines(s, lines) && row < |lines| == |lines'|
    requires Holds(s', row, lines'[row]) && lines' == lines[row := lines'[row]]
    requires forall k: nat :: k < CELLS && !(At(row, 0) <= k < At(row, MAX_COLS)) ==> s'[k] == s[k]
    ensures ShowsLines(s', lines')
  {
    forall r: nat | r < |lines|
      ensures Holds(s', r, lines'[r])
    {
      if r != row {
        assert SameRow(s, s', r);
        HoldsKept(s, s', r, lines[r]);
      }
    }
  }

  // ---------- the return key ----------

  /** Rows up to `i` hold their lines, rows behind it hold the line of the row before. */
  ghost predicate RowsShifted(s: seq<byte>, lines: seq<Line>, i: nat)
    requires |s| == CELLS
  {
    && |lines| < MAX_LINES
    && (forall r: nat :: r <= i && r < |lines| ==> Holds(s, r, lines[r]))
    && forall r: nat :: i <= r < |lines| ==> Holds(s, r + 1, lines[r])
  }

  lemma OneMoreShifted(s: seq<byte>, s': seq<byte>, lines: seq<Line>, i: nat)
    requires |s| == CELLS == |s'| && 0 < i <= |lines| && RowsShifted(s, lines, i) && Holds(s', i, lines[i - 1])
    requires forall r: nat :: r < MAX_LINES && r != i ==> SameRow(s, s', r)
    ensures RowsShifted(s', lines, i - 1)
  {
    forall r: nat | r < i
      ensures Holds(s', r, lines[r])
    {
      HoldsKept(s, s', r, lines[r]);
    }
    forall r: nat | i <= r < |lines|
      ensures Holds(s', r + 1, lines[r])
    {
      HoldsKept(s, s', r + 1, lines[r]);
    }
  }

  /** A NUL in the middle of a row ends its line there and changes no other row. */
  lemma CutRow(s: seq<byte>, s': seq<byte>, row: nat, l: Line, x: nat)
    requires |s| == CELLS && Holds(s, row, l) && x <= |l| && s' == s[At(row, x) := NUL]
    ensures Holds(s', row, l[..x])
    ensures forall r: nat :: r < MAX_LINES && r != row ==> SameRow(s, s', r)
  {
    forall k: nat | k <= x
      ensures s'[At(row, k)] == if k < x then l[k] else NUL
    {
      CellOf(s, row, l, k);
    }
    HoldsAt(s', row, l[..x]);
  }

  lemma BrokenRows(s: seq<byte>, cut: seq<byte>, s': seq<byte>, e: Ed)
    requires |s| == |cut| == |s'| == CELLS && CursorOk(e) && RowsShifted(s, e.lines, e.y)
    requires Holds(cut, e.y, e.lines[e.y][..e.x])
    requires forall r: nat :: r < MAX_LINES && r != e.y ==> SameRow(s, cut, r)
    requires Holds(s', e.y + 1, e.lines[e.y][e.x..])
    requires forall r: nat :: r < MAX_LINES && r != e.y + 1 ==> SameRow(cut, s', r)
    ensures ShowsLines(s', Edit(e, Enter).lines)
  {
    var lines, lines', y := e.lines, Edit(e, Enter).lines, e.y;
    forall r: nat | r < |lines'|
      ensures Holds(s', r, lines'[r])
    {
      if r == y {
        HoldsKept(cut, s', r, lines'[r]);
      } else if r != y + 1 {
        assert lines'[r] == if r < y then lines[r] else lines[r - 1];
        HoldsKept(s, cut, r, lines'[r]);
        HoldsKept(cut, s', r, lines'[r]);
      }
    }
  }

  // ---------- loading ----------

  /** After the bytes `seen`: finished rows hold their lines, the open row its bytes, the rest is clear. */
  ghost predicate LoadedSoFar(s: seq<byte>, seen: seq<byte>, line: nat, col: nat)
    requires |s| == CELLS
  {
    var (lines, rest) := Scan(seen);
    && line == |lines| <= MAX_LINES && col == Min(|rest|, MAX_COLS - 1)
    && (forall r: nat :: r < |lines| ==> Holds(s, r, Cut(lines[r])))
    && (line < MAX_LINES ==> forall k: nat :: k < col ==> s[At(line, k)] == rest[k])
    && (line == MAX_LINES ==> rest == [])
    && forall k: nat :: At(line, col) <= k < CELLS ==> s[k] == NUL
  }

  lemma OpenRow(s: seq<byte>, row: nat, rest: Line)
    requires |s| == CELLS && row < MAX_LINES
    requires forall k: nat :: k < Min(|rest|, MAX_COLS - 1) ==> s[At(row, k)] == rest[k]
    requires s[At(row, Min(|rest|, MAX_COLS - 1))] == NUL
    ensures Holds(s, row, Cut(rest))
  {
    HoldsAt(s, row, Cut(rest));
  }

  lemma LineDone(s: seq<byte>, seen: seq<byte>, line: nat, col: nat)
    requires |s| == CELLS && seen != [] && seen[|seen| - 1] == NL && line < MAX_LINES
    requires LoadedSoFar(s, seen[..|seen| - 1], line, col)
    ensures s[At(line, col)] == NUL && LoadedSoFar(s, seen, line + 1, 0)
  {
    var (lines, rest) := Scan(seen[..|seen| - 1]);
    OpenRow(s, line, rest);
  }

  lemma ByteDone(s: seq<byte>, s': seq<byte>, seen: seq<byte>, line: nat, col: nat)
    requires |s| == CELLS == |s'| && seen != [] && seen[|seen| - 1] != NL && line < MAX_LINES
    requires (var (lines, rest) := Scan(seen[..|seen| - 1]);
      if |rest| < MAX_COLS - 1 then
        && col == |rest| + 1 && LoadedSoFar(s, seen[..|seen| - 1], line, |rest|)
        && s' == s[At(line, |rest|) := seen[|seen| - 1]]
      else col == MAX_COLS - 1 && LoadedSoFar(s, seen[..|seen| - 1], line, col) && s' == s)
    ensures LoadedSoFar(s', seen, line, col)
  {
    var (lines, rest) := Scan(seen[..|seen| - 1]);
    forall r: nat | r < |lines|
      ensures Holds(s', r, Cut(lines[r]))
    {
      assert SameRow(s, s', r);
      HoldsKept(s, s', r, Cut(lines[r]));
    }
  }

  lemma {:induction false} ScanPrefix(text: seq<byte>, i: nat)
    requires i <= |text|
    ensures Scan(text[..i]).0 <= Scan(text).0
  {
    if i < |text| {
      ScanPrefix(text[..|text| - 1], i);
      assert text[..|text| - 1][..i] == text[..i];
    } else {
      assert text[..i] == text;
    }
  }

  lemma LoadDone(s: seq<byte>, data: seq<byte>, i: nat, line: nat, col: nat)
    requires |s| == CELLS && i <= |data| && LoadedSoFar(s, data[..i], line, col) && (i < |data| ==> line == MAX_LINES)
    ensures ShowsLines(s, Loaded(data)) && |Loaded(data)| == if line == 0 then 1 else line
  {
    ScanPrefix(data, i);
    assert i == |data| ==> data[..i] == data;
    var (lines, rest) := Scan(data);
    if lines == [] {
      OpenRow(s, 0, rest);
    } else {
      assert forall r: nat :: r < line ==> Loaded(data)[r] == Cut(lines[r]);
    }
  }
}
