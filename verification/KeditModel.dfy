/** The text editor as a list of lines with a cursor, and what it saves and loads. */
module KeditModel {
  import opened Bytes
  import VfsModel

  const MAX_LINES := 100
  const MAX_COLS := 128
  const VISIBLE := 20
  const NUL: byte := 0
  const NL: byte := 10

  type Line = seq<byte>

  datatype Ed = Ed(lines: seq<Line>, x: int, y: int, scroll: int, dirty: bool)

  datatype Key = Up | Down | Right | Left | Backspace | Enter | Char(c: byte) | Other

  /** A line that fits its row together with the terminating NUL. */
  predicate LineOk(l: Line) {
    |l| < MAX_COLS && NUL !in l && NL !in l
  }

  predicate LinesOk(lines: seq<Line>) {
    forall i :: 0 <= i < |lines| ==> LineOk(lines[i])
  }

  predicate CursorOk(e: Ed) {
    0 <= e.y < |e.lines| && 0 <= e.x <= |e.lines[e.y]|
  }

  /** The cursor stands in the text and on one of the 20 visible rows. */
  predicate EdOk(e: Ed) {
    1 <= |e.lines| <= MAX_LINES && LinesOk(e.lines) && CursorOk(e) && 0 <= e.scroll <= e.y < e.scroll + VISIBLE
  }

  // ---------- keys ----------

  /** What the bytes read from the terminal mean; the last two matter after an escape only. */
  function KeyOf(c: byte, second: byte, third: byte): Key {
    if c == 27 then
      if second != 91 then Other
      else if third == 65 then Up
      else if third == 66 then Down
      else if third == 67 then Right
      else if third == 68 then Left
      else Other
    else if c == 8 || c == 127 then Backspace
    else if c == 13 || c == 10 then Enter
    else if 32 <= c <= 126 then Char(c)
    else Other
  }

  predicate Printable(key: Key) {
    key.Char? ==> 32 <= key.c <= 126
  }

  /** Moving to a shorter line puts the cursor at its end. */
  function ToRow(e: Ed, y: int): Ed
    requires 0 <= y < |e.lines|
  {
    e.(y := y, x := Min(e.x, |e.lines[y]|))
  }

  function Insert(l: Line, x: nat, c: byte): Line
    requires x <= |l|
  {
    l[..x] + [c] + l[x..]
  }

  function Edit(e: Ed, key: Key): Ed
    requires CursorOk(e)
  {
    var l := e.lines[e.y];
    match key
    case Up => ToRow(e, if e.y > 0 then e.y - 1 else e.y)
    case Down => ToRow(e, if e.y < |e.lines| - 1 then e.y + 1 else e.y)
    case Right => if e.x < |l| then e.(x := e.x + 1) else e
    case Left => if e.x > 0 then e.(x := e.x - 1) else e
    case Backspace =>
      if e.x > 0 then e.(lines := e.lines[e.y := l[..e.x - 1] + l[e.x..]], x := e.x - 1, dirty := true) else e
    case Enter =>
      if |e.lines| < MAX_LINES then
        e.(lines := e.lines[..e.y] + [l[..e.x], l[e.x..]] + e.lines[e.y + 1..], y := e.y + 1, x := 0, dirty := true)
      else e
    case Char(c) =>
      if e.x < MAX_COLS - 1 then e.(lines := e.lines[e.y := Insert(l, e.x, c)], x := e.x + 1, dirty := true) else e
    case Other => e
  }

  function Scroll(e: Ed): Ed {
    if e.y < e.scroll then e.(scroll := e.y)
    else if e.y >= e.scroll + VISIBLE then e.(scroll := e.y - (VISIBLE - 1))
    else e
  }

  function Press(e: Ed, key: Key): Ed
    requires CursorOk(e)
  {
    Scroll(Edit(e, key))
  }

  /** The keys the row buffer has room for: a line of 127 characters takes no more. */
  predicate HasRoom(e: Ed, key: Key)
    requires CursorOk(e)
  {
    key.Char? && e.x < MAX_COLS - 1 ==> |e.lines[e.y]| < MAX_COLS - 1
  }

  lemma EditLinesOk(e: Ed, key: Key)
    requires CursorOk(e) && LinesOk(e.lines) && Printable(key) && HasRoom(e, key)
    ensures LinesOk(Edit(e, key).lines) && CursorOk(Edit(e, key))
  {
    var e' := Edit(e, key);
    forall i | 0 <= i < |e'.lines|
      ensures LineOk(e'.lines[i])
    {
      if key.Enter? && i > e.y + 1 && |e.lines| < MAX_LINES {
        assert e'.lines[i] == e.lines[i - 1];
      }
    }
  }

  /** Every key keeps the cursor, line and scroll bounds. */
  lemma PressKeeps(e: Ed, key: Key)
    requires EdOk(e) && Printable(key) && HasRoom(e, key)
    ensures EdOk(Press(e, key))
  {
    EditLinesOk(e, key);
  }

  /** The room is needed: without it the line no longer fits its row. */
  lemma NoRoomOverflows(e: Ed, key: Key)
    requires EdOk(e) && Printable(key)
    ensures EdOk(Press(e, key)) <==> HasRoom(e, key)
  {
    if HasRoom(e, key) {
      PressKeeps(e, key);
    } else {
      assert !LineOk(Press(e, key).lines[e.y]);
    }
  }

  // ---------- the text as one sequence of bytes ----------

  /** Every line followed by a newline. */
  function Joined(lines: seq<Line>): (text: seq<byte>)
  {
    if lines == [] then [] else Joined(lines[..|lines| - 1]) + lines[|lines| - 1] + [NL]
  }

  lemma JoinedMore(a: seq<Line>, l: Line)
    ensures Joined([]) == [] && Joined(a + [l]) == Joined(a) + l + [NL]
  {
    assert (a + [l])[..|a|] == a;
  }

  lemma {:induction false} JoinedConcat(a: seq<Line>, b: seq<Line>)
    ensures Joined(a + b) == Joined(a) + Joined(b)
  {
    hide Joined;
    if b == [] {
      JoinedMore([], []);
      assert a + b == a;
    } else {
      var n := |b| - 1;
      JoinedConcat(a, b[..n]);
      JoinedMore(a + b[..n], b[n]);
      JoinedMore(b[..n], b[n]);
      assert a + b == (a + b[..n]) + [b[n]] && b == b[..n] + [b[n]];
    }
  }

  lemma JoinedAround(a: seq<Line>, l: Line, b: seq<Line>)
    ensures Joined(a + [l] + b) == Joined(a) + l + [NL] + Joined(b)
  {
    JoinedConcat(a, [l]);
    JoinedConcat(a + [l], b);
    assert [l][..0] == [];
  }

  /** The position of the cursor in the joined text. */
  function Offset(e: Ed): nat
    requires CursorOk(e)
  {
    |Joined(e.lines[..e.y])| + e.x
  }

  lemma OffsetFits(e: Ed)
    requires CursorOk(e)
    ensures Offset(e) <= |Joined(e.lines)|
    ensures e.x > 0 ==> Offset(e) > 0
  {
    JoinedAround(e.lines[..e.y], e.lines[e.y], e.lines[e.y + 1..]);
    assert e.lines == e.lines[..e.y] + [e.lines[e.y]] + e.lines[e.y + 1..];
  }

  /** Editing inserts or deletes one byte at the cursor; moving changes no text. */
  ghost predicate EditsText(e: Ed, key: Key, e': Ed)
    requires CursorOk(e) && CursorOk(e')
  {
    var text, o := Joined(e.lines), Offset(e);
    o <= |text| &&
    match key
    case Char(c) =>
      if e.x < MAX_COLS - 1 then Joined(e'.lines) == text[..o] + [c] + text[o..] && Offset(e') == o + 1 else e' == e
    case Enter =>
      if |e.lines| < MAX_LINES then Joined(e'.lines) == text[..o] + [NL] + text[o..] && Offset(e') == o + 1 else e' == e
    case Backspace =>
      if e.x > 0 then o > 0 && Joined(e'.lines) == text[..o - 1] + text[o..] && Offset(e') == o - 1 else e' == e
    case _ => e'.lines == e.lines && e'.dirty == e.dirty
  }

  lemma EditCursor(e: Ed, key: Key)
    requires CursorOk(e)
    ensures CursorOk(Edit(e, key))
  {
  }

  /** A line between other bytes: inserting into it, cutting from it, breaking it. */
  lemma InsertAround(a: seq<byte>, l: Line, b: seq<byte>, x: nat, c: byte)
    requires x <= |l|
    ensures (var text, o := a + l + [NL] + b, |a| + x; a + Insert(l, x, c) + [NL] + b == text[..o] + [c] + text[o..])
  {
    assert (a + l + [NL] + b)[..|a| + x] == a + l[..x];
    assert (a + l + [NL] + b)[|a| + x..] == l[x..] + [NL] + b;
  }

  lemma CutAround(a: seq<byte>, l: Line, b: seq<byte>, x: nat)
    requires 0 < x <= |l|
    ensures var text, o := a + l + [NL] + b, |a| + x;
      a + (l[..x - 1] + l[x..]) + [NL] + b == text[..o - 1] + text[o..]
  {
    assert (a + l + [NL] + b)[..|a| + x - 1] == a + l[..x - 1];
    assert (a + l + [NL] + b)[|a| + x..] == l[x..] + [NL] + b;
  }

  /** Replacing the current line replaces its bytes in the joined text. */
  lemma LineReplaced(lines: seq<Line>, y: nat, l: Line)
    requires y < |lines|
    ensures Joined(lines[y := l]) == Joined(lines[..y]) + l + [NL] + Joined(lines[y + 1..])
  {
    JoinedAround(lines[..y], l, lines[y + 1..]);
    assert lines[y := l] == lines[..y] + [l] + lines[y + 1..];
  }

  lemma SameLine(lines: seq<Line>, y: nat)
    requires y < |lines|
    ensures Joined(lines) == Joined(lines[..y]) + lines[y] + [NL] + Joined(lines[y + 1..])
  {
    LineReplaced(lines, y, lines[y]);
    assert lines[y := lines[y]] == lines;
  }

  lemma TextInserted(lines: seq<Line>, y: nat, x: nat, c: byte)
    requires y < |lines| && x <= |lines[y]|
    ensures (var text, o := Joined(lines), |Joined(lines[..y])| + x;
      o <= |text| && Joined(lines[y := Insert(lines[y], x, c)]) == text[..o] + [c] + text[o..])
  {
    hide *;
    SameLine(lines, y);
    LineReplaced(lines, y, Insert(lines[y], x, c));
    InsertAround(Joined(lines[..y]), lines[y], Joined(lines[y + 1..]), x, c);
  }

  lemma TextErased(lines: seq<Line>, y: nat, x: nat)
    requires y < |lines| && 0 < x <= |lines[y]|
    ensures (var text, o := Joined(lines), |Joined(lines[..y])| + x;
      o <= |text| && Joined(lines[y := lines[y][..x - 1] + lines[y][x..]]) == text[..o - 1] + text[o..])
  {
    SameLine(lines, y);
    LineReplaced(lines, y, lines[y][..x - 1] + lines[y][x..]);
    CutAround(Joined(lines[..y]), lines[y], Joined(lines[y + 1..]), x);
  }

  lemma TextBroken(lines: seq<Line>, y: nat, x: nat)
    requires y < |lines| && x <= |lines[y]|
    ensures (var text, o := Joined(lines), |Joined(lines[..y])| + x;
      && o <= |text|
      && Joined(lines[..y] + [lines[y][..x], lines[y][x..]] + lines[y + 1..]) == text[..o] + [NL] + text[o..])
    ensures var split := lines[..y] + [lines[y][..x], lines[y][x..]] + lines[y + 1..];
      |Joined(split[..y + 1])| == |Joined(lines[..y])| + x + 1
  {
    assert (lines[..y] + [lines[y][..x], lines[y][x..]] + lines[y + 1..])[..y + 1] == lines[..y] + [lines[y][..x]];
    SameLine(lines, y);
    LineBroken(lines[..y], lines[y], lines[y + 1..], x);
    InsertAround(Joined(lines[..y]), lines[y], Joined(lines[y + 1..]), x, NL);
  }

  lemma CharEditsText(e: Ed, c: byte)
    requires CursorOk(e)
    ensures CursorOk(Edit(e, Char(c))) && EditsText(e, Char(c), Edit(e, Char(c)))
  {
    TextInserted(e.lines, e.y, e.x, c);
    assert e.lines[e.y := Insert(e.lines[e.y], e.x, c)][..e.y] == e.lines[..e.y];
  }

  lemma BackspaceEditsText(e: Ed)
    requires CursorOk(e)
    ensures CursorOk(Edit(e, Backspace)) && EditsText(e, Backspace, Edit(e, Backspace))
  {
    OffsetFits(e);
    if e.x > 0 {
      TextErased(e.lines, e.y, e.x);
      assert e.lines[e.y := e.lines[e.y][..e.x - 1] + e.lines[e.y][e.x..]][..e.y] == e.lines[..e.y];
    }
  }

  /** Breaking a line is the same as inserting a newline into it. */
  lemma LineBroken(above: seq<Line>, l: Line, below: seq<Line>, x: nat)
    requires x <= |l|
    ensures Joined(above + [l[..x], l[x..]] + below) == Joined(above) + Insert(l, x, NL) + [NL] + Joined(below)
    ensures |Joined(above + [l[..x]])| == |Joined(above)| + x + 1
  {
    JoinedAround(above + [l[..x]], l[x..], below);
    JoinedAround(above, l[..x], []);
    assert above + [l[..x]] + [] == above + [l[..x]];
    assert above + [l[..x], l[x..]] + below == above + [l[..x]] + [l[x..]] + below;
    assert Joined(above) + l[..x] + [NL] + l[x..] == Joined(above) + Insert(l, x, NL);
  }

  lemma EnterEditsText(e: Ed)
    requires CursorOk(e)
    ensures CursorOk(Edit(e, Enter)) && EditsText(e, Enter, Edit(e, Enter))
  {
    TextBroken(e.lines, e.y, e.x);
  }

  /** A key that has room edits the text: on a full line the row buffer overflows instead. */
  lemma KeyEditsText(e: Ed, key: Key)
    requires CursorOk(e) && HasRoom(e, key)
    ensures CursorOk(Edit(e, key)) && EditsText(e, key, Edit(e, key))
  {
    match key
    case Char(c) => CharEditsText(e, c);
    case Backspace => BackspaceEditsText(e);
    case Enter => EnterEditsText(e);
    case _ =>
      EditCursor(e, key);
      OffsetFits(e);
  }

  /** On a line that is not full, backspace takes back a typed character. */
  lemma BackspaceUndoes(e: Ed, c: byte)
    requires CursorOk(e) && e.x < MAX_COLS - 1 && HasRoom(e, Char(c))
    ensures CursorOk(Edit(e, Char(c)))
    ensures (var back := Edit(Edit(e, Char(c)), Backspace); back.lines == e.lines && back.x == e.x && back.y == e.y)
  {
    var l := Insert(e.lines[e.y], e.x, c);
    assert l[..e.x] + l[e.x + 1..] == e.lines[e.y];
  }

  // ---------- saving and loading ----------

  /** kedit_save: the lines with a newline each, leaving out every line that does not fit any more. */
  function Saved(lines: seq<Line>): (text: seq<byte>)
    ensures |text| < VfsModel.MAX_FILE_SIZE
  {
    if lines == [] then []
    else
      var text := Saved(lines[..|lines| - 1]);
      var l := lines[|lines| - 1];
      if |text| + |l| + 1 < VfsModel.MAX_FILE_SIZE then text + l + [NL] else text
  }

  lemma SavedStep(lines: seq<Line>, i: nat)
    requires i < |lines|
    ensures Saved(lines[..i + 1]) ==
      if |Saved(lines[..i])| + |lines[i]| + 1 < VfsModel.MAX_FILE_SIZE then Saved(lines[..i]) + lines[i] + [NL]
      else Saved(lines[..i])
  {
    assert lines[..i + 1][..i] == lines[..i];
  }

  /** The terminated lines of a text and what follows the last newline. */
  function Scan(text: seq<byte>): (seq<Line>, Line) {
    if text == [] then ([], [])
    else
      var (lines, rest) := Scan(text[..|text| - 1]);
      var c := text[|text| - 1];
      if c == NL then (lines + [rest], []) else (lines, rest + [c])
  }

  predicate NoNewlines(lines: seq<Line>) {
    forall i :: 0 <= i < |lines| ==> NL !in lines[i]
  }

  /** Scanning takes a text apart at its newlines, and nothing else does. */
  lemma {:induction false} ScanSplits(text: seq<byte>)
    ensures (var (lines, rest) := Scan(text); text == Joined(lines) + rest && NoNewlines(lines) && NL !in rest)
  {
    if text != [] {
      ScanSplits(text[..|text| - 1]);
      var (lines, rest) := Scan(text[..|text| - 1]);
      assert text == text[..|text| - 1] + [text[|text| - 1]];
      assert (lines + [rest])[..|lines|] == lines;
    }
  }

  lemma {:induction false} SplitUnique(lines: seq<Line>, rest: Line)
    requires NoNewlines(lines) && NL !in rest
    ensures Scan(Joined(lines) + rest) == (lines, rest)
    decreases |lines|, |rest|
  {
    var text := Joined(lines) + rest;
    if rest != [] {
      SplitUnique(lines, rest[..|rest| - 1]);
      assert text[..|text| - 1] == Joined(lines) + rest[..|rest| - 1];
      assert rest[..|rest| - 1] + [rest[|rest| - 1]] == rest;
    } else if lines != [] {
      var n := |lines| - 1;
      SplitUnique(lines[..n], lines[n]);
      assert text[..|text| - 1] == Joined(lines[..n]) + lines[n];
      assert lines[..n] + [lines[n]] == lines;
    }
  }

  /** A line as its row shows it: at most 127 bytes, up to the first NUL. */
  function Cut(l: Line): (r: Line)
    ensures r <= l && |r| < MAX_COLS && NUL !in r
    ensures |r| == MAX_COLS - 1 || r == l || l[|r|] == NUL
  {
    UpToNul(l[..Min(|l|, MAX_COLS - 1)])
  }

  function UpToNul(l: Line): (r: Line)
    ensures r <= l && NUL !in r && (r == l || l[|r|] == NUL)
  {
    if l == [] || l[0] == NUL then [] else [l[0]] + UpToNul(l[1..])
  }

  lemma CutWhole(l: Line)
    requires |l| < MAX_COLS && NUL !in l
    ensures Cut(l) == l
  {
  }

  function CutAll(lines: seq<Line>): seq<Line> {
    seq(|lines|, i requires 0 <= i < |lines| => Cut(lines[i]))
  }

  /** The load loop of launch_kedit: a text without newline is one line, else only terminated lines count. */
  function Loaded(text: seq<byte>): (lines: seq<Line>) {
    var (lines, rest) := Scan(text);
    if lines == [] then [Cut(rest)] else CutAll(lines[..Min(|lines|, MAX_LINES)])
  }

  lemma LoadedOk(text: seq<byte>)
    ensures EdOk(Ed(Loaded(text), 0, 0, 0, false))
  {
    ScanSplits(text);
    var (lines, rest) := Scan(text);
    assert forall l: Line :: Cut(l) <= l;
  }

  /** Some lines may be left out of the saved text; all are saved exactly if they fit together. */
  lemma {:induction false} SavedLines(lines: seq<Line>) returns (kept: seq<Line>)
    requires LinesOk(lines)
    ensures Saved(lines) == Joined(kept) && LinesOk(kept) && |kept| <= |lines|
    ensures |kept| == |lines| ==> kept == lines
    ensures |Joined(lines)| < VfsModel.MAX_FILE_SIZE ==> kept == lines
  {
    if lines == [] {
      return [];
    }
    var n := |lines| - 1;
    kept := SavedLines(lines[..n]);
    if |Saved(lines[..n])| + |lines[n]| + 1 < VfsModel.MAX_FILE_SIZE {
      var longer := kept + [lines[n]];
      assert longer[..|kept|] == kept;
      kept := longer;
    }
    assert lines[..n] + [lines[n]] == lines;
  }

  /** Saving and loading again gives the same lines exactly if they total at most 1023 bytes. */
  lemma SaveLoadRoundTrip(lines: seq<Line>)
    requires LinesOk(lines) && 1 <= |lines| <= MAX_LINES
    ensures Loaded(Saved(lines)) == lines <==> |Joined(lines)| < VfsModel.MAX_FILE_SIZE
  {
    hide Saved, Scan, Joined, CutAll;
    var kept := SavedLines(lines);
    SplitUnique(kept, []);
    assert Joined(kept) + [] == Joined(kept);
    if kept != [] {
      CutAllWhole(kept);
      assert kept[..Min(|kept|, MAX_LINES)] == kept;
    } else {
      EmptyLineSaved();
    }
  }

  lemma CutAllWhole(lines: seq<Line>)
    requires LinesOk(lines)
    ensures CutAll(lines) == lines
  {
    hide Cut;
    forall i | 0 <= i < |lines|
      ensures CutAll(lines)[i] == lines[i]
    {
      CutWhole(lines[i]);
    }
  }

  lemma EmptyLineSaved()
    ensures |Joined([[]])| == 1
  {
    assert Joined([[]]) == Joined([[]][..0]) + [] + [NL];
  }

  // ---------- sessions ----------

  function Type(e: Ed, keys: seq<Key>): Ed
    requires EdOk(e) && Accepts(e, keys)
    decreases |keys|
  {
    if keys == [] then e else (PressKeeps(e, keys[0]); Type(Press(e, keys[0]), keys[1..]))
  }

  /** No key of the session meets a full line. */
  predicate Accepts(e: Ed, keys: seq<Key>)
    requires EdOk(e)
    decreases |keys|
  {
    keys != [] ==>
      && Printable(keys[0]) && HasRoom(e, keys[0])
      && (PressKeeps(e, keys[0]); Accepts(Press(e, keys[0]), keys[1..]))
  }

  lemma {:induction false} TypeKeeps(e: Ed, keys: seq<Key>)
    requires EdOk(e) && Accepts(e, keys)
    ensures EdOk(Type(e, keys))
    decreases |keys|
  {
    if keys != [] {
      PressKeeps(e, keys[0]);
      TypeKeeps(Press(e, keys[0]), keys[1..]);
    }
  }

  /** Whatever was loaded and typed, saving and loading again shows the same lines exactly if they fit. */
  lemma EditSaveReload(e: Ed, keys: seq<Key>)
    requires EdOk(e) && Accepts(e, keys)
    ensures var lines := Type(e, keys).lines;
      Loaded(Saved(lines)) == lines <==> |Joined(lines)| < VfsModel.MAX_FILE_SIZE
  {
    TypeKeeps(e, keys);
    SaveLoadRoundTrip(Type(e, keys).lines);
  }
}
