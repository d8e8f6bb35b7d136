/**
  What each key does, by its bytes: where the cursor goes, which byte enters or leaves the text and how far the
  screen scrolls; which lines are saved and which are loaded.
 */
module KeditLaws {
  import opened Bytes
  import opened KeditModel

  // ---------- keys by their bytes ----------

  /** The arrow keys, ESC [ A to ESC [ D: up, down, right and left; the text stays. */
  ghost predicate Moved(third: byte, e: Ed, e': Ed)
    requires CursorOk(e) && CursorOk(e')
  {
    && e'.lines == e.lines && e'.dirty == e.dirty
    && (third == 65 ==> e'.y == (if e.y > 0 then e.y - 1 else 0) && e'.x == Min(e.x, |e.lines[e'.y]|))
    && (third == 66 ==> e'.y == Min(e.y + 1, |e.lines| - 1) && e'.x == Min(e.x, |e.lines[e'.y]|))
    && (third == 67 ==> e'.y == e.y && Offset(e') == if e.x < |e.lines[e.y]| then Offset(e) + 1 else Offset(e))
    && (third == 68 ==> e'.y == e.y && Offset(e') == if e.x > 0 then Offset(e) - 1 else Offset(e))
    && (third < 65 || third > 68 ==> e'.x == e.x && e'.y == e.y)
  }

  /** The text has `b` at the cursor, which stands behind it now. */
  ghost predicate Inserted(b: byte, e: Ed, e': Ed)
    requires CursorOk(e) && CursorOk(e')
  {
    var text, o := Joined(e.lines), Offset(e);
    o <= |text| && Joined(e'.lines) == text[..o] + [b] + text[o..] && Offset(e') == o + 1 && e'.dirty
  }

  /** The text has lost the byte before the cursor. */
  ghost predicate Deleted(e: Ed, e': Ed)
    requires CursorOk(e) && CursorOk(e')
  {
    var text, o := Joined(e.lines), Offset(e);
    0 < o <= |text| && Joined(e'.lines) == text[..o - 1] + text[o..] && Offset(e') == o - 1 && e'.dirty
  }

  /** What a key does apart from scrolling. `second` and `third` are the bytes behind an escape. */
  ghost predicate Keyed(c: byte, second: byte, third: byte, e: Ed, e': Ed)
    requires CursorOk(e) && CursorOk(e')
  {
    if c == 27 && second == 91 then Moved(third, e, e')
    else if (c == 8 || c == 127) && e.x > 0 then Deleted(e, e') && |e'.lines| == |e.lines| && e'.y == e.y
    else if (c == 13 || c == 10) && |e.lines| < 100 then
      Inserted(10, e, e') && |e'.lines| == |e.lines| + 1 && e'.y == e.y + 1 && e'.x == 0
    else if 32 <= c <= 126 && e.x < 127 then Inserted(c, e, e') && |e'.lines| == |e.lines| && e'.y == e.y
    else e'.lines == e.lines && e'.x == e.x && e'.y == e.y && e'.dirty == e.dirty
  }

  /** The cursor's row is one of the 20 shown; if it was not, it is now the first or the last of them. */
  ghost predicate Scrolled(e: Ed, e': Ed) {
    && e'.scroll <= e'.y <= e'.scroll + 19
    && (e'.scroll < e.scroll ==> e'.scroll == e'.y)
    && (e'.scroll > e.scroll ==> e'.scroll + 19 == e'.y)
  }

  /** The key is a character that a line of 127 characters has no room for. */
  ghost predicate OnFullLine(c: byte, e: Ed)
    requires CursorOk(e)
  {
    32 <= c <= 126 && e.x < 127 && |e.lines[e.y]| >= 127
  }

  lemma SameRowOffset(e: Ed, e': Ed)
    requires CursorOk(e) && CursorOk(e') && e'.lines == e.lines && e'.y == e.y
    ensures Offset(e') - Offset(e) == e'.x - e.x
  {
  }

  lemma ArrowMoves(third: byte, e: Ed)
    requires CursorOk(e)
    ensures CursorOk(Edit(e, KeyOf(27, 91, third))) && Moved(third, e, Edit(e, KeyOf(27, 91, third)))
  {
    hide Offset;
    var e' := Edit(e, KeyOf(27, 91, third));
    if e'.y == e.y {
      SameRowOffset(e, e');
    }
  }

  lemma OffsetUnscrolled(e: Ed, scroll: int)
    requires CursorOk(e)
    ensures CursorOk(e.(scroll := scroll)) && Offset(e.(scroll := scroll)) == Offset(e)
  {
  }

  lemma FullLine(c: byte, second: byte, third: byte, e: Ed)
    requires CursorOk(e)
    ensures OnFullLine(c, e) <==> !HasRoom(e, KeyOf(c, second, third))
  {
  }

  lemma EditKeys(c: byte, second: byte, third: byte, e: Ed)
    requires CursorOk(e) && |e.lines| <= 100 && !OnFullLine(c, e)
    ensures CursorOk(Edit(e, KeyOf(c, second, third)))
    ensures Keyed(c, second, third, e, Edit(e, KeyOf(c, second, third)))
  {
    hide Offset, Joined;
    var key := KeyOf(c, second, third);
    EditCursor(e, key);
    FullLine(c, second, third, e);
    if c == 27 && second == 91 {
      ArrowMoves(third, e);
    } else {
      KeyEditsText(e, key);
    }
  }

  lemma EditKeepsScroll(e: Ed, key: Key)
    requires CursorOk(e)
    ensures Edit(e, key).scroll == e.scroll
  {
  }

  /** Every key does this and scrolls no further than needed. */
  lemma PressKeys(c: byte, second: byte, third: byte, e: Ed)
    requires CursorOk(e) && |e.lines| <= 100 && !OnFullLine(c, e)
    ensures var e' := Press(e, KeyOf(c, second, third));
      CursorOk(e') && Keyed(c, second, third, e, e') && Scrolled(e, e')
  {
    hide Offset, Joined, Edit, KeyOf;
    EditKeys(c, second, third, e);
    var edited := Edit(e, KeyOf(c, second, third));
    EditKeepsScroll(e, KeyOf(c, second, third));
    OffsetUnscrolled(edited, Scroll(edited).scroll);
  }

  function Distance(a: int, b: int): int {
    if a < b then b - a else a - b
  }

  /** No other screen that shows the row is nearer to the one before. */
  lemma NearestScreen(e: Ed, e': Ed, scroll: int)
    requires Scrolled(e, e') && scroll <= e'.y <= scroll + 19
    ensures Distance(e'.scroll, e.scroll) <= Distance(scroll, e.scroll)
  {
  }

  // ---------- keys that take each other back ----------

  /** Left takes right back, right takes left back, as long as the first one moved. */
  lemma SidewaysUndone(e: Ed, a: Ed, b: Ed, first: byte, back: byte)
    requires CursorOk(e) && CursorOk(a) && CursorOk(b) && Moved(first, e, a) && Moved(back, a, b)
    requires (first == 67 && back == 68 && e.x < |e.lines[e.y]|) || (first == 68 && back == 67 && e.x > 0)
    ensures b.lines == e.lines && b.x == e.x && b.y == e.y
  {
    SameRowOffset(e, a);
    SameRowOffset(a, b);
  }

  /** Up and down take each other back, but for a column the row between does not have. */
  lemma UpDownUndone(e: Ed, a: Ed, b: Ed, first: byte, back: byte)
    requires CursorOk(e) && CursorOk(a) && CursorOk(b) && Moved(first, e, a) && Moved(back, a, b)
    requires (first == 65 && back == 66 && e.y > 0) || (first == 66 && back == 65 && e.y < |e.lines| - 1)
    ensures b.lines == e.lines && b.y == e.y && b.x == Min(e.x, |e.lines[a.y]|)
  {
  }

  // ---------- saving ----------

  /** The lines marked in `kept`, in order. */
  function Chosen(lines: seq<Line>, kept: seq<bool>): seq<Line>
    requires |kept| == |lines|
  {
    if lines == [] then []
    else
      var n := |lines| - 1;
      Chosen(lines[..n], kept[..n]) + if kept[n] then [lines[n]] else []
  }

  /** A line is left out exactly when it would take the text past 1023 bytes. */
  ghost predicate KeptWhileRoom(lines: seq<Line>, kept: seq<bool>)
    requires |kept| == |lines|
  {
    forall i :: 0 <= i < |lines| ==>
      (kept[i] <==> |Joined(Chosen(lines[..i], kept[..i]))| + |lines[i]| + 1 <= 1023)
  }

  lemma {:induction false} SavedWhileRoom(lines: seq<Line>) returns (kept: seq<bool>)
    ensures |kept| == |lines| && KeptWhileRoom(lines, kept) && Saved(lines) == Joined(Chosen(lines, kept))
  {
    hide KeptWhileRoom, Joined, Chosen, Saved;
    kept := [];
    if lines == [] {
      SavedNone();
    } else {
      var n := |lines| - 1;
      var before := SavedWhileRoom(lines[..n]);
      kept := before + [|Saved(lines[..n])| + |lines[n]| + 1 <= 1023];
      assert kept[..n] == before;
      SavedOneMore(lines, kept);
      KeptLonger(lines, kept);
    }
  }

  /** The text holds the lines there is room for, in order, one newline each. */
  ghost predicate HoldsWhileRoom(text: seq<byte>, lines: seq<Line>) {
    exists kept :: |kept| == |lines| && KeptWhileRoom(lines, kept) && text == Joined(Chosen(lines, kept))
  }

  lemma SavedHolds(lines: seq<Line>)
    ensures HoldsWhileRoom(Saved(lines), lines)
  {
    var kept := SavedWhileRoom(lines);
  }

  lemma SavedNone()
    ensures Saved([]) == Joined(Chosen([], [])) && KeptWhileRoom([], [])
  {
  }

  lemma SavedOneMore(lines: seq<Line>, kept: seq<bool>)
    requires |kept| == |lines| > 0
    requires Saved(lines[..|lines| - 1]) == Joined(Chosen(lines[..|lines| - 1], kept[..|lines| - 1]))
    requires kept[|lines| - 1] <==> |Saved(lines[..|lines| - 1])| + |lines[|lines| - 1]| + 1 <= 1023
    ensures Saved(lines) == Joined(Chosen(lines, kept))
  {
    hide Joined;
    var n := |lines| - 1;
    JoinedMore(Chosen(lines[..n], kept[..n]), lines[n]);
    assert Chosen(lines[..n], kept[..n]) + [] == Chosen(lines[..n], kept[..n]);
  }

  lemma KeptLonger(lines: seq<Line>, kept: seq<bool>)
    requires |kept| == |lines| > 0 && KeptWhileRoom(lines[..|lines| - 1], kept[..|lines| - 1])
    requires (var n := |lines| - 1;
      kept[n] <==> |Joined(Chosen(lines[..n], kept[..n]))| + |lines[n]| + 1 <= 1023)
    ensures KeptWhileRoom(lines, kept)
  {
    hide Joined, Chosen;
    var n := |lines| - 1;
    forall i | 0 <= i < |lines|
      ensures kept[i] <==> |Joined(Chosen(lines[..i], kept[..i]))| + |lines[i]| + 1 <= 1023
    {
      if i < n {
        assert lines[..n][..i] == lines[..i] && kept[..n][..i] == kept[..i];
      }
    }
  }

  // ---------- loading ----------

  /** What a row shows of a line: up to its first NUL or 127 bytes. */
  ghost predicate ShownOf(l: Line, shown: Line) {
    && shown <= l && |shown| <= 127 && 0 !in shown
    && (|shown| == 127 || shown == l || l[|shown|] == 0)
  }

  /** Lines ended by a newline are loaded, at most 100; what follows the last newline only if there is none. */
  lemma LoadedFrom(lines: seq<Line>, rest: Line)
    requires NoNewlines(lines) && NL !in rest
    ensures var loaded := Loaded(Joined(lines) + rest);
      if lines == [] then |loaded| == 1 && ShownOf(rest, loaded[0])
      else |loaded| == Min(|lines|, 100) && forall i :: 0 <= i < |loaded| ==> ShownOf(lines[i], loaded[i])
  {
    SplitUnique(lines, rest);
  }
}
