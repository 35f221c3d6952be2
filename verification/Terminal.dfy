/** The terminal: text is drawn cell by cell and kept a second time in a ring of
    lines, from which the screen is repainted when it is scrolled. */
module Terminal {
  import opened Arithmetic

  const NEWLINE: byte := 10
  const BACKSPACE: byte := 8

  // ---- The transcript ----------------------------------------------------------------------

  /** The text so far: at least one line, the last one being written. */
  type Transcript = t: seq<seq<byte>> | |t| >= 1 witness [[]]

  function Last(t: Transcript): seq<byte> {
    t[|t| - 1]
  }

  /** The transcript after one more character on a screen of the given width. A NUL and
      a character in column 255, for which the ring has no room, are not recorded. */
  function Feed(t: Transcript, c: byte, cols: nat): Transcript {
    var line, above := Last(t), t[..|t| - 1];
    if c == NEWLINE then t + [[]]
    else if c == BACKSPACE then (if line == [] then t else above + [line[..|line| - 1]])
    else
      var t' := if Recorded(t, c) then above + [line + [c]] else t;
      if |line| + 1 >= cols then t' + [[]] else t'
  }

  predicate Recorded(t: Transcript, c: byte) {
    c != 0 && |Last(t)| < 255
  }

  /** A character at the end of the last line, and a new line if that one is full. */
  function Typed(t: Transcript, c: byte, cols: nat): Transcript {
    t[..|t| - 1] + [t[|t| - 1] + [c]] + (if |t[|t| - 1]| + 1 < cols then [] else [[]])
  }

  function FeedAll(t: Transcript, s: seq<byte>, cols: nat): Transcript {
    if s == [] then t else Feed(FeedAll(t, s[..|s| - 1], cols), s[|s| - 1], cols)
  }

  /** The characters after which ring, cursor and screen still agree. A newline always
      does. A backspace does unless it leaves the line upwards, for which the screen
      must have a row above. Any other character does if it is recorded; if not, it must
      end the line, and be invisible there: a NUL, or gone with the only row. */
  predicate Benign(t: Transcript, c: byte, cols: nat, rows: nat) {
    if c == NEWLINE then true
    else if c == BACKSPACE then Last(t) != [] || |t| == 1 || rows == 1
    else Recorded(t, c) || (|Last(t)| + 1 >= cols && (c == 0 || rows == 1))
  }

  predicate BenignAll(t: Transcript, s: seq<byte>, cols: nat, rows: nat) {
    s == [] ||
    (&& BenignAll(t, s[..|s| - 1], cols, rows)
     && Benign(FeedAll(t, s[..|s| - 1], cols), s[|s| - 1], cols, rows))
  }

  /** What stands in column c of a line; 0 is background. */
  function Glyph(line: seq<byte>, c: nat): byte {
    if c < |line| then line[c] else 0
  }

  /** What stands in column c of line l. */
  function Cell(t: Transcript, l: int, c: nat): byte {
    if 0 <= l < |t| then Glyph(t[l], c) else 0
  }

  predicate TextLines(t: Transcript) {
    forall l | 0 <= l < |t| :: TextLine(t[l])
  }

  predicate TextLine(s: seq<byte>) {
    |s| <= 255 && forall c | 0 <= c < |s| :: s[c] != 0
  }

  /** The oldest line that the ring still holds. */
  function Oldest(count: nat): nat {
    if count >= 512 then count - 512 + 1 else 0
  }

  lemma SlotsApart(k: nat, l: nat, count: nat)
    requires Oldest(count) <= k <= count && Oldest(count) <= l <= count && k != l
    ensures k % 512 != l % 512
  {
  }

  lemma OlderLine(l: nat, count: nat)
    requires Oldest(count) <= l < count
    ensures Oldest(count - 1) <= l
  {
  }

  /** The last line replaced. */
  function WithLast(t: Transcript, line: seq<byte>): (r: Transcript)
    ensures |r| == |t| && Last(r) == line
  {
    t[..|t| - 1] + [line]
  }

  lemma CellNewLine(t: Transcript, l: int, c: nat)
    ensures Cell(t + [[]], l, c) == Cell(t, l, c)
  {
  }

  lemma CellWithLast(t: Transcript, line: seq<byte>, l: int, c: nat)
    ensures Cell(WithLast(t, line), l, c) == if l == |t| - 1 then Glyph(line, c) else Cell(t, l, c)
  {
  }

  lemma SameLast(t: Transcript)
    ensures WithLast(t, Last(t)) == t
  {
  }

  lemma TextWithLast(t: Transcript, line: seq<byte>)
    requires TextLines(t) && TextLine(line)
    ensures TextLines(WithLast(t, line))
  {
  }

  /** Drawing c in one column turns the last line into `line`. */
  ghost predicate Redraws(t: Transcript, line: seq<byte>, col: nat, c: byte, cols: nat) {
    forall k | 0 <= k < cols :: Glyph(line, k) == if k == col then c else Glyph(Last(t), k)
  }

  lemma AppendRedraws(t: Transcript, c: byte, cols: nat)
    ensures Redraws(t, Last(t) + [c], |Last(t)|, c, cols)
  {
  }

  lemma CutRedraws(t: Transcript, cols: nat)
    requires Last(t) != []
    ensures Redraws(t, Last(t)[..|Last(t)| - 1], |Last(t)| - 1, 0, cols)
  {
  }

  /** Blanking the cell behind the last line changes nothing. */
  lemma BlankRedraws(t: Transcript, cols: nat)
    ensures Redraws(t, Last(t), |Last(t)|, 0, cols)
  {
  }

  class Tty {
    const cols: nat
    const rows: nat
    const ring: array2<byte>
    const grid: array2<byte>
    var row: nat
    var column: nat
    var lineCount: nat
    var offset: nat
    ghost var lines: Transcript

    ghost predicate Geometry() {
      && 1 <= cols <= 256 && 1 <= rows <= 512
      && ring.Length0 == 512 && ring.Length1 == 256 && grid.Length0 == rows && grid.Length1 == cols && ring != grid
    }

    /** All but the cursor column, which passes the right edge for a moment. */
    ghost predicate Shape()
      reads this, ring
    {
      Geometry() && row < rows && row <= lineCount && offset <= lineCount - row && Terminated()
    }

    ghost predicate Valid()
      reads this, ring
    {
      Shape() && column < cols
    }

    /** Column 255 of the ring is never used for text, so every line ends. */
    ghost predicate Terminated()
      requires Geometry()
      reads ring
    {
      forall s | 0 <= s < 512 :: ring[s, 255] == 0
    }

    /** Line l of the transcript stands in its slot, ended by NUL. */
    ghost predicate SlotHolds(t: Transcript, l: nat)
      requires Geometry() && l < |t| && |t[l]| <= 255
      reads ring
    {
      ring[l % 512, |t[l]|] == 0 && forall c | 0 <= c < |t[l]| :: ring[l % 512, c] == t[l][c]
    }

    /** The ring holds the last 512 lines. */
    ghost predicate RingHolds(t: Transcript)
      requires Geometry()
      reads ring
    {
      TextLines(t) && forall l | Oldest(|t| - 1) <= l < |t| :: SlotHolds(t, l)
    }

    /** Screen row r shows line first + r of the transcript, for every r. */
    ghost predicate GridShows(t: Transcript, first: int)
      requires Geometry()
      reads grid
    {
      forall r, c | 0 <= r < rows && 0 <= c < cols :: grid[r, c] == Cell(t, first + r, c)
    }

    /** The ring and the cursor row agree with a transcript. */
    ghost predicate InRing(t: Transcript)
      requires Geometry()
      reads this`row, this`lineCount, this`offset, ring
    {
      && |t| == lineCount + 1 && row == (if lineCount < rows then lineCount else rows - 1)
      && RingHolds(t) && offset <= MaxScrollback()
    }

    /** Ring, cursor and screen agree with a transcript. */
    ghost predicate AgreesWith(t: Transcript)
      requires Geometry()
      reads this`row, this`column, this`lineCount, this`offset, ring, grid
    {
      InRing(t) && |Last(t)| == column && GridShows(t, lineCount - row - offset)
    }

    ghost predicate Agrees()
      requires Geometry()
      reads this, ring, grid
    {
      AgreesWith(lines)
    }

    /** `tty_max_scrollback`. */
    function MaxScrollback(): nat
      reads this`lineCount, this`row
    {
      var max := lineCount - row - Oldest(lineCount);
      if max < 0 then 0 else max
    }

    // -- The ring --

    /** `tty_hist_clear_line` for a new line: the 511 lines above it stay. */
    method StartLine(ghost t: Transcript)
      requires Geometry() && Terminated() && lineCount > 0
      modifies ring
      ensures Terminated()
      ensures |t| == lineCount && old(RingHolds(t)) ==> RingHolds(t + [[]])
    {
      hide Oldest;
      ring[lineCount % 512, 0] := 0;
      if |t| == lineCount && old(RingHolds(t)) {
        var t' := t + [[]];
        forall l | Oldest(lineCount) <= l < |t'|
          ensures SlotHolds(t', l)
        {
          if l < lineCount {
            OlderLine(l, lineCount);
            assert old(SlotHolds(t, l));
            SlotsApart(l, lineCount, lineCount);
          }
        }
      }
    }

    /** Put c and a NUL at a column of the current line. */
    method StoreChar(col: nat, c: byte, ghost t: Transcript)
      requires Geometry() && Terminated() && col < 255
      modifies ring
      ensures Terminated()
      ensures ring[lineCount % 512, col] == c
      ensures |t| == lineCount + 1 && |Last(t)| == col && old(RingHolds(t)) ==>
                RingHolds(if c != 0 then WithLast(t, Last(t) + [c]) else t)
    {
      ghost var before := |t| == lineCount + 1 && |Last(t)| == col && RingHolds(t);
      ring[lineCount % 512, col] := c;
      ring[lineCount % 512, col + 1] := 0;
      if before {
        ghost var t' := if c != 0 then WithLast(t, Last(t) + [c]) else t;
        if c != 0 {
          TextWithLast(t, Last(t) + [c]);
        }
        forall l | Oldest(lineCount) <= l < |t'|
          ensures SlotHolds(t', l)
        {
          assert old(SlotHolds(t, l));
          if l < lineCount {
            SlotsApart(l, lineCount, lineCount);
          }
        }
      }
    }

    /** Cut the current line at a column. */
    method CutLine(col: nat, ghost t: Transcript)
      requires Geometry() && Terminated() && col < 256
      modifies ring
      ensures Terminated()
      ensures |t| == lineCount + 1 && col < |Last(t)| && old(RingHolds(t)) ==> RingHolds(WithLast(t, Last(t)[..col]))
    {
      ghost var before := |t| == lineCount + 1 && col < |Last(t)| && RingHolds(t);
      ring[lineCount % 512, col] := 0;
      if before {
        ghost var t' := WithLast(t, Last(t)[..col]);
        TextWithLast(t, Last(t)[..col]);
        forall l | Oldest(lineCount) <= l < |t'|
          ensures SlotHolds(t', l)
        {
          assert old(SlotHolds(t, l));
          if l < lineCount {
            SlotsApart(l, lineCount, lineCount);
          }
        }
      }
    }

    // -- The screen --

    method ClearRow(r: nat)
      requires Geometry() && r < rows
      modifies grid
      ensures forall k, c | 0 <= k < rows && 0 <= c < cols :: grid[k, c] == if k == r then 0 else old(grid[k, c])
    {
      for c := 0 to cols
        invariant forall k, j | 0 <= k < rows && 0 <= j < cols ::
                    grid[k, j] == if k == r && j < c then 0 else old(grid[k, j])
      {
        grid[r, c] := 0;
      }
    }

    /** `tty_render_view`, one screen row: background, then the text of its line. */
    method RenderRow(sr: nat, first: int, ghost t: Transcript)
      requires Geometry() && Terminated() && sr < rows
      modifies grid
      ensures forall r, c | 0 <= r < rows && 0 <= c < cols && r != sr :: grid[r, c] == old(grid[r, c])
      ensures |t| == lineCount + 1 && RingHolds(t) && Oldest(lineCount) <= first + sr ==>
                forall c | 0 <= c < cols :: grid[sr, c] == Cell(t, first + sr, c)
    {
      ClearRow(sr);
      var logical := first + sr;
      if logical < 0 || logical > lineCount {
        return;
      }
      if lineCount >= 512 && logical <= lineCount - 512 {
        return;
      }
      var slot, c := logical % 512, 0;
      ghost var holds := |t| == lineCount + 1 && RingHolds(t);
      assert holds ==> SlotHolds(t, logical);
      while ring[slot, c] != 0
        invariant 0 <= c <= 255
        invariant forall r, k | 0 <= r < rows && 0 <= k < cols && r != sr :: grid[r, k] == old(grid[r, k])
        invariant forall k | c <= k < cols :: grid[sr, k] == 0
        invariant holds ==> c <= |t[logical]| && forall k | 0 <= k < c && k < cols :: grid[sr, k] == t[logical][k]
        decreases 256 - c
      {
        if c < cols {
          grid[sr, c] := ring[slot, c];
        }
        c := c + 1;
      }
    }

    /** `tty_render_view`: repaint the whole screen from the ring. No row shows a slot
        that a newer line has taken over, and a repaint of a screen that was drawn
        incrementally changes nothing. */
    method RenderView(ghost t: Transcript)
      requires Shape()
      modifies grid
      ensures t == lines && old(Agrees()) ==>
                forall r, c | 0 <= r < rows && 0 <= c < cols :: grid[r, c] == old(grid[r, c])
      ensures |t| == lineCount + 1 && RingHolds(t) && Oldest(lineCount) <= lineCount - row - offset ==>
                GridShows(t, lineCount - row - offset)
    {
      hide RingHolds;
      var first := lineCount - row - offset;
      for sr := 0 to rows
        invariant |t| == lineCount + 1 && RingHolds(t) && Oldest(lineCount) <= first ==>
                    forall r, c | 0 <= r < sr && 0 <= c < cols :: grid[r, c] == Cell(t, first + r, c)
      {
        RenderRow(sr, first, t);
      }
    }

    /** `tty_scroll`, by cells: every row moves up, the last becomes background. */
    method ScrollUp(first: int, ghost t: Transcript)
      requires Geometry()
      modifies grid
      ensures (old(GridShows(t, first)) || rows == 1) && first + rows >= |t| ==> GridShows(t, first + 1)
      ensures forall r, c | 0 <= r < rows && 0 <= c < cols ::
                grid[r, c] == if r + 1 < rows then old(grid[r + 1, c]) else 0
    {
      for r := 0 to rows - 1
        invariant forall k, c | 0 <= k < rows && 0 <= c < cols ::
                    grid[k, c] == if k < r then old(grid[k + 1, c]) else old(grid[k, c])
      {
        for j := 0 to cols
          invariant forall k, c | 0 <= k < rows && 0 <= c < cols ::
                      grid[k, c] == if k < r || (k == r && c < j) then old(grid[k + 1, c]) else old(grid[k, c])
        {
          grid[r, j] := grid[r + 1, j];
        }
      }
      ClearRow(rows - 1);
    }

    /** Draw one cell of the last line. */
    method DrawCell(r: nat, col: nat, c: byte, ghost t: Transcript, ghost line: seq<byte>)
      requires Geometry() && r < rows && col < cols
      modifies grid
      ensures old(GridShows(t, |t| - 1 - r)) && Redraws(t, line, col, c, cols) ==>
                GridShows(WithLast(t, line), |t| - 1 - r)
      ensures forall k, j | 0 <= k < rows && 0 <= j < cols ::
                grid[k, j] == if k == r && j == col then c else old(grid[k, j])
    {
      hide Glyph, WithLast;
      ghost var before := GridShows(t, |t| - 1 - r) && Redraws(t, line, col, c, cols);
      grid[r, col] := c;
      if before {
        ghost var first := |t| - 1 - r;
        forall k, j | 0 <= k < rows && 0 <= j < cols
          ensures grid[k, j] == Cell(WithLast(t, line), first + k, j)
        {
          CellWithLast(t, line, first + k, j);
        }
      }
    }

    // -- Characters --

    /** `tty_newline`. */
    method Newline()
      requires Shape() && offset == 0
      modifies this, ring, grid
      ensures Valid() && offset == 0 && lineCount == old(lineCount) + 1
      ensures lines == old(lines) + [[]]
      ensures old(InRing(lines)) && (old(GridShows(lines, lineCount - row)) || rows == 1) ==> Agrees()
      ensures rows >= 2 ==> row >= 1 && grid[row - 1, cols - 1] == old(grid[row, cols - 1])
    {
      hide RingHolds, GridShows, Terminated;
      column := 0;
      lineCount := lineCount + 1;
      StartLine(lines);
      var first := lineCount - 1 - row;
      if row + 1 >= rows {
        ScrollUp(first, lines);
      } else {
        row := row + 1;
      }
      ShowsNewLine(lines, lineCount - row);
      lines := lines + [[]];
    }

    lemma ShowsNewLine(t: Transcript, first: int)
      requires Geometry()
      ensures GridShows(t, first) ==> GridShows(t + [[]], first)
    {
      hide Cell;
      if GridShows(t, first) {
        forall r, c | 0 <= r < rows && 0 <= c < cols
          ensures grid[r, c] == Cell(t + [[]], first + r, c)
        {
          CellNewLine(t, first + r, c);
        }
      }
    }

    /** Draw a character at the cursor and append it to its line. */
    method PutGlyph(c: byte)
      requires Valid() && offset == 0
      modifies this, ring, grid
      ensures Shape() && offset == 0 && column == old(column) + 1 && row == old(row) && lineCount == old(lineCount)
      ensures grid[row, old(column)] == c && (old(column) < 255 ==> ring[lineCount % 512, old(column)] == c)
      ensures lines == if Recorded(old(lines), c) then WithLast(old(lines), Last(old(lines)) + [c]) else old(lines)
      ensures old(Agrees()) ==>
                && InRing(lines) && (Recorded(old(lines), c) ==> |Last(lines)| == column)
                && (Recorded(old(lines), c) || c == 0 ==> GridShows(lines, lineCount - row))
    {
      hide RingHolds, GridShows, Terminated, Redraws, WithLast;
      ghost var recorded := Recorded(lines, c);
      ghost var line := if recorded then Last(lines) + [c] else Last(lines);
      AppendRedraws(lines, c, cols);
      BlankRedraws(lines, cols);
      SameLast(lines);
      DrawCell(row, column, c, lines, line);
      if column < 255 {
        StoreChar(column, c, lines);
      }
      column := column + 1;
      lines := WithLast(lines, line);
    }

    /** The backspace branch inside a line. */
    method EraseChar()
      requires Valid() && offset == 0 && column > 0
      modifies this, ring, grid
      ensures Valid() && offset == 0
      ensures old(Agrees()) ==> Agrees() && lines == Feed(old(lines), BACKSPACE, cols)
    {
      hide RingHolds, GridShows, Terminated, Redraws;
      ghost var agrees := Agrees();
      column := column - 1;
      CutLine(column, lines);
      ghost var line := if agrees then Last(lines)[..column] else [];
      if agrees {
        CutRedraws(lines, cols);
      }
      DrawCell(row, column, 0, lines, line);
      lines := WithLast(lines, line);
    }

    /** The backspace branch at the start of a line: the cursor may leave it, the ring
        does not take part. */
    method StepBack()
      requires Valid() && offset == 0 && column == 0
      modifies this`row, this`column, grid
      ensures Valid()
      ensures if old(row) > 0 then row == old(row) - 1 && column == cols - 1 else row == 0 && column == 0
      ensures forall k, j | 0 <= k < rows && 0 <= j < cols ::
                grid[k, j] == if k == row && j == column then 0 else old(grid[k, j])
      ensures old(Agrees()) && old(row) == 0 ==> Agrees()
    {
      hide RingHolds, GridShows, Terminated, Redraws;
      if row > 0 {
        row := row - 1;
        column := cols - 1;
      }
      BlankRedraws(lines, cols);
      SameLast(lines);
      DrawCell(row, column, 0, lines, Last(lines));
    }

    /** A transcript that agrees has text up to the cursor. */
    lemma TextAtCursor(t: Transcript)
      requires Geometry() && AgreesWith(t) && column > 0
      ensures column <= 255 && ring[lineCount % 512, column - 1] != 0
    {
      assert SlotHolds(t, lineCount);
      assert TextLine(t[lineCount]);
      assert ring[lineCount % 512, column - 1] == t[lineCount][column - 1];
    }

    /** A transcript that agrees has nothing in column 255 of the line above. */
    lemma BlankAbove(t: Transcript)
      requires Geometry() && AgreesWith(t) && cols == 256 && lineCount > 0 && 0 < row < rows && offset == 0
      ensures grid[row - 1, 255] == 0
    {
      assert TextLine(t[lineCount - 1]);
      assert grid[row - 1, 255] == Cell(t, lineCount - row + (row - 1), 255);
    }

    /** The branch for a character that is neither newline nor backspace. */
    method PutOther(c: byte)
      requires Valid() && offset == 0 && c != NEWLINE && c != BACKSPACE
      modifies this, ring, grid
      ensures Valid() && offset == 0
      ensures old(Agrees()) && Benign(old(lines), c, cols, rows) ==> Agrees() && lines == Feed(old(lines), c, cols)
      ensures old(Agrees()) && !Benign(old(lines), c, cols, rows) ==> forall t: Transcript :: !AgreesWith(t)
    {
      hide RingHolds, GridShows, Terminated, SlotHolds;
      ghost var lost := Agrees() && !Benign(lines, c, cols, rows);
      PutGlyph(c);
      if column >= cols {
        Newline();
      }
      if lost {
        forall t: Transcript
          ensures !AgreesWith(t)
        {
          if AgreesWith(t) {
            if c == 0 {
              TextAtCursor(t);
            } else {
              BlankAbove(t);
            }
            assert false;
          }
        }
      }
    }

    /** `terminal_putchar`. A character keeps ring, cursor and screen in agreement with
        some transcript if and only if it is benign, and then the transcript is fed. */
    method PutChar(c: byte)
      requires Valid()
      modifies this, ring, grid
      ensures Valid() && offset == 0
      ensures old(Agrees()) && Benign(old(lines), c, cols, rows) ==> Agrees() && lines == Feed(old(lines), c, cols)
      ensures old(Agrees()) && !Benign(old(lines), c, cols, rows) ==> forall t: Transcript :: !AgreesWith(t)
      ensures old(Agrees()) && old(offset) == 0 && c == BACKSPACE && old(column) == 0 && old(row) > 0 ==>
                && row == old(row) - 1 && lineCount == old(lineCount) && lines == old(lines) && RingHolds(lines)
                && forall k, j | 0 <= k < rows && 0 <= j < cols - 1 :: grid[k, j] == old(grid[k, j])
      ensures old(Agrees()) && c == 10 ==> lines == old(lines) + [[]] && column == 0
      ensures old(Agrees()) && c == 8 && Last(old(lines)) != [] ==>
                && |lines| == |old(lines)| && lines[..|lines| - 1] == old(lines)[..|lines| - 1]
                && Last(lines) == Last(old(lines))[..column] && column + 1 == |Last(old(lines))|
      ensures old(Agrees()) && c !in {0, 8, 10} && |Last(old(lines))| < 255 ==>
                lines == Typed(old(lines), c, cols)
    {
      hide RingHolds, GridShows, Terminated;
      if offset != 0 {
        offset := 0;
        RenderView(lines);
      }
      if c == NEWLINE {
        Newline();
      } else if c != BACKSPACE {
        PutOther(c);
      } else if column > 0 {
        EraseChar();
      } else {
        StepBack();
      }
    }

    /** `tty_write`: after any run of benign characters the screen is a window of the
        transcript of the whole run, and so is every repaint from the ring. */
    method Write(s: seq<byte>)
      requires Valid()
      modifies this, ring, grid
      ensures Valid()
      ensures old(Agrees()) && BenignAll(old(lines), s, cols, rows) ==>
                Agrees() && lines == FeedAll(old(lines), s, cols)
    {
      hide RingHolds, GridShows, Terminated, Feed, Benign;
      ghost var t := lines;
      for i := 0 to |s|
        invariant Valid()
        invariant old(Agrees()) && BenignAll(t, s[..i], cols, rows) ==> Agrees() && lines == FeedAll(t, s[..i], cols)
      {
        assert s[..i + 1][..i] == s[..i];
        PutChar(s[i]);
      }
      assert s[..|s|] == s;
    }

    /** `tty_scroll_view`: any request shows the window of the transcript that starts
        that many lines higher, as far up as the ring still holds. */
    method ScrollView(delta: int)
      requires Valid()
      modifies this`offset, grid
      ensures Valid()
      ensures old(Agrees()) ==> Agrees()
      ensures old(Agrees()) ==>
                var oldest, newest := if lineCount < 512 then 0 else lineCount - 511, lineCount - row;
                var asked := newest - old(offset) - delta;
                lineCount - row - offset == if asked > newest then newest else if asked < oldest then oldest else asked
      ensures offset == if old(offset) + delta < 0 then 0
                        else if old(offset) + delta > MaxScrollback() then MaxScrollback() else old(offset) + delta
    {
      hide RingHolds, GridShows, Terminated;
      var next := offset + delta;
      var max := MaxScrollback();
      if next < 0 { next := 0; }
      if next > max { next := max; }
      if next == offset {
        return;
      }
      offset := next;
      RenderView(lines);
    }

    /** `tty_clear`. */
    method Clear()
      requires Valid()
      modifies this, ring, grid
      ensures Valid() && Agrees() && lines == [[]] && offset == 0
    {
      for r := 0 to rows
        invariant Valid()
        invariant forall k, c | 0 <= k < r && 0 <= c < cols :: grid[k, c] == 0
      {
        ClearRow(r);
      }
      row, column, lineCount, offset := 0, 0, 0, 0;
      ring[0, 0] := 0;
      lines := [[]];
    }

    /** The static state at boot, then `tty_clear` as in `init_tty`. */
    constructor (cols: nat, rows: nat)
      requires 1 <= cols <= 256 && 1 <= rows <= 512
      ensures Valid() && Agrees() && lines == [[]] && this.cols == cols && this.rows == rows
      ensures fresh(ring) && fresh(grid)
    {
      this.cols, this.rows := cols, rows;
      ring := new byte[512, 256]((_, _) => 0);
      grid := new byte[rows, cols]((_, _) => 0);
      row, column, lineCount, offset := 0, 0, 0, 0;
      lines := [[]];
      new;
      Clear();
    }
  }

  /** The scrollback does suffer from a backspace at the start of a line: on every screen
      of at least two rows and columns, "a", newline, backspace leaves the "a" on screen,
      and the next repaint removes it. */
  method BackspaceLosesText(cols: nat, rows: nat) returns (drawn: byte, repainted: byte)
    requires 2 <= cols <= 256 && 2 <= rows <= 512
    ensures drawn == 97 && repainted == 0
  {
    hide Tty.RingHolds, Tty.Terminated;
    FirstLine(cols);
    var tty := new Tty(cols, rows);
    tty.PutChar(97);
    tty.PutChar(10);
    assert tty.lines == [[97], []];
    assert tty.grid[0, 0] == Cell(tty.lines, 0, 0);
    tty.PutChar(8);
    drawn := tty.grid[0, 0];
    tty.RenderView(tty.lines);
    repainted := tty.grid[0, 0];
    assert repainted == Cell(tty.lines, tty.lineCount - tty.row - tty.offset + 0, 0);
  }

  lemma FirstLine(cols: nat)
    requires cols >= 2
    ensures Feed([[]], 97, cols) == [[97]]
  {
    var line: seq<byte> := [];
    assert line + [97] == [97] && [line][..0] + [[97]] == [[97]];
  }
}
