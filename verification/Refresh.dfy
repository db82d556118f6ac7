/** The two redraw routines of linenoise.cpp, against the terminal they write to. */
module Refresh {
  import opened Screen

  // ---------------------------------------------------------------------
  // Multi-line mode
  // ---------------------------------------------------------------------

  /** Before the first redraw `maxrows` is zero, but the prompt already has a row. */
  function Managed(maxrows: nat): nat {
    if maxrows == 0 then 1 else maxrows
  }

  /**
   * The screen shows `shown` wrapped from row `base` and nothing below, the cursor is at offset `p`
   * of it, and the rows the editor manages cover both.
   */
  ghost predicate Drawn(s: Screen, base: nat, shown: string, p: nat, maxrows: nat) {
    && s.Valid()
    && Shows(s, base, shown)
    && CursorAt(s, base, p)
    && p / s.cols < Managed(maxrows)
    && |shown| <= Managed(maxrows) * s.cols
  }

  ghost predicate CursorAt(s: Screen, base: nat, p: nat)
    requires s.Valid()
  {
    s.row == base + p / s.cols && s.col == p % s.cols
  }

  ghost predicate BlankFrom(s: Screen, row: nat) {
    forall r: nat | row <= r :: s.RowAt(r) == Blanks(s.cols)
  }

  /** Rows past the end of the text are blank. */
  lemma {:induction false} LinePastEnd(text: string, w: nat, j: nat, m: nat)
    requires |text| <= m * w && m <= j
    ensures Line(text, w, j) == Blanks(w)
  {
    assert (j - m) * w >= 0;
    assert j * w == m * w + (j - m) * w;
    forall k: nat | k < w
      ensures Line(text, w, j)[k] == Blanks(w)[k]
    {
      LineAt(text, w, j, k);
    }
  }

  lemma {:induction false} BlankBelowText(s: Screen, base: nat, shown: string, m: nat)
    requires s.Valid() && Shows(s, base, shown) && |shown| <= m * s.cols
    ensures BlankFrom(s, base + m)
  {
    forall r: nat | base + m <= r
      ensures s.RowAt(r) == Blanks(s.cols)
    {
      assert s.RowAt(base + (r - base)) == Line(shown, s.cols, r - base);
      LinePastEnd(shown, s.cols, r - base, m);
    }
  }

  lemma {:induction false} BlankShowsNothing(s: Screen, base: nat)
    requires s.Valid() && BlankFrom(s, base)
    ensures Shows(s, base, "")
  {
    forall j: nat
      ensures s.RowAt(base + j) == Line("", s.cols, j)
    {
      LinePastEnd("", s.cols, j, 0);
    }
  }

  /** Erasing the lowest row in use leaves one row fewer to erase. */
  lemma {:induction false} EraseRow(s: Screen)
    requires s.Valid() && BlankFrom(s, s.row + 1)
    ensures var t := Run(s, [CR, EL]);
            BlankFrom(t, s.row) && SameAbove(s, t, s.row) && t.row == s.row && t.col == 0
  {
    var s1 := Apply(s, CR);
    var t := Apply(s1, EL);
    RunTwo(s, CR, EL);
    assert Blanks(0) + Blanks(s.cols) == Blanks(s.cols);
    assert t.RowAt(s.row) == Blanks(s.cols);
    forall r: nat | s.row <= r
      ensures t.RowAt(r) == Blanks(s.cols)
    {
      assert r != s.row ==> t.RowAt(r) == s.RowAt(r);
    }
  }

  lemma {:induction false} RowOf(p: nat, w: nat)
    requires 0 < w
    ensures (p + w) / w == p / w + 1
  {
    DivMod(p, w, 0, 0);
    assert (p / w + 1) * w == p / w * w + w;
    DivMod(p + w, w, p / w + 1, p % w);
  }

  lemma {:induction false} RowsUsed(n: nat, w: nat)
    requires 0 < w
    ensures (n + w - 1) / w == if n % w == 0 then n / w else n / w + 1
    ensures n <= (n + w - 1) / w * w < n + w
  {
    DivMod(n, w, 0, 0);
    RowsUsedAt(n, w, n / w, n % w);
  }

  lemma {:induction false} RowsUsedAt(n: nat, w: nat, q: nat, r: nat)
    requires n == q * w + r && r < w
    ensures var rows := if r == 0 then q else q + 1;
            (n + w - 1) / w == rows && n <= rows * w < n + w
  {
    assert (q + 1) * w == q * w + w;
    if r == 0 {
      DivMod(n + w - 1, w, q, w - 1);
    } else {
      DivMod(n + w - 1, w, q + 1, r - 1);
    }
  }

  /** How the rows of a text of `n` characters compare with the row of offset `p` in it. */
  lemma {:induction false} RowArithmetic(n: nat, p: nat, w: nat)
    requires 0 < w && p <= n
    ensures (p + w) / w == p / w + 1
    ensures p < n ==> p / w + 1 <= (n + w - 1) / w
    ensures p == n ==> (n + w - 1) / w == if n % w == 0 then p / w else p / w + 1
  {
    RowOf(p, w);
    RowsUsed(n, w);
    if p < n {
      NextCell(n, w);
      DivOrder(p, n - 1, w);
    }
  }

  lemma {:induction false} DivOrder(a: nat, b: nat, w: nat)
    requires 0 < w && a <= b
    ensures a / w <= b / w
  {
    DivMod(a, w, 0, 0);
    DivMod(b, w, 0, 0);
    Multiple(b / w - a / w, w);
    assert (b / w - a / w) * w == b / w * w - a / w * w;
  }

  /** One pass of the clearing loop. */
  lemma {:induction false} ClearAndUp(s: Screen, base: nat)
    requires s.Valid() && base < s.row && BlankFrom(s, s.row + 1)
    ensures var t := Run(s, [CR, EL, CUU(1)]);
            BlankFrom(t, s.row) && SameAbove(s, t, base) && t.row == s.row - 1
  {
    EraseRow(s);
    var u := Run(s, [CR, EL]);
    assert [CR, EL, CUU(1)] == [CR, EL] + [CUU(1)];
    RunConcat(s, [CR, EL], [CUU(1)]);
    RunOne(u, CUU(1));
    var t := Apply(u, CUU(1));
    assert forall r: nat :: t.RowAt(r) == u.RowAt(r);
  }

  /** Control functions that move the cursor leave the rows alone. */
  lemma MovesOnly(s: Screen, op: Op)
    requires s.Valid() && !op.Ch? && !op.EL? && !op.ED?
    ensures Run(s, [op]) == Apply(s, op) && Apply(s, op).rows == s.rows
    ensures op.CUD? ==> Run(s, [op]).row == s.row + Count(op.n)
  {
    RunOne(s, op);
  }

  lemma SameRows(s: Screen, t: Screen, base: nat, text: string, row: nat)
    requires s.Valid() && t.Valid() && s.rows == t.rows && s.cols == t.cols
    ensures Shows(s, base, text) ==> Shows(t, base, text)
    ensures BlankFrom(s, row) ==> BlankFrom(t, row)
    ensures SameAbove(s, t, base)
  {
    assert forall r: nat :: t.RowAt(r) == s.RowAt(r);
  }

  lemma SameAboveTrans(s: Screen, t: Screen, u: Screen, base: nat)
    requires SameAbove(s, t, base) && SameAbove(t, u, base)
    ensures SameAbove(s, u, base)
  {
  }

  /**
   * The one case in which the cursor ends up a row too high: an empty line after a prompt that
   * fills its rows exactly.
   */
  predicate PromptFillsRows(plen: nat, len: nat, cols: nat)
    requires 0 < cols
  {
    len == 0 && plen > 0 && plen % cols == 0
  }

  /** The screen after `ops`, given the screen after what was appended before. */
  lemma Appended(s: Screen, ab: seq<Op>, t: Screen, ops: seq<Op>, base: nat)
    requires s.Valid() && t == Run(s, ab) && SameAbove(s, t, base) && SameAbove(t, Run(t, ops), base)
    ensures Run(s, ab + ops) == Run(t, ops) && SameAbove(s, Run(t, ops), base)
  {
    RunConcat(s, ab, ops);
  }

  /** The screen as Ctrl-L leaves it. */
  ghost predicate Cleared(s: Screen, base: nat) {
    s.Valid() && base == 0 && s.row == 0 && s.col == 0 && BlankFrom(s, 0)
  }

  /** One pass of the clearing loop, on a screen that is already clear: going up stops at the top. */
  lemma {:induction false} ClearAndUpClear(s: Screen)
    requires s.Valid() && BlankFrom(s, 0)
    ensures var t := Run(s, [CR, EL, CUU(1)]);
            BlankFrom(t, 0) && SameAbove(s, t, 0) && t.row == if s.row == 0 then 0 else s.row - 1
  {
    EraseRow(s);
    var u := Run(s, [CR, EL]);
    assert [CR, EL, CUU(1)] == [CR, EL] + [CUU(1)];
    RunConcat(s, [CR, EL], [CUU(1)]);
    RunOne(u, CUU(1));
    var t := Apply(u, CUU(1));
    forall r: nat
      ensures t.RowAt(r) == Blanks(t.cols)
    {
      assert r < s.row ==> u.RowAt(r) == s.RowAt(r);
      assert t.RowAt(r) == u.RowAt(r);
    }
  }

  /** The first step: from wherever the cursor is, clear every row in use, and end at the top one. */
  method ClearOutput(oldmax: nat, rpos: nat, ghost s: Screen, ghost base: nat) returns (ab: seq<Op>)
    requires s.Valid() && BlankFrom(s, base + Managed(oldmax))
    requires 1 <= rpos <= Managed(oldmax)
    requires s.row + 1 == base + rpos || Cleared(s, base)
    ensures var t := Run(s, ab);
            Shows(t, base, "") && t.row == base && t.col == 0 && SameAbove(s, t, base)
  {
    hide Shows, BlankFrom, SameAbove, Apply, Run;
    ab := [];
    ghost var t := s;
    ghost var clear := s.row + 1 != base + rpos;
    RunNone(s);
    SameRows(s, s, base, "", 0);
    if oldmax > rpos {
      var down := CUD(oldmax - rpos);
      MovesOnly(s, down);
      t := Run(s, [down]);
      SameRows(s, t, base, "", base + Managed(oldmax));
      SameRows(s, t, base, "", 0);
      ab := [down];
    }
    var j := 0;
    while j < oldmax - 1
      invariant 0 <= j <= Managed(oldmax) - 1
      invariant t.Valid() && t == Run(s, ab) && SameAbove(s, t, base)
      invariant if clear then base == 0 && t.row <= Managed(oldmax) - 1 - j && BlankFrom(t, 0)
                else t.row == base + Managed(oldmax) - 1 - j && BlankFrom(t, t.row + 1)
    {
      var step := [CR, EL, CUU(1)];
      if clear { ClearAndUpClear(t); } else { ClearAndUp(t, base); }
      Appended(s, ab, t, step, base);
      ab, t := ab + step, Run(t, step);
      j := j + 1;
    }
    BlankLower(t, 0, t.row + 1);
    EraseRow(t);
    Appended(s, ab, t, [CR, EL], base);
    BlankShowsNothing(Run(t, [CR, EL]), base);
    ab := ab + [CR, EL];
  }

  lemma BlankLower(s: Screen, a: nat, b: nat)
    requires a <= b
    ensures BlankFrom(s, a) ==> BlankFrom(s, b)
  {
  }

  predicate NewlineDue(plen: nat, len: nat, pos: nat, cols: nat)
    requires 0 < cols
  {
    pos > 0 && pos == len && (pos + plen) % cols == 0
  }

  /** Going up from below the text by the difference of the row counts reaches the cursor's row. */
  lemma {:induction false} CursorRow(plen: nat, len: nat, pos: nat, cols: nat)
    requires 0 < cols && pos <= len
    ensures var n, p := plen + len, plen + pos;
            var down := if NewlineDue(plen, len, pos, cols) then 1 else 0;
            var rows := (n + cols - 1) / cols + down;
            var below := (if n == 0 then 0 else (n - 1) / cols) + down;
            var up := if rows > (p + cols) / cols then rows - (p + cols) / cols else 0;
            && (p + cols) / cols == p / cols + 1
            && up <= below
            && (below - up == p / cols <==> !PromptFillsRows(plen, len, cols))
            && (below - up == p / cols ==> p / cols < Managed(rows))
            && (down == 1 ==> (rows - 1) * cols <= n)
  {
    var n, p := plen + len, plen + pos;
    RowArithmetic(n, p, cols);
    RowsUsed(n, cols);
    DivMod(n, cols, 0, 0);
    if n > 0 { NextCell(n, cols); }
  }

  lemma AtStart(s: Screen, base: nat)
    requires s.Valid() && s.row == base && s.col == 0
    ensures AfterChars(s, base, |""|)
  {
  }

  /** The last step: from the end of the text to the place of the cursor in it. */
  method CursorOutput(plen: nat, len: nat, pos: nat, cols: nat, rows0: nat, max0: nat, ghost s: Screen, ghost base: nat)
    returns (ab: seq<Op>, maxrows: nat)
    requires s.Valid() && s.cols == cols && pos <= len
    requires AfterChars(s, base, plen + len)
    requires rows0 == (plen + len + cols - 1) / cols && rows0 <= max0
    ensures var t := Run(s, ab);
            t.rows == s.rows && (CursorAt(t, base, plen + pos) <==> !PromptFillsRows(plen, len, cols))
    ensures max0 <= maxrows && (maxrows == max0 || (maxrows - 1) * cols <= plen + len)
    ensures !PromptFillsRows(plen, len, cols) ==> (plen + pos) / cols < Managed(maxrows)
  {
    hide Run, PromptFillsRows;
    ghost var p := plen + pos;
    var rows := rows0;
    maxrows := max0;
    ab := [];
    ghost var t := s;
    RunNone(s);
    CursorRow(plen, len, pos, cols);
    if pos > 0 && pos == len && (pos + plen) % cols == 0 {
      RunTwo(s, LF, CR);
      ab := [LF, CR];
      t := Run(s, ab);
      rows := rows + 1;
      if rows > maxrows { maxrows := rows; }
    }
    var rpos2 := (plen + pos + cols) / cols;
    if rows > rpos2 {
      var up := CUU(rows - rpos2);
      RunConcat(s, ab, [up]);
      RunOne(t, up);
      ab := ab + [up];
      t := Run(s, ab);
    }
    assert t.rows == s.rows;
    assert t.row == base + p / cols <==> !PromptFillsRows(plen, len, cols);
    var col := (plen + pos) % cols;
    var last := if col != 0 then [CR, CUF(col)] else [CR];
    SetColumn(t, col);
    RunConcat(s, ab, last);
    ab := ab + last;
  }

  lemma SetColumn(s: Screen, col: nat)
    requires s.Valid() && col < s.cols
    ensures Run(s, if col != 0 then [CR, CUF(col)] else [CR]) == s.(col := col)
  {
    RunOne(s, CR);
    RunTwo(s, CR, CUF(col));
  }

  /** What a redraw may start from: the line drawn before, or a cleared screen. */
  ghost predicate Redrawable(s: Screen, base: nat, shown: string, p: nat, maxrows: nat) {
    Drawn(s, base, shown, p, maxrows) || (Cleared(s, base) && p / s.cols < Managed(maxrows))
  }

  /**
   * refreshMultiLine(): what it writes, and the new `maxrows`. Whatever was shown before, the
   * screen then shows the prompt and the text and nothing else.
   */
  method MultiLineOutput(prompt: string, text: string, pos: nat, oldpos: nat, oldmax: nat, cols: nat,
                         ghost s: Screen, ghost base: nat, ghost shown: string)
    returns (ab: seq<Op>, maxrows: nat)
    requires pos <= |text|
    requires Redrawable(s, base, shown, |prompt| + oldpos, oldmax) && s.cols == cols
    ensures var t := Run(s, ab);
            && Shows(t, base, prompt + text)
            && SameAbove(s, t, base)
            && (CursorAt(t, base, |prompt| + pos) <==> !PromptFillsRows(|prompt|, |text|, cols))
            && (!PromptFillsRows(|prompt|, |text|, cols) ==> Drawn(t, base, prompt + text, |prompt| + pos, maxrows))
    ensures oldmax <= maxrows && (maxrows == oldmax || (maxrows - 1) * cols <= |prompt + text|)
  {
    hide Shows, BlankFrom, SameAbove, Apply, Run, AfterChars, CursorAt, PromptFillsRows, Drawn, Redrawable, Cleared;
    RedrawableIs(s, base, shown, |prompt| + oldpos, oldmax);
    var plen, len := |prompt|, |text|;
    var rows := (plen + len + cols - 1) / cols;
    var rpos := (plen + oldpos + cols) / cols;
    maxrows := if rows > oldmax then rows else oldmax;
    RowOf(plen + oldpos, cols);

    ab := ClearOutput(oldmax, rpos, s, base);
    ghost var t := Run(s, ab);

    var line := prompt + text;
    AtStart(t, base);
    PrintShows(t, base, "", line);
    Appended(s, ab, t, Chars(line), base);
    assert "" + line == line && Chars(prompt) + Chars(text) == Chars(line);
    ab, t := ab + (Chars(prompt) + Chars(text)), Run(t, Chars(line));

    var move;
    move, maxrows := CursorOutput(plen, len, pos, cols, rows, maxrows, t, base);
    SameRows(t, Run(t, move), base, line, 0);
    Appended(s, ab, t, move, base);
    ab := ab + move;
    Covers(plen + len, cols, rows, maxrows);
    if !PromptFillsRows(plen, len, cols) {
      Redrawn(Run(s, ab), base, line, plen + pos, maxrows);
    }
  }

  /** What the first step needs of the screen. */
  lemma {:induction false} RedrawableIs(s: Screen, base: nat, shown: string, p: nat, maxrows: nat)
    requires Redrawable(s, base, shown, p, maxrows)
    ensures s.Valid() && BlankFrom(s, base + Managed(maxrows)) && p / s.cols < Managed(maxrows)
    ensures s.row == base + p / s.cols || Cleared(s, base)
  {
    if Drawn(s, base, shown, p, maxrows) {
      BlankBelowText(s, base, shown, Managed(maxrows));
    }
  }

  lemma Redrawn(t: Screen, base: nat, line: string, p: nat, maxrows: nat)
    requires t.Valid() && Shows(t, base, line) && CursorAt(t, base, p)
    requires p / t.cols < Managed(maxrows) && |line| <= Managed(maxrows) * t.cols
    ensures Drawn(t, base, line, p, maxrows)
  {
  }

  lemma {:induction false} Covers(n: nat, cols: nat, rows: nat, maxrows: nat)
    requires 0 < cols && rows == (n + cols - 1) / cols && rows <= maxrows
    ensures n <= Managed(maxrows) * cols && (rows == 0 || (rows - 1) * cols <= n)
  {
    RowsUsed(n, cols);
    MulOrder(rows, Managed(maxrows), cols);
    assert rows * cols == (rows - 1) * cols + cols;
  }

  lemma MulOrder(a: nat, b: nat, w: nat)
    requires a <= b
    ensures a * w <= b * w
  {
    assert (b - a) * w >= 0;
  }

  // ---------------------------------------------------------------------
  // Single-line mode
  // ---------------------------------------------------------------------

  /** The first character shown: the one that leaves the cursor in the last column, if it must move. */
  function WindowStart(plen: nat, pos: nat, cols: nat): nat
    requires plen < cols
  {
    if plen + pos >= cols then plen + pos - cols + 1 else 0
  }

  /** The part of the text beside the prompt: as much from the start of the window as fits. */
  function Window(plen: nat, text: string, pos: nat, cols: nat): (window: string)
    requires plen < cols && pos <= |text|
    ensures plen + |window| <= cols
    ensures pos - WindowStart(plen, pos, cols) <= |window|
  {
    var from := WindowStart(plen, pos, cols);
    if plen + |text| - from <= cols then text[from..] else text[from..from + cols - plen]
  }

  function Padded(text: string, cols: nat): (cells: seq<char>)
    requires |text| <= cols
    ensures |cells| == cols
  {
    text + Blanks(cols - |text|)
  }

  ghost predicate SameElsewhere(s: Screen, t: Screen, row: nat) {
    forall r: nat | r != row :: s.RowAt(r) == t.RowAt(r)
  }

  /** The cursor's row shows the prompt and the window, and the cursor is at its place in the window. */
  ghost predicate LineDrawn(s: Screen, prompt: string, text: string, pos: nat)
    requires |prompt| < s.cols && pos <= |text|
  {
    && s.Valid()
    && s.RowAt(s.row) == Padded(prompt + Window(|prompt|, text, pos, s.cols), s.cols)
    && s.col == |prompt| + pos - WindowStart(|prompt|, pos, s.cols)
  }

  /** The cells of such a row: the prompt, then the text around the cursor, which is in column `col`, then blanks. */
  lemma {:induction false} WindowCells(prompt: string, text: string, pos: nat, cols: nat)
    requires |prompt| < cols && pos <= |text|
    ensures var row := Padded(prompt + Window(|prompt|, text, pos, cols), cols);
            var col := if |prompt| + pos < cols then |prompt| + pos else cols - 1;
            && |prompt| + pos - WindowStart(|prompt|, pos, cols) == col
            && (forall k | 0 <= k < |prompt| :: row[k] == prompt[k])
            && forall k | |prompt| <= k < cols ::
                 row[k] == if pos - col + k < |text| then text[pos - col + k] else ' '
  {
  }

  /** In single-line mode a line is on the screen exactly when the cursor and every cell of its row are so. */
  lemma {:induction false} LineDrawnMeans(s: Screen, prompt: string, text: string, pos: nat)
    requires s.Valid() && |prompt| < s.cols && pos <= |text|
    ensures var col := if |prompt| + pos < s.cols then |prompt| + pos else s.cols - 1;
            LineDrawn(s, prompt, text, pos) <==>
              && s.col == col
              && (forall k | 0 <= k < |prompt| :: s.RowAt(s.row)[k] == prompt[k])
              && forall k | |prompt| <= k < s.cols ::
                   s.RowAt(s.row)[k] == if pos - col + k < |text| then text[pos - col + k] else ' '
  {
    hide Padded, Window, WindowStart;
    WindowCells(prompt, text, pos, s.cols);
    var row := Padded(prompt + Window(|prompt|, text, pos, s.cols), s.cols);
    var now := s.RowAt(s.row);
    assert now == row <==> forall k | 0 <= k < s.cols :: now[k] == row[k];
  }

  /** A row with `text` written over it from column `col`. */
  function Overlay(cells: seq<char>, col: nat, text: string): (r: seq<char>)
    requires col + |text| <= |cells|
    ensures |r| == |cells|
  {
    cells[..col] + text + cells[col + |text|..]
  }

  lemma {:induction false} OverlayOne(cells: seq<char>, col: nat, text: string)
    requires text != "" && col + |text| <= |cells|
    ensures Overlay(cells[col := text[0]], col + 1, text[1..]) == Overlay(cells, col, text)
  {
    var next := cells[col := text[0]];
    assert next[..col + 1] == cells[..col] + [text[0]];
    assert next[col + 1 + |text[1..]|..] == cells[col + |text|..];
    assert [text[0]] + text[1..] == text;
  }

  /** Writing text that fits in the row replaces cells of that row. */
  lemma {:induction false} PrintInRow(s: Screen, text: string)
    requires s.Valid() && s.col + |text| <= s.cols
    ensures var t := Run(s, Chars(text));
            && t.row == s.row && t.col == s.col + |text|
            && t.RowAt(s.row) == Overlay(s.RowAt(s.row), s.col, text)
            && SameElsewhere(s, t, s.row)
    decreases |text|
  {
    hide Overlay;
    if text == "" {
      OverlayNothing(s.RowAt(s.row), s.col);
    } else {
      var u := Apply(s, Ch(text[0]));
      assert Chars(text)[1..] == Chars(text[1..]);
      PrintInRow(u, text[1..]);
      OverlayOne(s.RowAt(s.row), s.col, text);
    }
  }

  lemma OverlayNothing(cells: seq<char>, col: nat)
    requires col <= |cells|
    ensures Overlay(cells, col, "") == cells
  {
  }

  /** Carriage return, text, erase to the end: the row holds the text and blanks, whatever it held. */
  lemma {:induction false} RewriteRow(s: Screen, text: string)
    requires s.Valid() && |text| <= s.cols
    ensures var t := Run(s, [CR] + Chars(text) + [EL]);
            t.row == s.row && t.RowAt(s.row) == Padded(text, s.cols) && SameElsewhere(s, t, s.row)
  {
    hide Run;
    var s1 := Apply(s, CR);
    RunOne(s, CR);
    RunConcat(s, [CR], Chars(text));
    PrintInRow(s1, text);
    var s2 := Run(s1, Chars(text));
    RunConcat(s, [CR] + Chars(text), [EL]);
    RunOne(s2, EL);
    assert s2.RowAt(s.row)[..|text|] == text;
    forall r: nat | r != s.row
      ensures s.RowAt(r) == Apply(s2, EL).RowAt(r)
    {
      assert s1.RowAt(r) == s2.RowAt(r);
    }
  }

  /**
   * refreshSingleLine(): a part of the text that contains the cursor and fits beside the prompt is
   * what the row then shows. The cursor is right except in column 0, which `ESC [ 0 C` leaves.
   */
  method SingleLineOutput(prompt: string, text: string, pos0: nat, cols: nat, ghost s: Screen)
    returns (ab: seq<Op>)
    requires pos0 <= |text| && |prompt| < cols
    requires s.Valid() && s.cols == cols
    ensures var t := Run(s, ab);
            && t.row == s.row
            && t.RowAt(s.row) == Padded(prompt + Window(|prompt|, text, pos0, cols), cols)
            && SameElsewhere(s, t, s.row)
            && (LineDrawn(t, prompt, text, pos0) <==> |prompt| + pos0 > 0 || cols == 1)
    ensures var t := Run(s, ab);
            var col := if |prompt| + pos0 < cols then |prompt| + pos0 else cols - 1;
            && t.col == (if |prompt| + pos0 == 0 && cols > 1 then 1 else col)
            && (forall k | 0 <= k < |prompt| :: t.RowAt(s.row)[k] == prompt[k])
            && forall k | |prompt| <= k < cols ::
                 t.RowAt(s.row)[k] == if pos0 - col + k < |text| then text[pos0 - col + k] else ' '
  {
    hide Run, Apply, SameElsewhere;
    var plen := |prompt|;
    var buf, len, pos := 0, |text|, pos0;
    while plen + pos >= cols
      invariant buf + len == |text| && buf + pos == pos0 && pos <= len
      invariant buf == 0 || plen + pos >= cols - 1
    {
      buf := buf + 1;
      len := len - 1;
      pos := pos - 1;
    }
    assert buf == WindowStart(plen, pos0, cols);
    while plen + len > cols
      invariant buf + len <= |text| && pos <= len
      invariant buf + len == |text| || plen + len >= cols
    {
      len := len - 1;
    }
    ghost var window := Window(plen, text, pos0, cols);
    WindowIs(plen, text, pos0, cols, buf, len);

    var row := [CR] + Chars(prompt) + Chars(text[buf..buf + len]) + [EL];
    assert row == [CR] + Chars(prompt + window) + [EL];
    RewriteRow(s, prompt + window);
    ghost var t := Run(s, row);
    var back := [CR, CUF(pos + plen)];
    RunTwo(t, CR, CUF(pos + plen));
    RunConcat(s, row, back);
    ab := row + back;
    MovedRight(t, pos + plen);
    WindowCells(prompt, text, pos0, cols);
    SameElsewhereMoved(s, t, Run(t, back), s.row);
  }

  /** What the two loops leave is the window. */
  lemma WindowIs(plen: nat, text: string, pos: nat, cols: nat, buf: nat, len: nat)
    requires plen < cols && pos <= |text| && buf == WindowStart(plen, pos, cols)
    requires buf + len <= |text| && plen + len <= cols && (buf + len == |text| || plen + len >= cols)
    ensures text[buf..buf + len] == Window(plen, text, pos, cols)
  {
  }

  lemma MovedRight(t: Screen, n: nat)
    requires t.Valid() && n < t.cols
    ensures var u := Apply(Apply(t, CR), CUF(n));
            u.rows == t.rows && u.row == t.row && u.col == if n == 0 && t.cols > 1 then 1 else n
  {
  }

  lemma SameElsewhereMoved(s: Screen, t: Screen, u: Screen, row: nat)
    requires SameElsewhere(s, t, row) && t.rows == u.rows && t.cols == u.cols
    ensures SameElsewhere(s, u, row) && u.RowAt(row) == t.RowAt(row)
  {
  }

  /**
   * The trivial case of an insertion: with room to spare, writing just the character at the end of
   * the line draws the new line too.
   */
  lemma {:induction false} FastPath(s: Screen, prompt: string, text: string, c: char)
    requires |prompt| + |text| + 1 < s.cols && LineDrawn(s, prompt, text, |text|)
    ensures var t := Run(s, [Ch(c)]);
            t.row == s.row && LineDrawn(t, prompt, text + [c], |text| + 1) && SameElsewhere(s, t, s.row)
  {
    assert Chars([c]) == [Ch(c)];
    PrintInRow(s, [c]);
    assert Window(|prompt|, text, |text|, s.cols) == text;
    assert Window(|prompt|, text + [c], |text| + 1, s.cols) == text + [c];
    var n := s.cols - |prompt + text|;
    assert Blanks(n)[1..] == Blanks(n - 1);
    assert s.RowAt(s.row)[s.col + 1..] == Blanks(n - 1);
    assert prompt + text + [c] == prompt + (text + [c]);
  }

  /** Hence the fast path and the full redraw leave the very same screen. */
  lemma {:induction false} FastPathIsRedraw(s: Screen, prompt: string, text: string, c: char, redraw: seq<Op>)
    requires |prompt| + |text| + 1 < s.cols && LineDrawn(s, prompt, text, |text|)
    requires var u := Run(s, redraw);
             u.row == s.row && LineDrawn(u, prompt, text + [c], |text| + 1) && SameElsewhere(s, u, s.row)
    ensures var t, u := Run(s, [Ch(c)]), Run(s, redraw);
            t.row == u.row && t.col == u.col && forall r: nat :: t.RowAt(r) == u.RowAt(r)
  {
    FastPath(s, prompt, text, c);
  }

  /** The redraw that the trivial case of an insertion avoids, and what makes it avoidable. */
  method AvoidedRedraw(prompt: string, text: string, c: char, cols: nat, ghost s: Screen) returns (redraw: seq<Op>)
    requires s.cols == cols && |prompt| + |text| + 1 < cols && LineDrawn(s, prompt, text, |text|)
    ensures var t, u := Run(s, [Ch(c)]), Run(s, redraw);
            t.row == u.row && t.col == u.col && forall r: nat :: t.RowAt(r) == u.RowAt(r)
  {
    redraw := SingleLineOutput(prompt, text + [c], |text| + 1, cols, s);
    FastPathIsRedraw(s, prompt, text, c, redraw);
  }
}
