/** A character terminal, as far as the line editor uses one: ECMA-48 cursor control over rows of cells. */
module Screen {

  /**
   * Rows of `cols` cells with no bottom edge; rows never written are blank. Column `cols` is the
   * state after a character has filled the last cell: the next one goes to the row below.
   */
  datatype Screen = Screen(cols: nat, rows: map<nat, seq<char>>, row: nat, col: nat) {
    ghost predicate Valid() {
      && 0 < cols
      && col <= cols
      && forall r | r in rows :: |rows[r]| == cols
    }

    function RowAt(r: nat): (cells: seq<char>)
      ensures Valid() ==> |cells| == cols
    {
      if r in rows then rows[r] else Blanks(cols)
    }
  }

  function Blanks(n: nat): (s: seq<char>)
    ensures |s| == n
  {
    seq(n, _ => ' ')
  }

  /** What the editor writes: a character that takes one cell, or a control function. */
  datatype Op =
    | Ch(c: char)
    | CR
    | LF
    | CUU(n: nat)   // cursor up, ECMA-48 section 8.3.22
    | CUD(n: nat)   // cursor down, 8.3.19
    | CUF(n: nat)   // cursor right, 8.3.20
    | EL            // erase to the end of the line, 8.3.41
    | Home          // cursor to the top left corner
    | ED            // erase the whole display

  /** A parameter of zero means one. */
  function Count(n: nat): nat {
    if n == 0 then 1 else n
  }

  function Apply(s: Screen, op: Op): (t: Screen)
    requires s.Valid()
    ensures t.Valid() && t.cols == s.cols
  {
    match op
    case Ch(c) =>
      var r, k := if s.col == s.cols then s.row + 1 else s.row, if s.col == s.cols then 0 else s.col;
      s.(rows := s.rows[r := s.RowAt(r)[k := c]], row := r, col := k + 1)
    case CR => s.(col := 0)
    case LF => s.(row := s.row + 1)
    case CUU(n) => s.(row := if Count(n) <= s.row then s.row - Count(n) else 0)
    case CUD(n) => s.(row := s.row + Count(n))
    case CUF(n) => s.(col := if s.col + Count(n) < s.cols then s.col + Count(n) else s.cols - 1)
    case EL => s.(rows := s.rows[s.row := s.RowAt(s.row)[..s.col] + Blanks(s.cols - s.col)])
    case Home => s.(row := 0, col := 0)
    case ED => s.(rows := map[])
  }

  function Run(s: Screen, ops: seq<Op>): (t: Screen)
    requires s.Valid()
    ensures t.Valid() && t.cols == s.cols
    decreases |ops|
  {
    if ops == [] then s else Run(Apply(s, ops[0]), ops[1..])
  }

  lemma {:induction false} RunConcat(s: Screen, a: seq<Op>, b: seq<Op>)
    requires s.Valid()
    ensures Run(s, a + b) == Run(Run(s, a), b)
    decreases |a|
  {
    if a == [] {
      assert a + b == b;
    } else {
      assert (a + b)[0] == a[0] && (a + b)[1..] == a[1..] + b;
      RunConcat(Apply(s, a[0]), a[1..], b);
    }
  }

  lemma RunNone(s: Screen)
    requires s.Valid()
    ensures Run(s, []) == s
  {
  }

  lemma RunOne(s: Screen, op: Op)
    requires s.Valid()
    ensures Run(s, [op]) == Apply(s, op)
  {
    assert [op][1..] == [];
  }

  lemma RunTwo(s: Screen, a: Op, b: Op)
    requires s.Valid()
    ensures Run(s, [a, b]) == Apply(Apply(s, a), b)
  {
    assert [a, b][1..] == [b];
    RunOne(Apply(s, a), b);
  }

  function Chars(text: string): (ops: seq<Op>)
    ensures |ops| == |text|
  {
    seq(|text|, i requires 0 <= i < |text| => Ch(text[i]))
  }

  // ---------------------------------------------------------------------
  // Text laid out over rows
  // ---------------------------------------------------------------------

  function Cell(text: string, k: int): char {
    if 0 <= k < |text| then text[k] else ' '
  }

  /** Row `j` of `text` wrapped at `cols`, filled up with blanks. */
  function Line(text: string, cols: nat, j: nat): (cells: seq<char>)
    ensures |cells| == cols
  {
    seq(cols, c => Cell(text, j * cols + c))
  }

  lemma LineAt(text: string, cols: nat, j: nat, k: nat)
    requires k < cols
    ensures Line(text, cols, j)[k] == Cell(text, j * cols + k)
  {
  }

  /** From row `base` down, the screen shows `text` wrapped and nothing else. */
  ghost predicate Shows(s: Screen, base: nat, text: string) {
    forall j: nat :: s.RowAt(base + j) == Line(text, s.cols, j)
  }

  ghost predicate SameAbove(s: Screen, t: Screen, base: nat) {
    forall r: nat | r < base :: s.RowAt(r) == t.RowAt(r)
  }

  lemma Multiple(e: int, d: nat)
    requires 0 < d
    ensures e >= 1 ==> e * d >= d
    ensures e <= -1 ==> e * d + d <= 0
  {
  }

  /** Quotient and remainder are determined by what they add up to. */
  lemma {:induction false} DivMod(n: nat, d: nat, q: nat, r: nat)
    requires 0 < d
    ensures n == (n / d) * d + n % d && 0 <= n % d < d
    ensures n == q * d + r && r < d ==> q == n / d && r == n % d
  {
    var e := q - n / d;
    assert e * d == q * d - (n / d) * d;
    Multiple(e, d);
  }

  /** Where the cursor stands after `n` characters written from the start of row `base`. */
  ghost predicate AfterChars(s: Screen, base: nat, n: nat) {
    if n == 0 then s.row == base && s.col == 0
    else s.cols > 0 && s.row == base + (n - 1) / s.cols && s.col == (n - 1) % s.cols + 1
  }

  /** The cell the next character goes to. */
  lemma {:induction false} NextCell(n: nat, w: nat)
    requires 0 < n && 0 < w
    ensures if (n - 1) % w + 1 == w then n / w == (n - 1) / w + 1 && n % w == 0
            else n / w == (n - 1) / w && n % w == (n - 1) % w + 1
  {
    DivMod(n - 1, w, 0, 0);
    if (n - 1) % w + 1 == w {
      assert ((n - 1) / w + 1) * w == (n - 1) / w * w + w;
      DivMod(n, w, (n - 1) / w + 1, 0);
    } else {
      DivMod(n, w, (n - 1) / w, (n - 1) % w + 1);
    }
  }

  /** One more character changes one cell of the layout. */
  lemma {:induction false} LineSnoc(text: string, c: char, w: nat, j: nat)
    requires 0 < w
    ensures 0 <= |text| % w < w
    ensures Line(text + [c], w, j) ==
            if j == |text| / w then Line(text, w, j)[|text| % w := c] else Line(text, w, j)
  {
    var n := |text|;
    DivMod(n, w, 0, 0);
    var line := Line(text, w, j);
    var want := if j == n / w then line[n % w := c] else line;
    forall k: nat | k < w
      ensures Line(text + [c], w, j)[k] == want[k]
    {
      DivMod(n, w, j, k);
      assert (j * w + k == n) == (j == n / w && k == n % w);
      assert Line(text + [c], w, j)[k] == Cell(text + [c], j * w + k);
      assert line[k] == Cell(text, j * w + k);
    }
  }

  lemma {:induction false} PutNext(s: Screen, base: nat, text: string, c: char)
    requires s.Valid() && Shows(s, base, text) && AfterChars(s, base, |text|)
    ensures var t := Apply(s, Ch(c));
            Shows(t, base, text + [c]) && AfterChars(t, base, |text| + 1) && SameAbove(s, t, base)
  {
    hide Line;
    var t := Apply(s, Ch(c));
    var n := |text|;
    if n > 0 { NextCell(n, s.cols); }
    assert t.row == base + n / s.cols && t.col == n % s.cols + 1;
    forall j: nat
      ensures t.RowAt(base + j) == Line(text + [c], s.cols, j)
    {
      assert s.RowAt(base + j) == Line(text, s.cols, j);
      LineSnoc(text, c, s.cols, j);
    }
  }

  /** Writing `text` from the start of a blank area shows it wrapped. */
  lemma {:induction false} PrintShows(s: Screen, base: nat, before: string, text: string)
    requires s.Valid() && Shows(s, base, before) && AfterChars(s, base, |before|)
    ensures var t := Run(s, Chars(text));
            Shows(t, base, before + text) && AfterChars(t, base, |before + text|) && SameAbove(s, t, base)
    decreases |text|
  {
    if text == "" {
      assert before + text == before;
    } else {
      PutNext(s, base, before, text[0]);
      PrintShows(Apply(s, Ch(text[0])), base, before + [text[0]], text[1..]);
      assert before + [text[0]] + text[1..] == before + text;
      assert Chars(text)[1..] == Chars(text[1..]);
    }
  }
}
