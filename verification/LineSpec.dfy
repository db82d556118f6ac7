/** What the keys of the line editor mean, on a line with a cursor and on the history. */
module LineSpec {
  import opened History

  // ---------------------------------------------------------------------
  // A line with a cursor
  // ---------------------------------------------------------------------

  datatype Line = Line(left: string, right: string) {
    function Text(): string {
      left + right
    }
  }

  function Last<T>(s: seq<T>): T
    requires s != []
  {
    s[|s| - 1]
  }

  function Front(s: string): string
    requires s != ""
  {
    s[..|s| - 1]
  }

  /** `s` without the run of blanks at its end. */
  function TrimBlanks(s: string): (t: string)
    ensures t <= s && (t == "" || Last(t) != ' ')
    ensures forall k | |t| <= k < |s| :: s[k] == ' '
  {
    if s != "" && Last(s) == ' ' then TrimBlanks(Front(s)) else s
  }

  /** `s` without the run of other characters at its end. */
  function TrimWord(s: string): (t: string)
    ensures t <= s && (t == "" || Last(t) == ' ')
    ensures forall k | |t| <= k < |s| :: s[k] != ' '
  {
    if s != "" && Last(s) != ' ' then TrimWord(Front(s)) else s
  }

  datatype Edit =
    | Insert(c: char) | Backspace | Delete | DeleteWord | Transpose
    | Left | Right | ToStart | ToEnd | KillLine | KillToEnd

  /** An edit of a line that has room for `cap` characters. */
  function Edited(l: Line, e: Edit, cap: nat): (r: Line)
    ensures |l.Text()| <= cap ==> |r.Text()| <= cap
  {
    match e
    case Insert(c) => if |l.Text()| < cap then Line(l.left + [c], l.right) else l
    case Backspace => if l.left == "" then l else Line(Front(l.left), l.right)
    case Delete => if l.right == "" then l else Line(l.left, l.right[1..])
    case DeleteWord => Line(TrimWord(TrimBlanks(l.left)), l.right)
    case Transpose =>
      if l.left == "" || l.right == "" then l
      else if |l.right| == 1 then Line(Front(l.left) + [l.right[0]], [Last(l.left)])
      else Line(Front(l.left) + [l.right[0], Last(l.left)], l.right[1..])
    case Left => if l.left == "" then l else Line(Front(l.left), [Last(l.left)] + l.right)
    case Right => if l.right == "" then l else Line(l.left + [l.right[0]], l.right[1..])
    case ToStart => Line("", l.left + l.right)
    case ToEnd => Line(l.left + l.right, "")
    case KillLine => Line("", "")
    case KillToEnd => Line(l.left, "")
  }

  /** Moving the cursor leaves the text alone, and one step back undoes a step. */
  lemma {:induction false} LeftUndone(l: Line, cap: nat)
    ensures Edited(l, Left, cap).Text() == l.Text()
    ensures l.left != "" ==> Edited(Edited(l, Left, cap), Right, cap) == l
  {
    if l.left != "" {
      assert Front(l.left) + [Last(l.left)] == l.left;
      assert ([Last(l.left)] + l.right)[1..] == l.right;
      assert Front(l.left) + ([Last(l.left)] + l.right) == l.Text();
    }
  }

  lemma {:induction false} RightUndone(l: Line, cap: nat)
    ensures Edited(l, Right, cap).Text() == l.Text()
    ensures l.right != "" ==> Edited(Edited(l, Right, cap), Left, cap) == l
  {
    if l.right != "" {
      assert [l.right[0]] + l.right[1..] == l.right;
      assert Front(l.left + [l.right[0]]) == l.left;
      assert l.left + [l.right[0]] + l.right[1..] == l.Text();
    }
  }

  lemma SwapKeeps(a: string, x: char, y: char, b: string)
    ensures multiset(a + [x, y] + b) == multiset(a + [y, x] + b)
  {
    assert [x, y] == [x] + [y] && [y, x] == [y] + [x];
  }

  lemma {:induction false} TransposeKeeps(l: Line, cap: nat)
    ensures multiset(Edited(l, Transpose, cap).Text()) == multiset(l.Text())
  {
    if l.left != "" && l.right != "" {
      var a, x, y, b := Front(l.left), Last(l.left), l.right[0], l.right[1..];
      assert l.Text() == a + [x, y] + b;
      assert Edited(l, Transpose, cap).Text() == a + [y, x] + b;
      SwapKeeps(a, x, y, b);
    }
  }

  // ---------------------------------------------------------------------
  // Browsing the history
  // ---------------------------------------------------------------------

  /** The line being edited, the history, and how far back in it the line belongs. */
  datatype Session = Session(line: Line, hist: seq<string>, index: nat) {
    predicate Valid() {
      hist != [] && index < |hist|
    }

    function Slot(): nat
      requires Valid()
    {
      |hist| - 1 - index
    }
  }

  /** A line as loaded into a buffer that offers strncpy() `cap` places, the last of them a NUL. */
  function Loaded(h: string, cap: nat): string
    requires cap >= 1
  {
    if |h| < cap then h else h[..cap - 1]
  }

  function Browse(s: Session, older: bool, cap: nat): (r: Session)
    requires s.Valid() && cap >= 1
    ensures r.Valid() && |r.hist| == |s.hist|
  {
    if |s.hist| <= 1 then s
    else
      var kept := s.hist[s.Slot() := s.line.Text()];
      if older && s.index + 1 == |s.hist| then s.(hist := kept)
      else if !older && s.index == 0 then s.(hist := kept)
      else
        var i := if older then s.index + 1 else s.index - 1;
        Session(Line(Loaded(kept[|kept| - 1 - i], cap), ""), kept, i)
  }

  /** Going back and forth again restores the text exactly when it leaves a place free in the buffer. */
  lemma {:induction false} BackAndForth(s: Session, cap: nat)
    requires s.Valid() && cap >= 1 && |s.line.Text()| <= cap
    requires s.index + 1 < |s.hist|
    ensures var r := Browse(Browse(s, true, cap), false, cap);
            r.index == s.index && (r.line.Text() == s.line.Text() <==> |s.line.Text()| < cap)
  {
    var t := Browse(s, true, cap);
    assert t.hist[s.Slot()] == s.line.Text();
    assert Browse(t, false, cap).line == Line(Loaded(s.line.Text(), cap), "");
    assert Loaded(s.line.Text(), cap) + "" == Loaded(s.line.Text(), cap);
  }

  /** The line on display is the entry it belongs to, and every entry fits the buffer. */
  predicate Unedited(s: Session, cap: nat) {
    && s.Valid()
    && s.line.Text() == s.hist[s.Slot()]
    && forall k | 0 <= k < |s.hist| :: |s.hist[k]| < cap
  }

  lemma {:induction false} BrowseUnedited(s: Session, older: bool, cap: nat)
    requires cap >= 1 && Unedited(s, cap)
    ensures var r := Browse(s, older, cap);
            Unedited(r, cap) && r.hist == s.hist
  {
    assert s.hist[s.Slot() := s.line.Text()] == s.hist;
    var r := Browse(s, older, cap);
    if r.index != s.index {
      assert r.line.Text() == r.hist[r.Slot()];
    }
  }

  // ---------------------------------------------------------------------
  // Keys
  // ---------------------------------------------------------------------

  datatype Command =
    | Do(edit: Edit)
    | Older | Newer
    | DeleteOrEof
    | Complete
    | ClearScreen
    | Enter
    | Interrupt
    | Nothing

  /** A command and the number of characters that make it up. */
  datatype Decoded = Decoded(cmd: Command, used: nat)

  /** The command at the start of what is typed. A read past the end of it fails. */
  function Decode(input: string, completing: bool): (d: Decoded)
    requires input != ""
    ensures 1 <= d.used <= |input|
  {
    var c := input[0] as int;
    if c == 9 && completing then Decoded(Complete, 1)
    else if c == 13 then Decoded(Enter, 1)
    else if c == 3 then Decoded(Interrupt, 1)
    else if c == 127 || c == 8 then Decoded(Do(Backspace), 1)
    else if c == 4 then Decoded(DeleteOrEof, 1)
    else if c == 20 then Decoded(Do(Transpose), 1)
    else if c == 2 then Decoded(Do(Left), 1)
    else if c == 6 then Decoded(Do(Right), 1)
    else if c == 16 then Decoded(Older, 1)
    else if c == 14 then Decoded(Newer, 1)
    else if c == 27 then DecodeEscape(input)
    else if c == 21 then Decoded(Do(KillLine), 1)
    else if c == 11 then Decoded(Do(KillToEnd), 1)
    else if c == 1 then Decoded(Do(ToStart), 1)
    else if c == 5 then Decoded(Do(ToEnd), 1)
    else if c == 12 then Decoded(ClearScreen, 1)
    else if c == 23 then Decoded(Do(DeleteWord), 1)
    else Decoded(Do(Insert(input[0])), 1)
  }

  function CursorKey(letter: char): Command {
    match letter
    case 'A' => Older
    case 'B' => Newer
    case 'C' => Do(Right)
    case 'D' => Do(Left)
    case 'H' => Do(ToStart)
    case 'F' => Do(ToEnd)
    case _ => Nothing
  }

  function DecodeEscape(input: string): (d: Decoded)
    requires input != ""
    ensures 1 <= d.used <= |input|
  {
    if |input| < 3 then Decoded(Nothing, |input|)
    else if input[1] == '[' && '0' <= input[2] <= '9' then
      if |input| < 4 then Decoded(Nothing, 3)
      else Decoded(if input[3] == '~' && input[2] == '3' then Do(Delete) else Nothing, 4)
    else if input[1] == '[' then Decoded(CursorKey(input[2]), 3)
    else if input[1] == 'O' then
      Decoded(match input[2]
              case 'H' => Do(ToStart)
              case 'F' => Do(ToEnd)
              case _ => Nothing, 3)
    else Decoded(Nothing, 3)
  }

  // ---------------------------------------------------------------------
  // Whole sessions
  // ---------------------------------------------------------------------

  /** How a session ends: with a line, or without one. The history is what is left of it. */
  datatype Outcome =
    | Accepted(text: string, hist: seq<string>)
    | Refused(hist: seq<string>)

  /** What completion offers for a text; `None` when no completion is set up. */
  datatype Completer = None | Some(offers: string -> seq<string>)

  /** The choice made (the number of offers stands for the original text), and the key that ended it. */
  datatype Choice = Choice(i: nat, key: int, used: nat)

  /**
   * The completion dialogue: tabs walk through the offers and the original text until another key
   * comes. A failing read counts as -1, and so does a character above 127, which is negative in C.
   */
  function Choose(input: string, n: nat, i: nat): (r: Choice)
    requires i <= n
    ensures r.i <= n && r.used <= |input|
    ensures r.key > 0 ==> r.used > 0 && r.key == input[r.used - 1] as int && r.key != 9
  {
    if input == "" then Choice(n, -1, 0)
    else if input[0] as int == 9 then
      var r := Choose(input[1..], n, (i + 1) % (n + 1));
      r.(used := r.used + 1)
    else
      Choice(if input[0] as int == 27 then n else i, if input[0] as int > 127 then -1 else input[0] as int, 1)
  }

  function Chosen(l: Line, offers: seq<string>, i: nat): Line {
    if i < |offers| then Line(offers[i], "") else l
  }

  /** The history when a session begins: its newest entry stands for the line being edited. */
  function Begin(hist: seq<string>, max: nat): Session {
    Session(Line("", ""), AddLine(hist, max, ""), 0)
  }

  function Pop(hist: seq<string>): seq<string>
    requires hist != []
  {
    hist[..|hist| - 1]
  }

  /** One key, when it does not end the session. */
  function Press(s: Session, cmd: Command, cap: nat): (r: Session)
    requires s.Valid() && cap >= 1
    ensures r.Valid() && |r.hist| == |s.hist|
  {
    match cmd
    case Do(e) => s.(line := Edited(s.line, e, cap))
    case Older => Browse(s, true, cap)
    case Newer => Browse(s, false, cap)
    case DeleteOrEof => s.(line := Edited(s.line, Delete, cap))
    case _ => s
  }

  /** A whole session: what linenoiseEdit() makes of what is typed. */
  function RunSession(input: string, s: Session, cap: nat, completer: Completer): Outcome
    requires s.Valid() && cap >= 1
    decreases |input|
  {
    if input == "" then Refused(s.hist)
    else
      var d := Decode(input, completer.Some?);
      var rest := input[d.used..];
      match d.cmd
      case Enter => Accepted(s.line.Text(), Pop(s.hist))
      case Interrupt => Refused(s.hist)
      case Complete =>
        var offers := completer.offers(s.line.Text());
        if offers == [] then RunSession(rest, s, cap, completer)
        else
          var choice := Choose(rest, |offers|, 0);
          var t := s.(line := Chosen(s.line, offers, choice.i));
          if choice.key < 0 then Accepted(t.line.Text(), t.hist)
          else if choice.key == 0 then RunSession(rest[choice.used..], t, cap, completer)
          else RunSession(rest[choice.used - 1..], t, cap, completer)
      case DeleteOrEof =>
        if s.line.Text() == "" then Refused(Pop(s.hist)) else RunSession(rest, Press(s, d.cmd, cap), cap, completer)
      case _ => RunSession(rest, Press(s, d.cmd, cap), cap, completer)
  }

  // ---------------------------------------------------------------------
  // The entry of the line being edited
  // ---------------------------------------------------------------------

  /**
   * Whether a session ends by Enter, or by Ctrl-D on an empty line; not by Ctrl-C, nor because what
   * is typed runs out, while waiting for a key or in a completion.
   */
  predicate Closes(input: string, s: Session, cap: nat, completer: Completer)
    requires s.Valid() && cap >= 1
    decreases |input|
  {
    input != "" &&
      var d := Decode(input, completer.Some?);
      var rest := input[d.used..];
      match d.cmd
      case Enter => true
      case Interrupt => false
      case Complete =>
        var offers := completer.offers(s.line.Text());
        var choice := Choose(rest, |offers|, 0);
        var t := s.(line := Chosen(s.line, offers, choice.i));
        if offers == [] then Closes(rest, s, cap, completer)
        else if choice.key < 0 then false
        else Closes(rest[if choice.key == 0 then choice.used else choice.used - 1..], t, cap, completer)
      case DeleteOrEof => s.line.Text() == "" || Closes(rest, Press(s, d.cmd, cap), cap, completer)
      case _ => Closes(rest, Press(s, d.cmd, cap), cap, completer)
  }

  lemma CompletesOnRequest(input: string, completing: bool)
    requires input != ""
    ensures Decode(input, completing).cmd.Complete? ==> completing
  {
  }

  /** An entry is given up exactly by a session that ends so, and no more than one. */
  lemma {:induction false} EntryGoes(input: string, s: Session, cap: nat, completer: Completer)
    requires s.Valid() && cap >= 1
    ensures |RunSession(input, s, cap, completer).hist|
         == |s.hist| - (if Closes(input, s, cap, completer) then 1 else 0)
    decreases |input|
  {
    hide Decode, Press, Choose, Chosen;
    if input != "" {
      var d := Decode(input, completer.Some?);
      var rest := input[d.used..];
      CompletesOnRequest(input, completer.Some?);
      match d.cmd
      case Enter | Interrupt =>
      case Complete =>
        var offers := completer.offers(s.line.Text());
        var choice := Choose(rest, |offers|, 0);
        var t := s.(line := Chosen(s.line, offers, choice.i));
        if offers == [] {
          EntryGoes(rest, s, cap, completer);
        } else if choice.key >= 0 {
          EntryGoes(rest[if choice.key == 0 then choice.used else choice.used - 1..], t, cap, completer);
        }
      case DeleteOrEof =>
        if s.line.Text() != "" { EntryGoes(rest, Press(s, d.cmd, cap), cap, completer); }
      case _ => EntryGoes(rest, Press(s, d.cmd, cap), cap, completer);
    }
  }

  /**
   * A session takes away again what it added exactly when it added an entry and closes, or did neither.
   * It adds none to a history that ends in an empty line, and to a full one only in place of the oldest.
   */
  lemma {:induction false} SessionKeepsCount(hist: seq<string>, max: nat, input: string, cap: nat, completer: Completer)
    requires 1 <= max && |hist| <= max && cap >= 1
    ensures |RunSession(input, Begin(hist, max), cap, completer).hist| == |hist| <==>
            ((|hist| < max && (hist == [] || Last(hist) != "")) <==> Closes(input, Begin(hist, max), cap, completer))
  {
    hide RunSession, Closes;
    EntryGoes(input, Begin(hist, max), cap, completer);
  }

  // ---------------------------------------------------------------------
  // Sessions that only browse
  // ---------------------------------------------------------------------

  /** Keys that go through the history or the line and leave every text as it is. */
  predicate OnlyLooks(cmd: Command) {
    match cmd
    case Older | Newer | ClearScreen | Nothing => true
    case Do(e) => e.Left? || e.Right? || e.ToStart? || e.ToEnd?
    case _ => false
  }

  /** What is typed is such keys, as single characters or escape sequences, and then Enter. */
  predicate Browses(input: string, completing: bool)
    decreases |input|
  {
    input != "" &&
      var d := Decode(input, completing);
      d.cmd.Enter? || (OnlyLooks(d.cmd) && Browses(input[d.used..], completing))
  }

  /** The line on display is the entry it belongs to, as far as that fits the buffer. */
  predicate Displays(s: Session, cap: nat) {
    s.Valid() && cap >= 1 && s.line.Text() == Loaded(s.hist[s.Slot()], cap)
  }

  /** Where a history key leads, of `n` entries; it stops at either end. */
  function Neighbour(n: nat, index: nat, older: bool): nat {
    if older then if index + 1 < n then index + 1 else index
    else if index == 0 then 0 else index - 1
  }

  lemma {:induction false} BrowseDisplays(s: Session, older: bool, cap: nat)
    requires Displays(s, cap)
    ensures var r := Browse(s, older, cap);
            && Displays(r, cap)
            && r.hist == (if |s.hist| <= 1 then s.hist else s.hist[s.Slot() := Loaded(s.hist[s.Slot()], cap)])
            && r.index == (if |s.hist| <= 1 then s.index else Neighbour(|s.hist|, s.index, older))
  {
    var h := s.hist[s.Slot()];
    assert Loaded(Loaded(h, cap), cap) == Loaded(h, cap);
    var r := Browse(s, older, cap);
    if r.index != s.index { assert r.line.Text() == Loaded(r.hist[r.Slot()], cap); }
  }

  /** A key that only looks, but for the history keys, changes neither text nor history. */
  lemma {:induction false} LookKeeps(s: Session, cmd: Command, cap: nat)
    requires s.Valid() && cap >= 1 && OnlyLooks(cmd) && !cmd.Older? && !cmd.Newer?
    ensures var r := Press(s, cmd, cap);
            r.hist == s.hist && r.index == s.index && r.line.Text() == s.line.Text()
  {
    LeftUndone(s.line, cap);
    RightUndone(s.line, cap);
    if cmd.Do? {
      assert "" + (s.line.left + s.line.right) == s.line.Text() && (s.line.left + s.line.right) + "" == s.line.Text();
    }
  }

  /**
   * No history key is pressed at an entry that does not fit the buffer. Such an entry would be kept
   * as it is displayed, cut short.
   */
  predicate Spared(input: string, completing: bool, hist: seq<string>, index: nat, cap: nat)
    decreases |input|
  {
    input != "" && index < |hist| ==>
      var d := Decode(input, completing);
      var rest := input[d.used..];
      if d.cmd.Enter? || !OnlyLooks(d.cmd) then true
      else if |hist| > 1 && (d.cmd.Older? || d.cmd.Newer?) then
        && |hist[|hist| - 1 - index]| < cap
        && Spared(rest, completing, hist, Neighbour(|hist|, index, d.cmd.Older?), cap)
      else Spared(rest, completing, hist, index, cap)
  }

  /** Entries that all fit are spared. */
  lemma {:induction false} FittingSpared(input: string, completing: bool, hist: seq<string>, index: nat, cap: nat)
    requires index < |hist| && forall k | 0 <= k < |hist| :: |hist[k]| < cap
    ensures Spared(input, completing, hist, index, cap)
    decreases |input|
  {
    hide Decode;
    if input != "" {
      var d := Decode(input, completing);
      FittingSpared(input[d.used..], completing, hist, Neighbour(|hist|, index, d.cmd.Older?), cap);
      FittingSpared(input[d.used..], completing, hist, index, cap);
    }
  }

  /** A session from a key that only looks, or from Enter. */
  lemma {:induction false} BrowseStep(input: string, s: Session, cap: nat, completer: Completer)
    requires s.Valid() && cap >= 1 && Browses(input, completer.Some?)
    ensures var d := Decode(input, completer.Some?);
            RunSession(input, s, cap, completer) ==
              if d.cmd.Enter? then Accepted(s.line.Text(), Pop(s.hist))
              else RunSession(input[d.used..], Press(s, d.cmd, cap), cap, completer)
  {
    hide Press, Decode;
  }

  /** Entries can only get shorter. */
  predicate NoLonger(a: seq<string>, b: seq<string>) {
    |a| == |b| && forall k | 0 <= k < |a| :: |a[k]| <= |b[k]|
  }

  /**
   * A session that only browses returns an entry of the history, as far as it fits the buffer, and
   * gives up only the entry of the line being edited; the others are as they were exactly when they
   * were spared.
   */
  lemma {:induction false} BrowsingOnly(input: string, s: Session, cap: nat, completer: Completer)
    requires Displays(s, cap) && |Last(s.hist)| < cap && Browses(input, completer.Some?)
    ensures var r := RunSession(input, s, cap, completer);
            && r.Accepted? && NoLonger(r.hist, Pop(s.hist))
            && (exists k | 0 <= k < |s.hist| :: r.text == Loaded(s.hist[k], cap))
            && (r.hist == Pop(s.hist) <==> Spared(input, completer.Some?, s.hist, s.index, cap))
    decreases |input|
  {
    hide RunSession, Decode, Browse, Edited, Loaded, Spared, Pop, OnlyLooks;
    SparedStep(input, completer.Some?, s.hist, s.index, cap);
    BrowseStep(input, s, cap, completer);
    var d := Decode(input, completer.Some?);
    var rest := input[d.used..];
    if d.cmd.Enter? {
      DisplaysEntry(s, cap);
    } else if d.cmd.Older? || d.cmd.Newer? {
      BrowseDisplays(s, d.cmd.Older?, cap);
      BrowseOn(s, d.cmd.Older?, cap);
      var t := Browse(s, d.cmd.Older?, cap);
      BrowsingOnly(rest, t, cap, completer);
      var r := RunSession(rest, t, cap, completer);
      var k :| 0 <= k < |t.hist| && r.text == Loaded(t.hist[k], cap);
      assert Loaded(t.hist[k], cap) == Loaded(s.hist[k], cap);
    } else {
      LookKeeps(s, d.cmd, cap);
      LookDisplays(s, d.cmd, cap);
      BrowsingOnly(rest, Press(s, d.cmd, cap), cap, completer);
    }
  }

  lemma DisplaysEntry(s: Session, cap: nat)
    requires Displays(s, cap)
    ensures NoLonger(Pop(s.hist), Pop(s.hist))
    ensures exists k | 0 <= k < |s.hist| :: s.line.Text() == Loaded(s.hist[k], cap)
  {
    assert s.line.Text() == Loaded(s.hist[s.Slot()], cap);
  }

  lemma LookDisplays(s: Session, cmd: Command, cap: nat)
    requires Displays(s, cap) && OnlyLooks(cmd) && !cmd.Older? && !cmd.Newer?
    ensures Displays(Press(s, cmd, cap), cap)
  {
    hide Loaded;
    LookKeeps(s, cmd, cap);
  }

  lemma SparedStep(input: string, completing: bool, hist: seq<string>, index: nat, cap: nat)
    requires input != "" && index < |hist| && Browses(input, completing)
    ensures var d := Decode(input, completing);
            var rest := input[d.used..];
            Spared(input, completing, hist, index, cap) <==>
              if d.cmd.Enter? then true
              else if |hist| > 1 && (d.cmd.Older? || d.cmd.Newer?) then
                && |hist[|hist| - 1 - index]| < cap
                && Spared(rest, completing, hist, Neighbour(|hist|, index, d.cmd.Older?), cap)
              else Spared(rest, completing, hist, index, cap)
  {
    hide Decode;
  }

  /** What a history key makes of the entries: the one on display is cut if it does not fit. */
  lemma {:induction false} BrowseOn(s: Session, older: bool, cap: nat)
    requires Displays(s, cap) && |Last(s.hist)| < cap
    ensures var t := Browse(s, older, cap);
            && |t.hist| == |s.hist| && Last(t.hist) == Last(s.hist) && NoLonger(Pop(t.hist), Pop(s.hist))
            && (forall k | 0 <= k < |s.hist| :: Loaded(t.hist[k], cap) == Loaded(s.hist[k], cap))
            && (|s.hist| > 1 && |s.hist[s.Slot()]| >= cap ==>
                  s.Slot() < |Pop(s.hist)| && |Pop(t.hist)[s.Slot()]| < |Pop(s.hist)[s.Slot()]|)
            && (|s.hist| <= 1 || |s.hist[s.Slot()]| < cap ==> t.hist == s.hist)
  {
    BrowseDisplays(s, older, cap);
  }

  /**
   * A session that only browses leaves the history as it was exactly when there was room for the
   * entry of the line being edited, the newest entry was not empty, and the entries were spared.
   */
  lemma {:induction false} BrowsingKeepsHistory(hist: seq<string>, max: nat, input: string, cap: nat,
                                                completer: Completer)
    requires 1 <= max && |hist| <= max && cap >= 1 && Browses(input, completer.Some?)
    ensures RunSession(input, Begin(hist, max), cap, completer).hist == hist <==>
            && |hist| < max && (hist == [] || Last(hist) != "")
            && Spared(input, completer.Some?, hist + [""], 0, cap)
  {
    hide RunSession, Spared;
    var s := Begin(hist, max);
    assert Displays(s, cap);
    BrowsingOnly(input, s, cap, completer);
    if |hist| < max && (hist == [] || Last(hist) != "") {
      assert Pop(s.hist) == hist;
    } else {
      assert |Pop(s.hist)| != |hist|;
    }
  }

  /** Entries that all fit are never cut: then only room and the newest entry matter. */
  lemma {:induction false} BrowsingFitting(hist: seq<string>, max: nat, input: string, cap: nat, completer: Completer)
    requires 1 <= max && |hist| <= max && cap >= 1 && Browses(input, completer.Some?)
    requires forall k | 0 <= k < |hist| :: |hist[k]| < cap
    ensures RunSession(input, Begin(hist, max), cap, completer).hist == hist <==>
            |hist| < max && (hist == [] || Last(hist) != "")
  {
    hide RunSession, Spared;
    FittingSpared(input, completer.Some?, hist + [""], 0, cap);
    BrowsingKeepsHistory(hist, max, input, cap, completer);
  }

  /** The arrow keys browse as Ctrl-P and Ctrl-N do. */
  lemma {:induction false} ArrowsBrowse(older: bool, rest: string, completing: bool)
    ensures Browses([27 as char, '[', if older then 'A' else 'B'] + rest, completing) == Browses(rest, completing)
    ensures Browses([if older then 16 as char else 14 as char] + rest, completing) == Browses(rest, completing)
  {
    var arrow := [27 as char, '[', if older then 'A' else 'B'] + rest;
    var key := [if older then 16 as char else 14 as char] + rest;
    var cmd := if older then Older else Newer;
    assert Decode(arrow, completing) == Decoded(cmd, 3) && Decode(key, completing) == Decoded(cmd, 1);
    assert arrow[3..] == rest && key[1..] == rest;
    hide Decode;
  }
}
