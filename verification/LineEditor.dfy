/** The line editor of linenoise.cpp: a buffer edited in place, its history, and the terminal. */
module LineEditor {
  import opened CStrings
  import opened Screen
  import opened Refresh
  import opened History
  import L = LineSpec
  import E = EditLaws

  const FORM_FEED := 12 as char

  /** The terminal on the other end of the output descriptor. */
  class Tty {
    var screen: Screen

    constructor (screen: Screen)
      ensures this.screen == screen
    {
      this.screen := screen;
    }

    method Write(ops: seq<Op>)
      requires screen.Valid()
      modifies this
      ensures screen == Run(old(screen), ops)
    {
      screen := Run(screen, ops);
    }
  }

  /** memmove() within one buffer. */
  method Memmove(a: array<char>, dst: nat, src: nat, n: nat)
    requires dst + n <= a.Length && src + n <= a.Length
    modifies a
    ensures a[..] == old(a[..dst]) + old(a[src..src + n]) + old(a[dst + n..])
  {
    forall i | 0 <= i < n {
      a[dst + i] := a[src + i];
    }
  }

  /** What is before and after a place in a buffer, and the character at the end of it, in the whole of the buffer. */
  lemma TextInPlaces(b: seq<char>, pos: nat, len: nat)
    requires pos <= len < |b|
    ensures b[..len] == b[..pos] + b[pos..len]
  {
  }

  lemma SameLine(a: L.Line, b: L.Line)
    requires a.Text() == b.Text() && |a.left| == |b.left|
    ensures a == b
  {
    E.AtSelf(a);
    E.AtSelf(b);
  }

  lemma GapOpened(b: seq<char>, pos: nat, len: nat, c: char)
    requires pos <= len && len + 1 < |b|
    ensures var moved := b[..pos + 1] + b[pos..len] + b[len + 1..];
            && |moved| == |b|
            && moved[pos := c][len + 1 := NUL][..pos + 1] == b[..pos] + [c]
            && moved[pos := c][len + 1 := NUL][pos + 1..len + 1] == b[pos..len]
  {
    var f := (b[..pos + 1] + b[pos..len] + b[len + 1..])[pos := c][len + 1 := NUL];
    assert forall k | 0 <= k < pos :: f[k] == b[k];
    assert forall k | pos <= k < len :: f[k + 1] == b[k];
  }

  lemma GapClosed(b: seq<char>, pos: nat, from: nat, len: nat)
    requires pos <= from <= len < |b|
    ensures var n := len - (from - pos);
            var moved := b[..pos] + b[from..len + 1] + b[n + 1..];
            && |moved| == |b| && moved[..pos] == b[..pos] && moved[pos..n] == b[from..len] && moved[n] == b[len]
  {
    var n := len - (from - pos);
    var moved := b[..pos] + b[from..len + 1] + b[n + 1..];
    assert forall k | 0 <= k < pos :: moved[k] == b[k];
    assert forall k | from <= k <= len :: moved[k - from + pos] == b[k];
  }

  class LineState {
    const buf: array<char>
    const buflen: nat
    const prompt: string
    const cols: nat
    const mlmode: bool
    const tty: Tty
    const log: Log
    const completer: L.Completer
    var pos: nat
    var len: nat
    var oldpos: nat
    var maxrows: nat
    var historyIndex: nat
    var input: string          // what is still to be typed; reading past it fails
    ghost var base: nat        // the screen row the prompt starts on
    ghost var shown: string    // what multi-line mode last put on the screen
    ghost var start: Screen    // the screen around the edited line

    /** The cursor, the length and the terminating NUL are where they should be. */
    ghost predicate Holds()
      reads `pos, `len, buf
    {
      && 1 <= buflen < buf.Length
      && pos <= len <= buflen
      && buf[len] == NUL && NUL !in buf[..len]
    }

    ghost function Line(): L.Line
      requires Holds()
      reads `pos, `len, buf
    {
      L.Line(buf[..pos], buf[pos..len])
    }

    /** The line is what the buffer holds before its NUL, and the cursor divides it. */
    lemma LineInBuffer()
      requires Holds()
      ensures Line().Text() == buf[..len] && |Line().left| == pos
    {
      TextInPlaces(buf[..], pos, len);
      assert buf[..][..len] == buf[..len] && buf[..][..pos] == buf[..pos] && buf[..][pos..len] == buf[pos..len];
    }

    /** The editor knows where on the screen it is, and has disturbed nothing around its line. */
    ghost predicate Ready()
      reads `oldpos, `maxrows, `base, `shown, `start, tty
    {
      && |prompt| < cols && (mlmode || prompt != "")
      && tty.screen.Valid() && tty.screen.cols == cols
      && if mlmode then
           Redrawable(tty.screen, base, shown, |prompt| + oldpos, maxrows) && SameAbove(start, tty.screen, base)
         else
           tty.screen.row == base && SameElsewhere(start, tty.screen, base)
    }

    /** The screen shows `text` with the cursor at `pos`. */
    ghost predicate Shows(text: string, pos: nat)
      requires Ready() && pos <= |text|
      reads `oldpos, `maxrows, `base, `shown, `start, tty
    {
      if mlmode then
        && Drawn(tty.screen, base, prompt + text, |prompt| + pos, maxrows)
        && shown == prompt + text && oldpos == pos
      else LineDrawn(tty.screen, prompt, text, pos)
    }

    /** The screen shows the buffer. */
    ghost predicate Shown()
      requires Holds()
      reads `pos, `len, buf, `oldpos, `maxrows, `base, `shown, `start, tty
    {
      Ready() && Shows(buf[..len], pos)
    }

    /** linenoiseEdit() up to its first read: an empty line, a new history entry for it, the prompt. */
    constructor (buf: array<char>, buflen: nat, prompt: string, cols: nat, mlmode: bool, tty: Tty, log: Log,
                 completer: L.Completer, input: string)
      requires 2 <= buflen <= buf.Length
      requires |prompt| < cols && (mlmode || prompt != "")
      requires tty.screen.Valid() && tty.screen.cols == cols && tty.screen.col == 0
      requires if mlmode then Refresh.Screen.Shows(tty.screen, tty.screen.row, "")
               else tty.screen.RowAt(tty.screen.row) == Blanks(cols)
      requires log.Valid() && log.max >= 1
      modifies buf, tty, log, log.lines
      ensures Holds() && Shown() && Line() == L.Line("", "")
      ensures log.Valid() && log.max == old(log.max)
      ensures L.Session(Line(), log.Entries(), historyIndex) == L.Begin(old(log.Entries()), log.max)
      ensures log.lines == old(log.lines) || fresh(log.lines)
      ensures this.buf == buf && this.buflen == buflen - 1 && this.prompt == prompt && this.cols == cols
      ensures this.mlmode == mlmode && this.tty == tty && this.log == log && this.completer == completer
      ensures base == old(tty.screen.row) && start == old(tty.screen) && this.input == input
    {
      this.buf, this.buflen, this.prompt, this.cols := buf, buflen - 1, prompt, cols;
      this.mlmode, this.tty, this.log, this.completer := mlmode, tty, log, completer;
      pos, len, oldpos, maxrows, historyIndex := 0, 0, 0, 0, 0;
      this.input := input;
      base, shown, start := tty.screen.row, prompt, tty.screen;
      new;
      hide Refresh.Screen.Shows, Drawn, LineDrawn, SameAbove, SameElsewhere, Run;
      buf[0] := NUL;
      var _ := log.Add("");
      PromptDrawn(tty.screen, prompt, mlmode);
      tty.Write(Chars(prompt));
      assert buf[..len] == "" && prompt + "" == prompt;
      assert Ready();
    }

    // -------------------------------------------------------------------
    // Redrawing
    // -------------------------------------------------------------------

    /** refreshLine(), for the text and cursor the state refers to at the time. */
    method Repaint(text: string, pos: nat)
      requires Ready() && pos <= |text|
      modifies `oldpos, `maxrows, `shown, tty
      ensures Ready() && Shows(text, pos)
    {
      hide Drawn, SameAbove, SameElsewhere, Run, Refresh.Screen.Shows, CursorAt;
      if mlmode {
        NotFilled(|prompt|, |text|, cols);
        var ab, rows := MultiLineOutput(prompt, text, pos, oldpos, maxrows, cols, tty.screen, base, shown);
        SameAboveTrans(start, tty.screen, Run(tty.screen, ab), base);
        maxrows, oldpos, shown := rows, pos, prompt + text;
        tty.Write(ab);
      } else {
        var ab := SingleLineOutput(prompt, text, pos, cols, tty.screen);
        SameElsewhereTrans(start, tty.screen, Run(tty.screen, ab), base);
        tty.Write(ab);
      }
    }

    method RefreshLine()
      requires Holds() && Ready()
      modifies `oldpos, `maxrows, `shown, tty
      ensures Holds() && Shown()
    {
      Repaint(buf[..len], pos);
    }

    // -------------------------------------------------------------------
    // Editing
    // -------------------------------------------------------------------

    /** linenoiseEditInsert() */
    method Insert(c: char)
      requires Holds() && Shown() && c != NUL
      modifies buf, `pos, `len, `oldpos, `maxrows, `shown, tty
      ensures Holds() && Shown() && Line() == L.Edited(old(Line()), L.Insert(c), buflen)
      ensures if old(len) < buflen then buf[..len] == old(buf[..pos]) + [c] + old(buf[pos..len]) && pos == old(pos) + 1
              else buf[..len] == old(buf[..len]) && pos == old(pos)
    {
      LineInBuffer();
      E.InsertMeans(Line(), c, buflen);
      hide Ready, Shows;
      if len < buflen {
        if len == pos {
          Append(c);
        } else {
          InsertBefore(c);
        }
      }
      LineInBuffer();
    }

    method Append(c: char)
      requires Holds() && Shown() && c != NUL && len < buflen && len == pos
      modifies buf, `pos, `len, `oldpos, `maxrows, `shown, tty
      ensures Holds() && Shown() && Line() == L.Line(old(Line()).left + [c], "")
    {
      hide Ready, Shows;
      ghost var text := buf[..len];
      buf[pos] := c;
      pos := pos + 1;
      len := len + 1;
      buf[len] := NUL;
      assert buf[..len] == text + [c];
      if !mlmode && |prompt| + len < cols {
        PutAtEnd(c, text);
      } else {
        RefreshLine();
      }
    }

    /** The rest of the line moves over, and the character goes in between. */
    method OpenGap(c: char)
      requires Holds() && c != NUL && len < buflen && len != pos
      modifies buf, `pos, `len
      ensures Holds() && Line() == L.Line(old(Line()).left + [c], old(Line()).right)
    {
      GapOpened(buf[..], pos, len, c);
      Memmove(buf, pos + 1, pos, len - pos);
      buf[pos] := c;
      len := len + 1;
      pos := pos + 1;
      buf[len] := NUL;
      TextInPlaces(buf[..], pos, len);
    }

    method InsertBefore(c: char)
      requires Holds() && Shown() && c != NUL && len < buflen && len != pos
      modifies buf, `pos, `len, `oldpos, `maxrows, `shown, tty
      ensures Holds() && Shown() && Line() == L.Line(old(Line()).left + [c], old(Line()).right)
    {
      hide Ready, Shows;
      OpenGap(c);
      RefreshLine();
    }

    /** Avoiding the redraw when the character goes at the end and fits. */
    method PutAtEnd(c: char, ghost text: string)
      requires Ready() && Shows(text, |text|)
      requires !mlmode && |prompt| + |text| + 1 < cols
      modifies tty
      ensures Ready() && Shows(text + [c], |text| + 1)
    {
      FastPath(tty.screen, prompt, text, c);
      SameElsewhereTrans(start, tty.screen, Run(tty.screen, [Ch(c)]), base);
      tty.Write([Ch(c)]);
    }

    /** linenoiseEditMoveLeft() */
    method MoveLeft()
      requires Holds() && Shown()
      modifies `pos, `oldpos, `maxrows, `shown, tty
      ensures Holds() && Shown() && Line() == L.Edited(old(Line()), L.Left, buflen)
      ensures buf[..len] == old(buf[..len]) && pos == if old(pos) > 0 then old(pos) - 1 else 0
    {
      LineInBuffer();
      E.MoveMeans(Line(), buflen);
      hide Ready, Shows;
      if pos > 0 {
        pos := pos - 1;
        RefreshLine();
      }
      LineInBuffer();
    }

    /** linenoiseEditMoveRight() */
    method MoveRight()
      requires Holds() && Shown()
      modifies `pos, `oldpos, `maxrows, `shown, tty
      ensures Holds() && Shown() && Line() == L.Edited(old(Line()), L.Right, buflen)
      ensures buf[..len] == old(buf[..len]) && pos == if old(pos) < len then old(pos) + 1 else len
    {
      LineInBuffer();
      E.MoveMeans(Line(), buflen);
      hide Ready, Shows;
      if pos != len {
        pos := pos + 1;
        RefreshLine();
      }
      LineInBuffer();
    }

    /** linenoiseEditMoveHome() */
    method MoveHome()
      requires Holds() && Shown()
      modifies `pos, `oldpos, `maxrows, `shown, tty
      ensures Holds() && Shown() && Line() == L.Edited(old(Line()), L.ToStart, buflen)
      ensures buf[..len] == old(buf[..len]) && pos == 0
    {
      LineInBuffer();
      E.MoveMeans(Line(), buflen);
      hide Ready, Shows;
      ghost var l := Line();
      if pos != 0 {
        pos := 0;
        RefreshLine();
      }
      assert buf[..len] == l.left + l.right;
      LineInBuffer();
    }

    /** linenoiseEditMoveEnd() */
    method MoveEnd()
      requires Holds() && Shown()
      modifies `pos, `oldpos, `maxrows, `shown, tty
      ensures Holds() && Shown() && Line() == L.Edited(old(Line()), L.ToEnd, buflen)
      ensures buf[..len] == old(buf[..len]) && pos == len
    {
      LineInBuffer();
      E.MoveMeans(Line(), buflen);
      hide Ready, Shows;
      ghost var l := Line();
      if pos != len {
        pos := len;
        RefreshLine();
      }
      assert buf[..len] == l.left + l.right;
      LineInBuffer();
    }

    /** One character goes, and the rest of the line moves over; the cursor is where it was. */
    method Take(at: nat)
      requires Holds() && at < len && pos <= len - 1
      modifies buf, `len
      ensures Holds() && len == old(len) - 1 && buf[..len] == old(buf[..at]) + old(buf[at + 1..len])
    {
      ghost var b := buf[..];
      Memmove(buf, at, at + 1, len - at - 1);
      len := len - 1;
      buf[len] := NUL;
      assert b[..at] == old(buf[..at]) && b[at + 1..len + 1] == old(buf[at + 1..len]);
      assert buf[..len] == b[..at] + b[at + 1..len + 1];
      assert forall k | 0 <= k < len :: buf[k] == if k < at then b[k] else b[k + 1];
    }

    /** linenoiseEditDelete() */
    method Delete()
      requires Holds() && Shown()
      modifies buf, `len, `oldpos, `maxrows, `shown, tty
      ensures Holds() && Shown() && Line() == L.Edited(old(Line()), L.Delete, buflen)
      ensures if old(pos) < old(len) then buf[..len] == old(buf[..pos]) + old(buf[pos + 1..len])
              else buf[..len] == old(buf[..len])
    {
      hide Ready, Shows, L.Edited;
      LineInBuffer();
      E.DeleteMeans(Line(), buflen);
      if len > 0 && pos < len {
        ghost var goal := L.Edited(Line(), L.Delete, buflen);
        Take(pos);
        LineInBuffer();
        SameLine(Line(), goal);
        RefreshLine();
      }
    }

    /** linenoiseEditBackspace() */
    method Backspace()
      requires Holds() && Shown()
      modifies buf, `pos, `len, `oldpos, `maxrows, `shown, tty
      ensures Holds() && Shown() && Line() == L.Edited(old(Line()), L.Backspace, buflen)
      ensures if old(pos) > 0 then buf[..len] == old(buf[..pos - 1]) + old(buf[pos..len]) && pos == old(pos) - 1
              else buf[..len] == old(buf[..len]) && pos == 0
    {
      hide Ready, Shows, L.Edited;
      LineInBuffer();
      E.DeleteMeans(Line(), buflen);
      if pos > 0 && len > 0 {
        ghost var goal := L.Edited(Line(), L.Backspace, buflen);
        pos := pos - 1;
        Take(pos);
        LineInBuffer();
        SameLine(Line(), goal);
        RefreshLine();
      }
    }

    /** The loops of linenoiseEditDeletePrevWord(): back over blanks, then over the word before them. */
    method SkipWordBack()
      requires Holds()
      modifies `pos
      ensures pos <= old(pos) && buf[..pos] == L.TrimWord(L.TrimBlanks(buf[..old(pos)]))
    {
      ghost var left := buf[..pos];
      while pos > 0 && buf[pos - 1] == ' '
        invariant pos <= old(pos) && L.TrimBlanks(buf[..pos]) == L.TrimBlanks(left)
      {
        assert L.Front(buf[..pos]) == buf[..pos - 1];
        pos := pos - 1;
      }
      while pos > 0 && buf[pos - 1] != ' '
        invariant pos <= old(pos) && L.TrimWord(buf[..pos]) == L.TrimWord(L.TrimBlanks(left))
      {
        assert L.Front(buf[..pos]) == buf[..pos - 1];
        pos := pos - 1;
      }
    }

    /** memmove() of the rest of the line, its NUL included, down to the cursor. */
    method CloseGap(from: nat)
      requires 1 <= buflen < buf.Length && pos <= from <= len <= buflen
      requires buf[len] == NUL && NUL !in buf[..len]
      modifies buf, `len
      ensures Holds() && Line() == L.Line(old(buf[..pos]), old(buf[from..len]))
    {
      GapClosed(buf[..], pos, from, len);
      Memmove(buf, pos, from, len - from + 1);
      len := len - (from - pos);
      TextInPlaces(buf[..], pos, len);
    }

    method RemoveWord()
      requires Holds()
      modifies buf, `pos, `len
      ensures Holds() && Line() == L.Edited(old(Line()), L.DeleteWord, buflen)
      ensures pos <= old(pos) && buf[..len] == old(buf[..])[..pos] + old(buf[pos..len])
      ensures exists w :: E.WordBefore(old(buf[..len]), pos, w, old(pos))
    {
      hide L.TrimBlanks, L.TrimWord, E.WordBefore;
      ghost var text := buf[..len];
      LineInBuffer();
      ghost var m, w := E.DeleteWordMeans(Line(), buflen);
      var oldPos := pos;
      SkipWordBack();
      CloseGap(oldPos);
      LineInBuffer();
      assert E.WordBefore(text, pos, w, oldPos);
    }

    /** linenoiseEditDeletePrevWord() */
    method DeletePrevWord()
      requires Holds() && Shown()
      modifies buf, `pos, `len, `oldpos, `maxrows, `shown, tty
      ensures Holds() && Shown() && Line() == L.Edited(old(Line()), L.DeleteWord, buflen)
      ensures pos <= old(pos) && buf[..len] == old(buf[..])[..pos] + old(buf[pos..len])
      ensures exists w :: E.WordBefore(old(buf[..len]), pos, w, old(pos))
    {
      hide Ready, Shows, L.Edited, E.WordBefore;
      RemoveWord();
      RefreshLine();
    }

    /** The characters around the cursor change places. */
    method SwapAround()
      requires Holds() && 0 < pos < len
      modifies buf, `pos
      ensures Holds() && Line() == L.Edited(old(Line()), L.Transpose, buflen)
      ensures buf[..len] == old(buf[..len])[old(pos) - 1 := old(buf[pos])][old(pos) := old(buf[pos - 1])]
      ensures pos == if old(pos) == len - 1 then old(pos) else old(pos) + 1
    {
      LineInBuffer();
      E.TransposeMeans(Line(), buflen);
      ghost var l, goal := Line(), L.Edited(Line(), L.Transpose, buflen);
      hide L.Edited;
      var aux := buf[pos - 1];
      buf[pos - 1] := buf[pos];
      buf[pos] := aux;
      if pos != len - 1 { pos := pos + 1; }
      LineInBuffer();
      SameLine(Line(), goal);
    }

    /** Ctrl-T: swap the characters around the cursor. */
    method Transpose()
      requires Holds() && Shown()
      modifies buf, `pos, `oldpos, `maxrows, `shown, tty
      ensures Holds() && Shown() && Line() == L.Edited(old(Line()), L.Transpose, buflen)
      ensures if 0 < old(pos) < len then
                && buf[..len] == old(buf[..len])[old(pos) - 1 := old(buf[pos])][old(pos) := old(buf[pos - 1])]
                && pos == if old(pos) == len - 1 then old(pos) else old(pos) + 1
              else buf[..len] == old(buf[..len]) && pos == old(pos)
    {
      LineInBuffer();
      E.TransposeMeans(Line(), buflen);
      hide Ready, Shows, L.Edited;
      if pos > 0 && pos < len {
        SwapAround();
        RefreshLine();
      }
    }

    /** Ctrl-U: delete the whole line. */
    method KillLine()
      requires Holds() && Shown()
      modifies buf, `pos, `len, `oldpos, `maxrows, `shown, tty
      ensures Holds() && Shown() && Line() == L.Edited(old(Line()), L.KillLine, buflen)
      ensures len == 0 && pos == 0
    {
      LineInBuffer();
      E.KillMeans(Line(), buflen);
      hide Ready, Shows;
      buf[0] := NUL;
      pos, len := 0, 0;
      RefreshLine();
      LineInBuffer();
    }

    /** Ctrl-K: delete from the cursor to the end. */
    method KillToEnd()
      requires Holds() && Shown()
      modifies buf, `len, `oldpos, `maxrows, `shown, tty
      ensures Holds() && Shown() && Line() == L.Edited(old(Line()), L.KillToEnd, buflen)
      ensures buf[..len] == old(buf[..pos]) && len == pos
    {
      LineInBuffer();
      E.KillMeans(Line(), buflen);
      hide Ready, Shows;
      buf[pos] := NUL;
      len := pos;
      RefreshLine();
      LineInBuffer();
    }

    // -------------------------------------------------------------------
    // History
    // -------------------------------------------------------------------

    /** The history holds C strings, and the line being edited has its place in it. */
    ghost predicate LogHolds()
      reads `historyIndex, log, log.lines
    {
      && log.Valid()
      && historyIndex < |log.Entries()|
      && forall k | 0 <= k < |log.Entries()| :: NUL !in log.Entries()[k]
    }

    ghost function Session(): (s: L.Session)
      requires Holds() && LogHolds()
      reads `pos, `len, buf, `historyIndex, log, log.lines
      ensures s.Valid()
    {
      L.Session(Line(), log.Entries(), historyIndex)
    }

    /** strncpy() of an entry, the NUL after it, and strlen(). */
    method LoadEntry(entry: string)
      requires 1 <= buflen < buf.Length && NUL !in entry
      modifies buf, `pos, `len
      ensures Holds() && Line() == L.Line(L.Loaded(entry, buflen), "")
    {
      forall i | 0 <= i < buflen {
        buf[i] := if i < |entry| then entry[i] else NUL;
      }
      buf[buflen - 1] := NUL;
      ghost var n := |L.Loaded(entry, buflen)|;
      assert buf[..n] == L.Loaded(entry, buflen);
      TextIsPrefix(buf[..], n);
      len := |Text(buf[..])|;
      pos := len;
    }

    /** The line as it is replaces the entry it belongs to. */
    method SaveEntry()
      requires Holds() && LogHolds()
      modifies log.lines
      ensures Holds() && LogHolds() && buf[..] == old(buf[..])
      ensures log.Entries() == old(log.Entries())[old(Session()).Slot() := Line().Text()]
    {
      TextIsPrefix(buf[..], len);
      assert Line().Text() == buf[..len];
      log.lines[log.len - 1 - historyIndex] := Text(buf[..]);
    }

    /** linenoiseEditHistoryNext() */
    method HistoryNext(older: bool)
      requires Holds() && Shown() && LogHolds()
      modifies buf, `pos, `len, `oldpos, `maxrows, `shown, `historyIndex, tty, log.lines
      ensures Holds() && Shown() && LogHolds() && Session() == L.Browse(old(Session()), older, buflen)
    {
      hide Ready, Shows;
      if log.len > 1 {
        SaveEntry();
        if older && historyIndex + 1 == log.len {
          return;
        }
        if !older && historyIndex == 0 {
          return;
        }
        historyIndex := if older then historyIndex + 1 else historyIndex - 1;
        LoadEntry(log.lines[log.len - 1 - historyIndex]);
        RefreshLine();
      }
    }

    // -------------------------------------------------------------------
    // Completion
    // -------------------------------------------------------------------

    /** read() of one character; -1 when nothing more is typed. */
    method Read() returns (c: int)
      modifies `input
      ensures if old(input) == "" then c == -1 && input == ""
              else c == old(input)[0] as int && input == old(input)[1..]
    {
      if input == "" {
        return -1;
      }
      c := input[0] as int;
      input := input[1..];
    }

    /** The read() of linenoiseEdit(): keys are waited for only while the screen shows the line. */
    method ReadKey() returns (c: int)
      requires Holds() && Shown()
      modifies `input
      ensures Holds() && Shown()
      ensures if old(input) == "" then c == -1 && input == ""
              else c == old(input)[0] as int && input == old(input)[1..]
    {
      hide Ready, Shows;
      c := Read();
    }

    /**
     * snprintf() of a chosen offer into the buffer. It returns the length the text would have had,
     * so the line is well formed afterwards exactly when the offer fits.
     */
    method AcceptOffer(offer: string)
      requires 1 <= buflen < buf.Length && NUL !in offer
      modifies buf, `pos, `len
      ensures Holds() <==> |offer| < buflen
      ensures |offer| < buflen ==> Line() == L.Line(offer, "")
    {
      var fits := if |offer| < buflen then |offer| else buflen - 1;
      forall i | 0 <= i < fits {
        buf[i] := offer[i];
      }
      buf[fits] := NUL;
      len := |offer|;
      pos := len;
      if |offer| < buflen {
        assert buf[..len] == offer;
      } else if len <= buflen {
        assert buf[..len][fits] == NUL;
      }
    }

    /** completeLine(): what it returns is the last key read. */
    method CompleteLine() returns (c: int)
      requires Holds() && Shown() && completer.Some? && Offers(completer, buflen)
      modifies buf, `pos, `len, `oldpos, `maxrows, `shown, `input, tty
      ensures Holds() && Ready() && (c >= 0 ==> Shown())
      ensures var l, offers := old(Line()), completer.offers(old(Line()).Text());
              if offers == [] then c == 0 && Line() == l && input == old(input)
              else
                var choice := L.Choose(old(input), |offers|, 0);
                c == choice.key && input == old(input)[choice.used..] && Line() == L.Chosen(l, offers, choice.i)
    {
      hide Ready, Shows;
      assert Line().Text() == buf[..len];
      var offers := completer.offers(buf[..len]);
      if |offers| == 0 {
        return 0;
      }
      ghost var goal := L.Choose(input, |offers|, 0);
      ghost var used: nat := 0;
      var i: nat := 0;
      while true
        invariant i <= |offers| && used <= |old(input)| && input == old(input)[used..]
        invariant goal == L.Choose(input, |offers|, i).(used := used + L.Choose(input, |offers|, i).used)
        invariant Holds() && Ready() && pos == old(pos) && len == old(len) && buf[..] == old(buf[..])
        decreases |input|
      {
        if i < |offers| {
          Repaint(offers[i], |offers[i]|);
        } else {
          RefreshLine();
        }
        c := Read();
        if c < 0 {
          return -1;
        }
        used := used + 1;
        if c == 9 {
          i := (i + 1) % (|offers| + 1);
        } else if c == 27 {
          if i < |offers| {
            RefreshLine();
          }
          return c;
        } else {
          if i < |offers| {
            AcceptOffer(offers[i]);
            assert buf[..len] == offers[i];
          }
          return if c > 127 then -1 else c;
        }
      }
    }

    // -------------------------------------------------------------------
    // Keys
    // -------------------------------------------------------------------

    /** Ctrl-L */
    method ClearScreen()
      requires Holds() && Shown()
      modifies `oldpos, `maxrows, `shown, `base, `start, tty
      ensures Holds() && Shown() && base == 0 && BlankFrom(start, 0)
    {
      ScreenCleared(tty.screen);
      RowInRange();
      tty.Write([Home, ED]);
      base, start := 0, tty.screen;
      RefreshLine();
    }

    lemma RowInRange()
      requires Ready()
      ensures mlmode ==> (|prompt| + oldpos) / cols < Managed(maxrows)
    {
    }

    /** The key that `ESC [` and a letter stand for. */
    method CursorKey(letter: char)
      requires Holds() && Shown() && LogHolds()
      modifies buf, `pos, `len, `oldpos, `maxrows, `shown, `historyIndex, tty, log.lines
      ensures Holds() && Shown() && LogHolds()
      ensures Session() == L.Press(old(Session()), L.CursorKey(letter), buflen)
    {
      hide Holds, Shown, Ready, Shows, LogHolds, L.Edited, L.Browse;
      match letter
      case 'A' => HistoryNext(true);
      case 'B' => HistoryNext(false);
      case 'C' => MoveRight();
      case 'D' => MoveLeft();
      case 'H' => MoveHome();
      case 'F' => MoveEnd();
      case _ =>
    }

    /** An escape sequence with a bracket, its first three characters having been read. */
    method Bracketed(seq1: char)
      requires Holds() && Shown() && LogHolds()
      modifies buf, `pos, `len, `oldpos, `maxrows, `shown, `historyIndex, `input, tty, log.lines
      ensures Holds() && Shown() && LogHolds()
      ensures var d := L.DecodeEscape([27 as char, '[', seq1] + old(input));
              Session() == L.Press(old(Session()), d.cmd, buflen) && d.used >= 3 && input == old(input)[d.used - 3..]
    {
      hide Holds, Shown, Ready, Shows, LogHolds, L.Edited, L.Browse, L.CursorKey;
      if '0' <= seq1 <= '9' {
        var seq2 := Read();
        if seq2 == -1 { return; }
        if seq2 == '~' as int && seq1 == '3' {
          Delete();
        }
      } else {
        CursorKey(seq1);
      }
    }

    /** An escape sequence, its first character having been read. */
    method Escape()
      requires Holds() && Shown() && LogHolds()
      modifies buf, `pos, `len, `oldpos, `maxrows, `shown, `historyIndex, `input, tty, log.lines
      ensures Holds() && Shown() && LogHolds()
      ensures var d := L.DecodeEscape([27 as char] + old(input));
              Session() == L.Press(old(Session()), d.cmd, buflen) && input == old(input)[d.used - 1..]
    {
      hide Holds, Shown, Ready, Shows, LogHolds, L.Edited, L.Browse, L.CursorKey;
      var seq0 := Read();
      if seq0 == -1 { return; }
      var seq1 := Read();
      if seq1 == -1 { return; }
      if seq0 == '[' as int {
        Bracketed(seq1 as char);
      } else if seq0 == 'O' as int {
        if seq1 == 'H' as int {
          MoveHome();
        } else if seq1 == 'F' as int {
          MoveEnd();
        }
      }
    }

    /** The switch of linenoiseEdit(), for a key that neither ends the session nor clears the screen. */
    method PressInPlace(c: int)
      requires Holds() && Shown() && LogHolds()
      requires 0 < c < 256 && c != 12 && c != 13 && c != 3 && (c == 4 ==> len > 0)
      modifies buf, `pos, `len, `oldpos, `maxrows, `shown, `historyIndex, `input, tty, log.lines
      ensures Holds() && Shown() && LogHolds()
      ensures var d := L.Decode([c as char] + old(input), false);
              Session() == L.Press(old(Session()), d.cmd, buflen) && input == old(input)[d.used - 1..]
    {
      hide Holds, Shown, Ready, Shows, LogHolds, L.Edited, L.Browse, L.DecodeEscape;
      if c == 127 || c == 8 {
        Backspace();
      } else if c == 4 {
        Delete();
      } else if c == 20 {
        Transpose();
      } else if c == 2 {
        MoveLeft();
      } else if c == 6 {
        MoveRight();
      } else if c == 16 {
        HistoryNext(true);
      } else if c == 14 {
        HistoryNext(false);
      } else if c == 27 {
        Escape();
      } else if c == 21 {
        KillLine();
      } else if c == 11 {
        KillToEnd();
      } else if c == 1 {
        MoveHome();
      } else if c == 5 {
        MoveEnd();
      } else if c == 23 {
        DeletePrevWord();
      } else {
        Insert(c as char);
      }
    }

    /** The switch, for any key that does not end the session. Only Ctrl-L moves the line or touches what is around. */
    method Press(c: int)
      requires Holds() && Shown() && LogHolds()
      requires 0 < c < 256 && c != 13 && c != 3 && (c == 4 ==> len > 0)
      modifies buf, `pos, `len, `oldpos, `maxrows, `shown, `historyIndex, `input, `base, `start, tty, log.lines
      ensures Holds() && Shown() && LogHolds()
      ensures var d := L.Decode([c as char] + old(input), false);
              Session() == L.Press(old(Session()), d.cmd, buflen) && input == old(input)[d.used - 1..]
      ensures if c == 12 then base == 0 && BlankFrom(start, 0) else base == old(base) && start == old(start)
    {
      hide Holds, Shown, Ready, Shows, LogHolds, L.Edited, L.Browse, L.DecodeEscape, BlankFrom;
      if c == 12 {
        ClearScreen();
      } else {
        PressInPlace(c);
      }
    }

    /** The history gives up the entry of the line being edited. */
    method PopEntry()
      requires LogHolds()
      modifies log`len
      ensures log.Valid() && log.Entries() == L.Pop(old(log.Entries()))
    {
      log.len := log.len - 1;
    }

    /** Enter */
    method AcceptLine() returns (r: L.Outcome)
      requires Holds() && Shown() && LogHolds()
      modifies `pos, `oldpos, `maxrows, `shown, tty, log`len
      ensures log.Valid() && Holds() && Ready() && Shown()
      ensures r == L.Accepted(old(Line()).Text(), L.Pop(old(log.Entries()))) && log.Entries() == r.hist
      ensures Line().Text() == r.text
    {
      hide Shown, Ready, Shows;
      ShownIsReady();
      PopEntry();
      if mlmode {
        MoveEnd();
        ShownIsReady();
      }
      r := L.Accepted(buf[..len], log.lines[..log.len]);
      assert Line().Text() == buf[..len];
      assert old(Line()).Text() == buf[..len];
    }

    /** The switch of linenoiseEdit(): the outcome, if the key ends the session. */
    method Dispatch(c: int) returns (ended: bool, r: L.Outcome)
      requires Holds() && Shown() && LogHolds() && Bytes(input)
      requires 0 < c < 256 && (c == 9 ==> completer.None?)
      modifies buf, `pos, `len, `oldpos, `maxrows, `shown, `historyIndex, `input, `base, `start, tty, log, log.lines
      ensures log.Valid() && log.lines == old(log.lines) && log.max == old(log.max)
      ensures Holds() && Ready() && Shown()
      ensures var goal := L.RunSession([c as char] + old(input), old(Session()), buflen, completer);
              if ended then r == goal && log.Entries() == r.hist && (r.Accepted? ==> Line().Text() == r.text)
              else LogHolds() && Bytes(input) && |input| <= |old(input)| && |log.Entries()| == |old(log.Entries())|
                   && L.RunSession(input, Session(), buflen, completer) == goal
      ensures if c == 12 then base == 0 && BlankFrom(start, 0) else base == old(base) && start == old(start)
      ensures FORM_FEED !in old(input) ==> FORM_FEED !in input
    {
      hide Shown, Ready, Shows, L.Press, L.RunSession, L.Decode, BlankFrom, Bytes;
      ShownIsReady();
      OneKey(c, input, Session(), buflen, completer);
      ended := true;
      if c == 13 {
        r := AcceptLine();
      } else if c == 3 {
        r := L.Refused(log.lines[..log.len]);
      } else if c == 4 && len == 0 {
        PopEntry();
        r := L.Refused(log.lines[..log.len]);
      } else {
        ended := false;
        r := L.Refused([]);
        Press(c);
        BytesDrop(old(input), L.Decode([c as char] + old(input), false).used - 1);
        ShownIsReady();
      }
    }

    /** A tab, when completion is set up: what is left to be done with the key that comes back. */
    method CompleteKey() returns (c: int)
      requires Holds() && Shown() && LogHolds()
      requires completer.Some? && Offers(completer, buflen) && Bytes(input)
      modifies buf, `pos, `len, `oldpos, `maxrows, `shown, `input, tty
      ensures Holds() && Ready() && (c >= 0 ==> Shown()) && LogHolds() && Bytes(input) && |input| <= |old(input)|
      ensures FORM_FEED !in old(input) ==> FORM_FEED !in input && c != 12
      ensures c > 0 ==> c < 256 && c != 9 && |input| < |old(input)|
      ensures var goal := L.RunSession([9 as char] + old(input), old(Session()), buflen, completer);
              goal == if c < 0 then L.Accepted(Line().Text(), log.Entries())
                      else if c == 0 then L.RunSession(input, Session(), buflen, completer)
                      else L.RunSession([c as char] + input, Session(), buflen, completer)
    {
      hide Shown, Ready, Shows, L.Choose, L.RunSession;
      OneCompletion([9 as char] + input, Session(), buflen, completer);
      c := CompleteLine();
    }

    /** One key, with what is typed after it in a completion: the outcome, if that ends the session. */
    method Turn() returns (ended: bool, r: L.Outcome)
      requires Holds() && Shown() && LogHolds()
      requires Offers(completer, buflen) && Bytes(input)
      modifies buf, `pos, `len, `oldpos, `maxrows, `shown, `historyIndex, `input, `base, `start, tty, log, log.lines
      ensures log.Valid() && log.lines == old(log.lines) && log.max == old(log.max)
      ensures Holds() && Ready()
      ensures var goal := L.RunSession(old(input), old(Session()), buflen, completer);
              if ended then
                && r == goal && log.Entries() == r.hist && (r.Accepted? ==> Line().Text() == r.text)
                && (Shown() || (r.Accepted? && |r.hist| == |old(log.Entries())|))
              else
                && Shown() && LogHolds() && Bytes(input) && |input| < |old(input)|
                && |log.Entries()| == |old(log.Entries())|
                && L.RunSession(input, Session(), buflen, completer) == goal
      ensures (base == old(base) && start == old(start)) || (base == 0 && BlankFrom(start, 0))
      ensures FORM_FEED !in old(input) ==> base == old(base) && start == old(start) && FORM_FEED !in input
    {
      hide Line, Shown, Ready, Shows, L.Choose, L.Chosen, L.RunSession, BlankFrom, L.Begin, Bytes, Offers;
      ghost var before := input;
      ShownIsReady();
      NoKey(Session(), buflen, completer);
      var c := ReadKey();
      if c < 0 {
        return true, L.Refused(log.lines[..log.len]);
      }
      assert before == [c as char] + input;
      BytesDrop(before, 1);
      FirstByte(before);
      if c == 9 && completer.Some? {
        c := CompleteKey();
        if c < 0 {
          LineInBuffer();
          return true, L.Accepted(buf[..len], log.lines[..log.len]);
        }
        if c == 0 {
          return false, L.Refused([]);
        }
      }
      ended, r := Dispatch(c);
    }

    /**
     * linenoiseEdit(): one line, from the first key to the last. Before every key is read the screen
     * shows the line as it then is, and so at the end unless a read has failed in a completion. The
     * line stays where it began and nothing around it is touched, unless Ctrl-L has cleared the screen.
     */
    method Edit() returns (r: L.Outcome)
      requires Holds() && Shown() && LogHolds()
      requires Offers(completer, buflen) && Bytes(input)
      modifies buf, `pos, `len, `oldpos, `maxrows, `shown, `historyIndex, `input, `base, `start, tty, log, log.lines
      ensures r == L.RunSession(old(input), old(Session()), buflen, completer)
      ensures log.Valid() && log.Entries() == r.hist && log.lines == old(log.lines) && log.max == old(log.max)
      ensures Holds() && Ready() && (r.Accepted? ==> Line().Text() == r.text)
      ensures Shown() || (r.Accepted? && |r.hist| == |old(log.Entries())|)
      ensures (base == old(base) && start == old(start)) || (base == 0 && BlankFrom(start, 0))
      ensures FORM_FEED !in old(input) ==> base == old(base) && start == old(start)
    {
      hide Shown, Ready, Shows, L.RunSession, BlankFrom, Bytes, Offers;
      ghost var goal := L.RunSession(input, Session(), buflen, completer);
      while true
        invariant log.Valid() && log.lines == old(log.lines) && log.max == old(log.max)
        invariant Holds() && Shown() && LogHolds() && Bytes(input) && |log.Entries()| == |old(log.Entries())|
        invariant L.RunSession(input, Session(), buflen, completer) == goal
        invariant (base == old(base) && start == old(start)) || (base == 0 && BlankFrom(start, 0))
        invariant FORM_FEED !in old(input) ==> base == old(base) && start == old(start) && FORM_FEED !in input
        decreases |input|
      {
        var ended;
        ended, r := Turn();
        if ended {
          return;
        }
      }
    }

    /** What `Ready` says about the screen around the line. */
    lemma Undisturbed()
      requires Ready()
      ensures tty.screen.Valid() && tty.screen.cols == cols
      ensures if mlmode then SameAbove(start, tty.screen, base) else SameElsewhere(start, tty.screen, base)
    {
    }

    lemma ShownIsDisplayed()
      requires Holds() && Ready()
      ensures Shown() ==> Displayed(tty.screen, base, prompt, Line().Text(), mlmode)
    {
      assert Line().Text() == buf[..len];
    }

    lemma ShownIsReady()
      requires Holds() && Shown()
      ensures Ready()
    {
    }
  }

  /** linenoise() on a terminal: a line is edited from nothing, and the session goes by the keys typed. */
  method Linenoise(buf: array<char>, buflen: nat, prompt: string, cols: nat, mlmode: bool, tty: Tty, log: Log,
                   completer: L.Completer, input: string) returns (r: L.Outcome)
    requires 2 <= buflen <= buf.Length
    requires |prompt| < cols && (mlmode || prompt != "")
    requires tty.screen.Valid() && tty.screen.cols == cols && tty.screen.col == 0
    requires if mlmode then Refresh.Screen.Shows(tty.screen, tty.screen.row, "")
             else tty.screen.RowAt(tty.screen.row) == Blanks(cols)
    requires log.Valid() && log.max >= 1 && forall k | 0 <= k < |log.Entries()| :: NUL !in log.Entries()[k]
    requires Offers(completer, buflen - 1) && Bytes(input)
    modifies buf, tty, log, log.lines
    ensures r == L.RunSession(input, L.Begin(old(log.Entries()), old(log.max)), buflen - 1, completer)
    ensures log.Valid() && log.Entries() == r.hist && log.max == old(log.max)
    ensures FORM_FEED !in input ==>
              if mlmode then SameAbove(old(tty.screen), tty.screen, old(tty.screen.row))
              else SameElsewhere(old(tty.screen), tty.screen, old(tty.screen.row))
    ensures FORM_FEED !in input && r.Accepted? && |r.hist| < |L.Begin(old(log.Entries()), old(log.max)).hist| ==>
              && tty.screen.Valid() && tty.screen.cols == cols
              && Displayed(tty.screen, old(tty.screen.row), prompt, r.text, mlmode)
  {
    hide LineState.Shown, LineState.Ready, LineState.Shows, L.RunSession, LineState.Holds, AddLine, Offers, Bytes;
    EntriesStayText(log.Entries(), log.max);
    var l := new LineState(buf, buflen, prompt, cols, mlmode, tty, log, completer, input);
    r := l.Edit();
    l.Undisturbed();
    l.ShownIsDisplayed();
  }

  /** The line is on display from row `base`: all of it, or the part of it around some cursor. */
  ghost predicate Displayed(s: Screen, base: nat, prompt: string, text: string, mlmode: bool)
    requires s.Valid() && |prompt| < s.cols
  {
    if mlmode then Refresh.Screen.Shows(s, base, prompt + text)
    else exists p: nat | p <= |text| :: s.RowAt(base) == Padded(prompt + Window(|prompt|, text, p, s.cols), s.cols)
  }

  lemma EntriesStayText(hist: seq<string>, max: nat)
    requires max >= 1 && forall k | 0 <= k < |hist| :: NUL !in hist[k]
    ensures var h := AddLine(hist, max, "");
            h != [] && forall k | 0 <= k < |h| :: NUL !in h[k]
  {
  }

  lemma NoKey(s: L.Session, cap: nat, completer: L.Completer)
    requires s.Valid() && cap >= 1
    ensures L.RunSession("", s, cap, completer) == L.Refused(s.hist)
  {
  }

  lemma EscapeContinues(input: string)
    requires input != ""
    ensures var cmd := L.DecodeEscape(input).cmd;
            !cmd.Enter? && !cmd.Interrupt? && !cmd.Complete? && !cmd.DeleteOrEof?
  {
  }

  /** A session from a key that is not for completion. */
  lemma {:induction false} OneKey(c: int, input: string, s: L.Session, cap: nat, completer: L.Completer)
    requires s.Valid() && cap >= 1 && 0 < c < 256 && (c == 9 ==> completer.None?)
    ensures var all := [c as char] + input;
            var d := L.Decode(all, false);
            L.RunSession(all, s, cap, completer) ==
              if c == 13 then L.Accepted(s.line.Text(), L.Pop(s.hist))
              else if c == 3 then L.Refused(s.hist)
              else if c == 4 && s.line.Text() == "" then L.Refused(L.Pop(s.hist))
              else L.RunSession(input[d.used - 1..], L.Press(s, d.cmd, cap), cap, completer)
  {
    hide L.DecodeEscape, L.Press, L.Pop;
    var all := [c as char] + input;
    var d := L.Decode(all, false);
    EscapeContinues(all);
    assert L.Decode(all, completer.Some?) == d;
    assert (d.cmd.Enter? <==> c == 13) && (d.cmd.Interrupt? <==> c == 3) && (d.cmd.DeleteOrEof? <==> c == 4);
    assert !d.cmd.Complete?;
    assert all[d.used..] == input[d.used - 1..];
  }

  /** A session from a tab, when completion is set up. */
  lemma {:induction false} OneCompletion(input: string, s: L.Session, cap: nat, completer: L.Completer)
    requires s.Valid() && cap >= 1 && input != "" && input[0] as int == 9 && completer.Some?
    ensures var offers := completer.offers(s.line.Text());
            L.RunSession(input, s, cap, completer) ==
              if offers == [] then L.RunSession(input[1..], s, cap, completer)
              else
                var choice := L.Choose(input[1..], |offers|, 0);
                var t := s.(line := L.Chosen(s.line, offers, choice.i));
                if choice.key < 0 then L.Accepted(t.line.Text(), t.hist)
                else if choice.key == 0 then L.RunSession(input[1..][choice.used..], t, cap, completer)
                else L.RunSession([choice.key as char] + input[1..][choice.used..], t, cap, completer)
  {
    var offers := completer.offers(s.line.Text());
    var rest := input[1..];
    var choice := L.Choose(rest, |offers|, 0);
    if choice.key > 0 {
      assert rest[choice.used - 1..] == [choice.key as char] + rest[choice.used..];
    }
  }

  lemma FirstByte(s: string)
    requires s != "" && Bytes(s)
    ensures 0 < s[0] as int < 256
  {
  }

  lemma BytesDrop(s: string, k: nat)
    requires k <= |s|
    ensures Bytes(s) ==> Bytes(s[k..])
    ensures FORM_FEED !in s ==> FORM_FEED !in s[k..]
  {
  }

  predicate Bytes(s: string) {
    forall k | 0 <= k < |s| :: 0 < s[k] as int < 256
  }

  /** Whatever completion offers is a C string that fits the buffer. */
  ghost predicate Offers(completer: L.Completer, cap: nat) {
    completer.Some? ==>
      forall text, k {:trigger completer.offers(text)[k]} | 0 <= k < |completer.offers(text)| ::
        |completer.offers(text)[k]| < cap && NUL !in completer.offers(text)[k]
  }

  lemma {:induction false} ScreenCleared(s: Screen)
    requires s.Valid()
    ensures var t := Run(s, [Home, ED]);
            Cleared(t, 0) && SameAbove(t, t, 0) && SameElsewhere(t, t, 0)
  {
    RunTwo(s, Home, ED);
  }

  /** Writing the prompt on a blank row draws the empty line. */
  lemma {:induction false} PromptDrawn(s: Screen, prompt: string, mlmode: bool)
    requires s.Valid() && |prompt| < s.cols && s.col == 0
    ensures var t := Run(s, Chars(prompt));
            if mlmode then
              Refresh.Screen.Shows(s, s.row, "") ==> Drawn(t, s.row, prompt, |prompt|, 0) && SameAbove(s, t, s.row)
            else
              s.RowAt(s.row) == Blanks(s.cols) ==>
                t.row == s.row && LineDrawn(t, prompt, "", 0) && SameElsewhere(s, t, s.row)
  {
    var n := |prompt|;
    if mlmode && Refresh.Screen.Shows(s, s.row, "") {
      PrintShows(s, s.row, "", prompt);
      assert "" + prompt == prompt;
      DivMod(n, s.cols, 0, n);
      if n > 0 { DivMod(n - 1, s.cols, 0, n - 1); }
    }
    if !mlmode && s.RowAt(s.row) == Blanks(s.cols) {
      PrintInRow(s, prompt);
      assert prompt + Window(n, "", 0, s.cols) == prompt;
      assert Overlay(Blanks(s.cols), 0, prompt) == Padded(prompt, s.cols);
    }
  }

  lemma NotFilled(plen: nat, len: nat, cols: nat)
    requires plen < cols
    ensures !PromptFillsRows(plen, len, cols)
  {
    DivMod(plen, cols, 0, plen);
  }

  lemma SameElsewhereTrans(s: Screen, t: Screen, u: Screen, row: nat)
    requires SameElsewhere(s, t, row) && SameElsewhere(t, u, row)
    ensures SameElsewhere(s, u, row)
  {
  }
}
