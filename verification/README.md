# A verified model of ppcom

ppcom is a terminal program for serial ports. This project models the parts of it that hold real
state, in Dafny, and proves what they promise. `dafny verify dfyconfig.toml` checks all of it.

| file | models |
|---|---|
| `Split.dfy`, `SplitLaws.dfy` | the quoting lexer that turns command lines into argument vectors |
| `Screen.dfy`, `Refresh.dfy` | a terminal, and the two redraw routines of the line editor that write to it |
| `History.dfy` | the line editor's history and its file |
| `LineSpec.dfy`, `EditLaws.dfy`, `LineEditor.dfy` | the line editor: keys as operations on the text around a cursor, what each of them does by its code, and the buffer edited in place that carries them out |
| `CharMap.dfy` | character mapping, and hexadecimal notation read and written |
| `TtyQueue.dfy` | the output queue, in a buffer that doubles |
| `MainLoop.dfy`, `LoopLaws.dfy`, `Ppcom.dfy` | the main loop as steps over whatever its environment does, how each of them ends and what each key does, and the program that takes those steps |
| `Transparency.dfy` | what the main loop amounts to: bytes typed arrive at the port |
| `Termios.dfy`, `TermiosLaws.dfy` | terminal settings: the bits behind rate, parity, data bits, stop bits, flow control and raw mode, and every one of them by its number |
| `TermTable.dfy`, `TermLaws.dfy`, `TermLib.dfy` | the table of managed terminals: every library call as a step, each call wherever it fails, and the library over arrays |
| `FdIo.dfy` | reading a line with plain echo, and writing all of a buffer |
| `MsgPak.dfy` | the message format of libffwd |
| `Bytes.dfy`, `CStrings.dfy` | bytes and NUL-terminated text |

Each part comes twice. One form is a function on values, about which the laws are proved. The other
has the shape of the source, with its buffers, loops and fields, and is proved to compute the first:
`Splitter` against `Lex`, `LineState` against `RunSession`, `Log` against `AddLine`, `TtyQ` against
`Push`, the class `Ppcom` against `MainLoop.Run`, `Term` against the functions of `TermTable`,
`FdReadline` against `Typed` and `Echo`, and `Pak` against `Deserialize`.

## What is proved, in short

- **Lexer.** `split_quoted` does what unbounded quoting rules say, cut to its buffer and its vector,
  with exact flags and failures. All text is accounted for: it leaves a quote or an escape open and
  fails, or it is made of tokens spelled in the characters of the rules and means what they do. So
  lists of words survive quoting and splitting, however they are written. Two calls on one vector
  are one call on the concatenation, which is what `run_cmd` relies on.
- **Line editor.** Before every key is read, the screen shows prompt and line with the cursor in
  place, in both modes and over every run; the line stays where it began and nothing around it is
  disturbed, unless Ctrl-L clears the screen. What a session returns is what its keys mean on two
  strings around a cursor, and what each key means there is said by its code and by positions in the
  text. The history is a bounded log.
- **Main loop.** On every run all accepted bytes are accounted for: sent, thrown away by a command,
  or still queued, in order. How a pass ends has an exact condition in every case. The exits that
  should wait for the queue do, and the end of standard input, once read, ends the program after the
  queue has drained. The escape machine depends on the bytes typed and not on how reads cut them, and
  every stream has its meaning. Together: without control input, and as long as the port keeps up so
  that the queue stays within its limit and memory, the init string and a stream typed with its escape
  bytes doubled have arrived at the port, mapped and whole, when the program leaves because its input
  has ended.
- **Terminal settings.** Every setting reads back as requested, from any prior bits, and every bit
  is where it should be, those that raw mode clears included. `term_set` sets everything or nothing
  on a managed terminal. After any run, cleanup and exit put back what each device held when it was
  added, HUPCL apart; should devices fail at exit, every terminal whose own settings can be stored is
  still put back.
- **Smaller parts.** The echo of `fd_readline` always shows its buffer. Messages survive
  `serialize` and `deserialize`.

## Where the code does not do what one would expect

The exact condition is proved for each of these. All but one, which says so, are kept as the code has
them.

- A flush command read in the same pass in which the port is to be written, with no key after it that
  queues anything, leaves nothing to write, and the write of nothing ends the program:
  `MainLoop.FatalAfterFlush` says for which keys, `MainLoop.FlowKeyIsFatal` gives two.
- `term_set` takes the slot of a terminal it adds to be 0. If setting then fails, slot 0 is given
  up: `TermTable.SetNewFails`. So it goes with the second of any two terminals:
  `TermTable.SecondSetLosesFirst`.
- `term_replace` by a managed descriptor leaves it in two slots: `TermTable.ReplaceMustBeSound`.
- The multi-line redraw puts the cursor a row too high on an empty line after a prompt that fills its
  rows exactly: `Refresh.MultiLineOutput`. The single-line redraw leaves the cursor in column 1
  instead of 0: `Refresh.SingleLineOutput`. The editor asks for a prompt shorter than the screen is
  wide and, in single-line mode, not empty; neither then happens.
- Going back in the history and forth again cuts a line that fills the buffer: `LineSpec.BackAndForth`.
- A session that only browses changes a history that is full or ends in an empty line, and cuts an
  entry that does not fit the buffer when a history key is pressed at it:
  `LineSpec.BrowsingKeepsHistory`.
- A session does not always give up the history entry it adds for the line being edited: not when it
  ends by Ctrl-C, nor when what is typed runs out, in a completion or outside. `LineSpec.EntryGoes`
  says when it does, `LineSpec.SessionKeepsCount` what that means for the length of the history.
- A completion that does not fit leaves the editor with a length past its buffer:
  `LineEditor.LineState.AcceptOffer`. The editor asks for offers shorter than the buffer length.
- `igncr` and `ignlf` map a character to nothing, as documented in `doc/ppcom.1.md`, but `do_map`
  ends in an assertion that the result is not empty. Here the model follows the documentation, as a
  build without assertions does; `CharMap.MapsToNothing` says exactly when the assertion fails.
- Without two bars, `deserialize` wraps positions around: `MsgPak.NoBars`, `MsgPak.OneBar`. A number
  that cannot be read leaves a message half changed: `MsgPak.Pak.FromText`.

## How the surroundings are modelled

- **Screen.** Rows of `cols` cells, a cursor, and the control functions CUU, CUD, CUF and EL of
  ECMA-48 (sections 8.3.22, 8.3.19, 8.3.20 and 8.3.41). A character in the last column leaves the
  cursor pending at column `cols`, where erasing to the end erases nothing. There is no bottom edge,
  and going up stops at the top, which Ctrl-L in multi-line mode needs. Every character takes one
  cell. When editing starts the cursor is in column 0 of a blank row, or of a blank area in
  multi-line mode.
- **Keys.** The editor's input is a string of characters 1 to 255; reading past its end fails. A key
  above 127 is negative as a `char`, which ends a completion as a failing read does. `cols` is given.
  The buffer has room for at least one character.
- **Main loop.** A pass is driven by an event: a signal, an interrupted or failing `select`, a
  timeout, or what each descriptor has to offer. `mem` is the largest block `realloc` can provide,
  `cap` is TTY_Q_SZ. The run starts with the queue primed by the init string; one that does not fit
  ends the program before the loop. With `--noinit` the init string is
  empty. A command learns from its environment the rate typed in, the rate the port then reports, and
  hexadecimal bytes typed in. A control line has at most 1023 bytes.
- **Devices.** A script says which of the coming calls succeed; when it is used up, all do. A device
  makes of the settings it is given what an arbitrary function says; a storing device keeps them. The
  mark glibc keeps in `c_iflag` never reaches a device (`src/ppcom/src/termios2.cpp:79`).
- **Settings.** A word of flags is the set of the positions of its one bits, by the numbers of Linux.
  `cfsetospeed`, `cfsetispeed`, `cfgetispeed` and `cfmakeraw` are those of glibc. Flag meanings are
  those of sections 11.2.2 and 11.2.4 of the POSIX General Terminal Interface.
- **Echo terminal.** One row without a right edge; `isprint` is that of the C locale; echoing
  succeeds.
- **Strings.** Results that C encodes in an `int` with flags, or in a `char` with errors below zero,
  are datatypes.

## Model

| member | source | states |
|---|---|---|
| `Split.SplitQuoted` | src/ppcom/src/split.cpp:87-192 | On success argv gains exactly the first arguments that have a slot, each cut to 511 characters, and nothing else in it changes; DROP is set iff there are more arguments than slots, TRUNC iff some argument, dropped or not, is longer; it fails iff the rules find an open quote or a trailing backslash; it always ends |
| `Split.Advance` | src/ppcom/include/split.h:51-82 | One rule applied at a position agrees with the recursive reading of the whole string |
| `Split.AnyLongSnoc` | src/ppcom/src/split.cpp:78-84 | Whether any argument is too long, as arguments are added |
| `Split.Splitter.constructor` | src/ppcom/src/split.cpp:98-104 | The state before the first character stands for the whole string |
| `Split.Splitter.Save` | src/ppcom/src/split.cpp:78-84 | A character becomes part of the word; the buffer keeps the first 511 and the flag records the rest |
| `Split.Splitter.Push` | src/ppcom/src/split.cpp:52-76 | The finished word goes to the next free slot, cut as the buffer is, or is dropped and flagged |
| `Split.Splitter.SkipDelims` | src/ppcom/src/split.cpp:107-107 | A run of delimiters is skipped without changing what the string means |
| `Split.Splitter.Delim` | src/ppcom/src/split.cpp:107-117 | The state between arguments follows the rules and makes progress |
| `Split.Splitter.Open` | src/ppcom/src/split.cpp:118-129 | A character that starts an argument, or an escaped newline that does not |
| `Split.Splitter.Escape` | src/ppcom/src/split.cpp:139-154 | A backslash inside double quotes follows the rules, stepping back one character included; the assertion that the quote is a double one holds |
| `Split.Splitter.Quote` | src/ppcom/src/split.cpp:130-159 | The state inside quotes follows the rules and makes progress; the assertion after it is unreachable |
| `Split.Splitter.Arg` | src/ppcom/src/split.cpp:160-184 | The state inside an argument follows the rules and makes progress |
| `Split.Splitter.Result` | src/ppcom/src/split.cpp:191-191 | At the end of the string, counters, flags and vector are those of the unbounded reading, cut to what fits |
| `SplitLaws.SqReads` | src/ppcom/include/split.h:62-64 | Text written between single quotes is read as itself |
| `SplitLaws.DqReads` | src/ppcom/include/split.h:66-76 | Between double quotes, plain text is itself, a backslash goes before a double quote, a backslash, a dollar sign or a backquote and stays before any other character, and an escaped newline is nothing |
| `SplitLaws.InWordReads` | src/ppcom/include/split.h:54-82 | Inside an argument, every kind of token adds what it means, and a delimiter ends the argument |
| `SplitLaws.BetweenReads` | src/ppcom/include/split.h:54-82 | Between arguments, delimiters and escaped newlines are skipped, and anything else begins one |
| `SplitLaws.ReadsAs` | src/ppcom/include/split.h:51-82 | Any text written in tokens, spelled in the characters themselves, is read as what the tokens mean, escaped newlines inside and between arguments included |
| `SplitLaws.PrintMeans` | src/ppcom/include/split.h:51-82 | What words and gaps written in tokens mean |
| `SplitLaws.RoundTrip` | src/ppcom/include/split.h:51-82 | Any list of words, empty ones included, is read back as exactly that list, however each is written in tokens and with any delimiters and escaped newlines in between |
| `SplitLaws.Writings` | src/ppcom/include/split.h:54-82 | Every word without NUL can be written so, in single quotes where it has none, in double quotes, and with backslashes where it has no newline |
| `SplitLaws.BoundedRoundTrip` | src/ppcom/src/split.cpp:87-192 | Onto any vector such words add those that have a slot, each cut to 511 characters; DROP iff a word has none, TRUNC iff one is longer |
| `SplitLaws.BoundedMalformed` | src/ppcom/src/split.cpp:105-191 | Text that leaves something open fails and keeps the arguments before the fault |
| `SplitLaws.MalformedExactly` | src/ppcom/src/split.cpp:105-191 | The rules fail exactly on text that leaves a quote open or ends in a backslash that escapes nothing, by a count that knows nothing of arguments |
| `SplitLaws.Spelling` | src/ppcom/include/split.h:51-82 | Text that leaves nothing open can be taken apart into tokens |
| `SplitLaws.EveryText` | src/ppcom/include/split.h:51-82 | So all text without NUL is accounted for: it fails, or is made of tokens and read as what they mean |
| `SplitLaws.LexConcat` | src/ppcom/src/split.cpp:105-189 | Reading well formed text, a delimiter and more text is reading the two one after the other |
| `SplitLaws.CallsConcatenate` | src/ppcom/src/split.cpp:87-192 | Two calls on the same vector do what one call on the concatenation does: the same arguments, count and failure, and the flags of both |
| `SplitLaws.SplitOnto` | src/ppcom/src/split.cpp:87-192 | A call on a partly filled vector, seen as a list of arguments |
| `SplitLaws.CommandVector` | src/ppcom/src/ppcom.cpp:1155-1171 | The vector handed to exec is that of the command with the extra arguments written after it; the three ways to give up, exactly |
| `Screen.RunConcat` | src/ppcom/src/linenoise.cpp:448-457 | Sequences collected in a buffer mean the same to the terminal as when written piece by piece |
| `Screen.PutNext` | src/ppcom/src/linenoise.cpp:541-543 | A character written at the end of wrapped text extends the text by one cell |
| `Screen.PrintShows` | src/ppcom/src/linenoise.cpp:541-543 | Text written on a blank area is shown wrapped at the screen width, with the cursor after it and all rows above untouched |
| `Screen.NextCell` | src/ppcom/src/linenoise.cpp:545-557 | Where the next character goes, the last column included |
| `Screen.LineSnoc` | src/ppcom/src/linenoise.cpp:541-543 | One more character changes exactly one cell of the layout |
| `Refresh.ClearOutput` | src/ppcom/src/linenoise.cpp:520-539 | From wherever the cursor is, every row in use is cleared and the cursor ends at the start of the first |
| `Refresh.CursorRow` | src/ppcom/src/linenoise.cpp:545-568 | When the row arithmetic finds the row of the cursor: always, except for an empty line after a prompt that fills its rows |
| `Refresh.CursorOutput` | src/ppcom/src/linenoise.cpp:545-577 | From the end of the text the cursor goes to its place, over the newline that an exact multiple needs |
| `Refresh.MultiLineOutput` | src/ppcom/src/linenoise.cpp:506-584 | Whatever was shown before, the screen shows prompt and text wrapped from the same row and nothing below, what is above is untouched, and the cursor is in its place iff the prompt does not fill its rows exactly before an empty line; the rows remembered cover the text |
| `Refresh.RewriteRow` | src/ppcom/src/linenoise.cpp:486-494 | Carriage return, text and erase leave a row with the text and blanks, whatever it held |
| `Refresh.Window` | src/ppcom/src/linenoise.cpp:476-483 | The part of the text that is shown fits beside the prompt and reaches to the cursor |
| `Refresh.SingleLineOutput` | src/ppcom/src/linenoise.cpp:467-500 | The cursor is in its column, counted with the prompt, or in the last one if that is past the edge (in column 1 for column 0, on any screen wider than one), every cell of its row is that of the prompt, of the text that far from the cursor, or blank, and no other row is touched |
| `Refresh.LineDrawnMeans` | src/ppcom/src/linenoise.cpp:467-500 | A line is on the screen iff the cursor and every cell of its row are so |
| `Refresh.FastPath` | src/ppcom/src/linenoise.cpp:605-608 | Writing just the new character at the end of a line with room draws the new line |
| `Refresh.AvoidedRedraw` | src/ppcom/src/linenoise.cpp:598-622 | The one character that is written in the trivial case leaves the same screen and cursor as everything refreshSingleLine would have written |
| `History.Log.Add` | src/ppcom/src/linenoise.cpp:1019-1046 | A repeat of the newest line is ignored, the oldest line makes room when the log is full |
| `History.Log.SetMaxLen` | src/ppcom/src/linenoise.cpp:1052-1078 | Exactly the newest lines that fit are kept; a limit below 1 changes nothing |
| `History.Log.Save` | src/ppcom/src/linenoise.cpp:1082-1091 | The file holds every line with a newline after it |
| `History.Log.Load` | src/ppcom/src/linenoise.cpp:1098-1114 | Each line of the file, read by a buffer of 4096 bytes, ended by a NUL in it and cut at CR or LF, is added in turn |
| `History.SavedNext` | src/ppcom/src/linenoise.cpp:1082-1091 | The file of a history with one line more is its file, that line and a newline |
| `History.BoundedLog` | src/ppcom/src/linenoise.cpp:1019-1046 | After any lines are added, the history is the newest of them that fit, in order, with consecutive repeats collapsed |
| `History.LoadSaved` | src/ppcom/src/linenoise.cpp:1082-1114 | Lines without NUL, CR and LF and of at most 4094 characters are read back from the file that was written |
| `History.LoadJoined` | src/ppcom/src/linenoise.cpp:1098-1114 | The lines of any file: each ends at a newline, at a carriage return or NUL, what follows that being ignored, at the end of the file, or after 4095 characters |
| `History.SaveLoad` | src/ppcom/src/linenoise.cpp:1082-1114 | Saving and then loading into an empty history rebuilds any history without adjacent repeats within its limit |
| `History.CollapseSnoc` | src/ppcom/src/linenoise.cpp:1031-1032 | A line equal to the one before it adds nothing |
| `LineSpec.TransposeKeeps` | src/ppcom/src/linenoise.cpp:802-810 | Transposing keeps every character |
| `EditLaws.DeleteMeans` | src/ppcom/src/linenoise.cpp:684-702 | Backspace drops the character before the cursor, delete the one after it, on the text |
| `EditLaws.InsertMeans` | src/ppcom/src/linenoise.cpp:598-622 | A character goes in before the cursor if there is room |
| `EditLaws.KillMeans` | src/ppcom/src/linenoise.cpp:881-890 | Everything goes, or everything from the cursor on |
| `EditLaws.MoveMeans` | src/ppcom/src/linenoise.cpp:625-655 | Cursor keys move by one or to either end and leave the text alone |
| `EditLaws.TransposeMeans` | src/ppcom/src/linenoise.cpp:802-810 | The characters around the cursor change places, and the cursor moves on unless it is at the last one |
| `EditLaws.DeleteWordMeans` | src/ppcom/src/linenoise.cpp:706-721 | Exactly the blanks before the cursor and the word before those go |
| `EditLaws.DeleteKeys` | src/ppcom/src/linenoise.cpp:788-801 | 127 and 8, 4 and ESC [ 3 ~: what is left of the text, and where the cursor is, in a whole session |
| `EditLaws.KillKeys` | src/ppcom/src/linenoise.cpp:802-890 | 21, 11 and 20, likewise |
| `EditLaws.WordKey` | src/ppcom/src/linenoise.cpp:901-903 | 23, likewise |
| `EditLaws.MoveKeys` | src/ppcom/src/linenoise.cpp:811-896 | 2, 6, 1 and 5, likewise |
| `EditLaws.ArrowKeys` | src/ppcom/src/linenoise.cpp:842-876 | The escape sequences for left, right, home and end, likewise |
| `EditLaws.InsertKeys` | src/ppcom/src/linenoise.cpp:878-880 | Any character that is not listed goes in before the cursor if there is room |
| `EditLaws.RuboutUndoesInsert` | src/ppcom/src/linenoise.cpp:694-702 | A character typed and rubbed out has not been typed, if there was room for it |
| `EditLaws.ClearKey` | src/ppcom/src/linenoise.cpp:897-900 | 12 changes neither text nor history |
| `EditLaws.MeaninglessKeys` | src/ppcom/src/linenoise.cpp:823-877 | Any other escape sequence changes nothing, and nothing of it is taken for text |
| `EditLaws.EndKeys` | src/ppcom/src/linenoise.cpp:760-801 | What 13, 3, 4 at an empty line and the end of input return, also inside an escape sequence |
| `EditLaws.HistoryKeys` | src/ppcom/src/linenoise.cpp:660-680 | 16, 14 and the arrow keys: the line is kept in its entry, and the entry one further back or forth, if there is one, is displayed as far as it fits |
| `EditLaws.TabsWalk` | src/ppcom/src/linenoise.cpp:360-401 | Where any number of tabs lead |
| `EditLaws.TabKeys` | src/ppcom/src/linenoise.cpp:349-405 | A tab shows the first offer and each one more the next, then the original text; another key makes it the line and does what it does; ESC goes back; a session that fails there returns the line and gives up no entry |
| `EditLaws.NoOffers` | src/ppcom/src/linenoise.cpp:354-357 | A tab without offers does nothing |
| `EditLaws.Begins` | src/ppcom/src/linenoise.cpp:746-752 | A session begins with an empty line in the newest place of the history |
| `LineSpec.Edited` | src/ppcom/src/linenoise.cpp:598-718 | No edit makes a line that fits the buffer too long for it |
| `LineSpec.Browse` | src/ppcom/src/linenoise.cpp:660-680 | The position in the history stays in bounds, and no entry is gained or lost |
| `LineSpec.BackAndForth` | src/ppcom/src/linenoise.cpp:660-680 | Back in the history and forth again restores the edited text iff it leaves a place free in the buffer; the position is the same again |
| `LineSpec.BrowseUnedited` | src/ppcom/src/linenoise.cpp:660-680 | Browsing without editing changes no entry |
| `LineSpec.BrowseDisplays` | src/ppcom/src/linenoise.cpp:660-680 | A history key keeps in the history what is displayed, and displays the neighbouring entry as far as it fits |
| `LineSpec.LookKeeps` | src/ppcom/src/linenoise.cpp:811-900 | Cursor keys, clearing the screen and unknown sequences change neither text nor history |
| `LineSpec.BrowsingOnly` | src/ppcom/src/linenoise.cpp:750-904 | A session of history keys, cursor keys and keys that do nothing, as single characters or escape sequences, then Enter, returns an entry of the history as far as it fits the buffer, and gives up only the entry it added; no other gets longer, and they are the same iff no history key was pressed at one that does not fit |
| `LineSpec.BrowsingKeepsHistory` | src/ppcom/src/linenoise.cpp:750-904 | Such a session leaves the history as it was iff there was room for its entry, the newest line was not empty, and no history key was pressed at an entry that does not fit the buffer |
| `LineSpec.BrowsingFitting` | src/ppcom/src/linenoise.cpp:750-904 | When all entries fit the buffer, only room and the newest entry matter |
| `LineSpec.ArrowsBrowse` | src/ppcom/src/linenoise.cpp:842-849 | The arrow keys browse as Ctrl-P and Ctrl-N do |
| `LineSpec.Press` | src/ppcom/src/linenoise.cpp:779-904 | So on every key |
| `LineSpec.EntryGoes` | src/ppcom/src/linenoise.cpp:728-907 | A session gives up one entry of the history, and no more, iff it ends by Enter or by Ctrl-D on an empty line: not by Ctrl-C, nor when what is typed runs out, while waiting for a key or in a completion |
| `LineSpec.SessionKeepsCount` | src/ppcom/src/linenoise.cpp:728-907 | Hence the history has as many entries after a session as before iff the session both added one and ended so, or did neither |
| `LineEditor.LineState.constructor` | src/ppcom/src/linenoise.cpp:728-756 | The line starts empty, its entry joins the history, and the screen shows the prompt |
| `LineEditor.LineState.Repaint` | src/ppcom/src/linenoise.cpp:588-593 | Redrawing, by the mode in force, shows the given text and cursor and disturbs nothing around the line |
| `LineEditor.LineState.RefreshLine` | src/ppcom/src/linenoise.cpp:588-593 | Redrawing shows the buffer |
| `LineEditor.LineState.Insert` | src/ppcom/src/linenoise.cpp:598-622 | The character goes in before the cursor if there is room; the buffer stays terminated and the screen shows it |
| `LineEditor.LineState.Append` | src/ppcom/src/linenoise.cpp:600-611 | At the end of the line, by the fast path or a redraw |
| `LineEditor.LineState.OpenGap` | src/ppcom/src/linenoise.cpp:613-617 | Inside the line, the rest moves over |
| `LineEditor.LineState.InsertBefore` | src/ppcom/src/linenoise.cpp:612-619 | Inside the line, and redrawn |
| `LineEditor.LineState.PutAtEnd` | src/ppcom/src/linenoise.cpp:605-608 | Writing only the character shows the new line |
| `LineEditor.LineState.MoveLeft` | src/ppcom/src/linenoise.cpp:625-630 | The cursor moves left, and the screen follows |
| `LineEditor.LineState.MoveRight` | src/ppcom/src/linenoise.cpp:633-638 | The cursor moves right |
| `LineEditor.LineState.MoveHome` | src/ppcom/src/linenoise.cpp:641-646 | The cursor moves to the start |
| `LineEditor.LineState.MoveEnd` | src/ppcom/src/linenoise.cpp:649-654 | The cursor moves to the end |
| `LineEditor.LineState.Delete` | src/ppcom/src/linenoise.cpp:684-690 | The buffer is what was before the cursor and what was after the character right of it |
| `LineEditor.LineState.Backspace` | src/ppcom/src/linenoise.cpp:694-702 | The buffer is what was before the character left of the cursor and what was after it, and the cursor is one to the left |
| `LineEditor.LineState.SkipWordBack` | src/ppcom/src/linenoise.cpp:710-713 | The start of the previous word, by two loops that stay in the buffer |
| `LineEditor.LineState.CloseGap` | src/ppcom/src/linenoise.cpp:714-716 | The rest of the line, its NUL included, moves down to the cursor |
| `LineEditor.LineState.Take` | src/ppcom/src/linenoise.cpp:686-699 | One character goes, and the rest of the buffer moves over |
| `LineEditor.LineState.RemoveWord` | src/ppcom/src/linenoise.cpp:706-719 | The word before the cursor goes, before the redraw |
| `LineEditor.LineState.SwapAround` | src/ppcom/src/linenoise.cpp:803-807 | The swap, before the redraw |
| `LineEditor.LineState.DeletePrevWord` | src/ppcom/src/linenoise.cpp:706-718 | The buffer is what was before the word before the cursor, blanks after it included, and what was after the cursor; exactly those blanks and that word go |
| `LineEditor.LineState.Transpose` | src/ppcom/src/linenoise.cpp:802-810 | In the buffer the characters around the cursor change places; the cursor moves on unless it is at the last one |
| `LineEditor.LineState.KillLine` | src/ppcom/src/linenoise.cpp:881-885 | The line is emptied, and the cursor is at its start |
| `LineEditor.LineState.KillToEnd` | src/ppcom/src/linenoise.cpp:886-890 | The buffer is what was before the cursor |
| `LineEditor.LineState.SaveEntry` | src/ppcom/src/linenoise.cpp:664-665 | The line replaces the entry it belongs to |
| `LineEditor.LineState.LoadEntry` | src/ppcom/src/linenoise.cpp:675-677 | The entry, as far as it fits, replaces the line |
| `LineEditor.LineState.PopEntry` | src/ppcom/src/linenoise.cpp:781-782 | The newest entry is given up |
| `LineEditor.LineState.Read` | src/ppcom/src/linenoise.cpp:760-766 | One character of what is typed, or a failure after its end |
| `LineEditor.LineState.ReadKey` | src/ppcom/src/linenoise.cpp:760-766 | A key is waited for only while the screen shows the line and the buffer is in order |
| `LineEditor.LineState.HistoryNext` | src/ppcom/src/linenoise.cpp:660-680 | The line is kept in its entry, the neighbouring one is loaded, and the position stays in bounds |
| `LineEditor.LineState.AcceptOffer` | src/ppcom/src/linenoise.cpp:391-396 | An offer replaces the line; the line is well formed afterwards iff the offer is shorter than the buffer length |
| `LineEditor.LineState.CompleteLine` | src/ppcom/src/linenoise.cpp:349-405 | Tabs walk through the offers and the original line; another key takes the one on show, escape the original; the key comes back |
| `LineEditor.LineState.ClearScreen` | src/ppcom/src/linenoise.cpp:897-900 | The screen is cleared and the line redrawn at its top, in both modes |
| `LineEditor.LineState.CursorKey` | src/ppcom/src/linenoise.cpp:843-862 | The keys that ESC [ and a letter stand for |
| `LineEditor.LineState.Escape` | src/ppcom/src/linenoise.cpp:823-877 | Escape sequences of two, three and four characters |
| `LineEditor.LineState.Bracketed` | src/ppcom/src/linenoise.cpp:830-864 | The sequences with a bracket |
| `LineEditor.LineState.PressInPlace` | src/ppcom/src/linenoise.cpp:788-904 | All such keys but Ctrl-L, which leave the line where it is on the screen |
| `LineEditor.LineState.AcceptLine` | src/ppcom/src/linenoise.cpp:780-784 | Enter gives up the history entry, moves the cursor to the end in multi-line mode, and returns the line |
| `LineEditor.LineState.Press` | src/ppcom/src/linenoise.cpp:788-904 | Every key that does not end the session does what it means to the line, the history and the screen; only Ctrl-L moves the line or touches what is around it |
| `LineEditor.LineState.Dispatch` | src/ppcom/src/linenoise.cpp:779-904 | Enter, Ctrl-C and Ctrl-D at an empty line end the session; the history entry is given up but for Ctrl-C; only Ctrl-L moves the line or touches what is around it |
| `LineEditor.LineState.CompleteKey` | src/ppcom/src/linenoise.cpp:768-777 | A tab, when completion is set up, and what is left to do with the key that comes back |
| `LineEditor.LineState.Turn` | src/ppcom/src/linenoise.cpp:757-905 | One key from a screen that shows the line to the next such screen or to the end of the session, with the same about what is around the line |
| `LineEditor.LineState.Edit` | src/ppcom/src/linenoise.cpp:728-907 | The screen shows the line before every key is read, and at the end unless a read failed in a completion; over the whole session the line stays where it began and nothing around it is touched, unless Ctrl-L cleared the screen; result, line and history are those of the sequence of keys on a pair of strings around the cursor |
| `LineEditor.Linenoise` | src/ppcom/src/linenoise.cpp:939-990 | The same from the call on, for any history: without Ctrl-L the screen above the line, or around it in single-line mode, is as before the call, and shows prompt and line after it |
| `LineEditor.PromptDrawn` | src/ppcom/src/linenoise.cpp:756-756 | Writing the prompt on a blank row draws the empty line |
| `LineEditor.NotFilled` | src/ppcom/src/linenoise.cpp:508-512 | A prompt shorter than the screen width never meets the exception of the row arithmetic |
| `LineEditor.ScreenCleared` | src/ppcom/src/linenoise.cpp:319-323 | What clearing the screen leaves is what a redraw may start from |
| `CharMap.FirstListedApplies` | doc/ppcom.1.md:565-586 | Of the mappings that apply to a character, only the first in the documented order is applied, with its documented meaning |
| `CharMap.UnmappedStays` | src/ppcom/src/ppcom.cpp:819-821 | A character to which no mapping applies stays as it is |
| `CharMap.MapsToNothing` | src/ppcom/src/ppcom.cpp:750-826 | Exactly when a character maps to nothing, which the assertion on line 823 does not allow for |
| `CharMap.ImageConcat` | src/ppcom/src/ppcom.cpp:750-826 | Characters are mapped one by one |
| `CharMap.Hex2Bin` | src/ppcom/src/ppcom.cpp:407-432 | The bytes read, the failure and the untouched rest of the buffer |
| `CharMap.HexAccepts` | src/ppcom/src/ppcom.cpp:390-432 | Delimiters and pairs of digits in any order are accepted and give the encoded bytes, as far as the buffer goes |
| `CharMap.HexAcceptsOnly` | src/ppcom/src/ppcom.cpp:390-432 | Nothing else is accepted |
| `CharMap.HexDigits` | src/ppcom/src/ppcom.cpp:390-405 | The value of each digit, of either case |
| `CharMap.HexCharacters` | src/ppcom/src/ppcom.cpp:382-405 | Nothing else is a digit, and which nine characters are delimiters |
| `CharMap.HexEndsAtNul` | src/ppcom/src/ppcom.cpp:417-424 | A NUL ends the string, wherever it is |
| `CharMap.Unbracketed` | src/ppcom/src/ppcom.cpp:738-748 | A byte in brackets is read back |
| `CharMap.HexImageDecodes` | src/ppcom/src/ppcom.cpp:738-826 | With exactly the six mappings to hexadecimal, the image of any bytes decodes to those bytes |
| `TtyQueue.Grown` | src/ppcom/src/ppcom.cpp:1191-1203 | The buffer doubles until four more bytes fit or doubling is refused; sizes stay 256 times a power of two and within the limit; the loop ends |
| `TtyQueue.PushAppends` | src/ppcom/src/ppcom.cpp:1186-1213 | Greedy bounded append: what was queued stays, the image of the accepted prefix follows, and a byte is refused only when four bytes do not fit and the buffer cannot double |
| `TtyQueue.PushConcat` | src/ppcom/src/ppcom.cpp:1186-1213 | Pushing in pieces takes the same bytes as pushing at once, up to the first refusal |
| `TtyQueue.TtyQ.constructor` | src/ppcom/src/ppcom.cpp:2299-2303 | The empty queue, at its smallest size |
| `TtyQueue.TtyQ.Realloc` | src/ppcom/src/ppcom.cpp:1195-1199 | A larger buffer holds what the smaller one held |
| `TtyQueue.TtyQ.Grow` | src/ppcom/src/ppcom.cpp:1191-1203 | The loop computes the size above and keeps the queue |
| `TtyQueue.TtyQ.Store` | src/ppcom/src/ppcom.cpp:1204-1206 | The mapped character follows what is queued |
| `TtyQueue.TtyQ.TtyQPush` | src/ppcom/src/ppcom.cpp:1186-1213 | The queue, the count and the local echo are those of the greedy append |
| `TtyQueue.TtyQ.DropFront` | src/ppcom/src/ppcom.cpp:1613-1614 | What was written leaves the front of the queue |
| `MainLoop.OfferAllConserves` | src/ppcom/src/ppcom.cpp:1186-1213 | Pushing keeps every accepted byte accounted for |
| `MainLoop.FlushConserves` | src/ppcom/src/ppcom.cpp:1275-1292 | So does throwing the queue away for a command |
| `MainLoop.PressKeyConserves` | src/ppcom/src/ppcom.cpp:1509-1542 | So does every key |
| `MainLoop.WriteConserves` | src/ppcom/src/ppcom.cpp:1594-1615 | So does a partial write |
| `MainLoop.PassConserves` | src/ppcom/src/ppcom.cpp:1440-1637 | So does every pass of the loop |
| `MainLoop.RunConserves` | src/ppcom/src/ppcom.cpp:1440-1637 | On every run, whatever the environment does: what went to the port or was thrown away, then the queue, is the image of the accepted bytes in order; so too since the last flush |
| `MainLoop.StartConserves` | src/ppcom/src/ppcom.cpp:2298-2316 | The run starts so, the queue primed with the init string |
| `LoopLaws.StartsWith` | src/ppcom/src/ppcom.cpp:294-299 | The loop starts with an empty queue of 256 bytes, stdin closed iff --exit, and writes a tenth of the rate at a time, at least 8 bytes |
| `LoopLaws.PassOutcome` | src/ppcom/src/ppcom.cpp:1440-1637 | How a pass ends, in every case: the exact condition of each way to leave and of each failure; if none holds it goes on, and stdin is then closed iff it was or the pass has read its end |
| `LoopLaws.EndOfInputLeaves` | src/ppcom/src/ppcom.cpp:1440-1637 | After any run, a pass that reads the end of stdin and does not fail, and then as many writes as there are bytes queued and one pass more, the program has left because stdin is closed, with everything written |
| `LoopLaws.RunSplits` | src/ppcom/src/ppcom.cpp:1440-1637 | A run goes on from where its first part ended |
| `LoopLaws.PassWrites` | src/ppcom/src/ppcom.cpp:1592-1614 | A write takes the first bytes of the queue to the port, as many as the port takes of at most the write size |
| `LoopLaws.LineTaken` | src/ppcom/src/ppcom.cpp:1620-1629 | Of a control line everything up to a NUL is pushed, or through the first line feed or carriage return |
| `LoopLaws.LineQueued` | src/ppcom/src/ppcom.cpp:1620-1634 | With room for it, that is queued whole, mapped |
| `LoopLaws.CommandEffects` | src/ppcom/src/ppcom.cpp:1217-1389 | What each command key does, by its letter, to queue, write size, local echo, the reset at exit and the mode |
| `LoopLaws.StreamMeans` | src/ppcom/src/ppcom.cpp:1509-1542 | Any stream of plain bytes, doubled escape characters and commands offers and runs exactly those; x and q after an escape character leave |
| `LoopLaws.EveryStream` | src/ppcom/src/ppcom.cpp:1509-1542 | Every stream is such a one, up to a command that leaves |
| `MainLoop.IdleExits` | src/ppcom/src/ppcom.cpp:1451-1480 | Leaving because stdin is closed or idle happens only with an empty queue: all that was accepted since the last flush was written |
| `MainLoop.QuietPass` | src/ppcom/src/ppcom.cpp:1440-1637 | With stdin closed and no timeout, a pass that writes makes the queue shorter, and no pass makes it longer |
| `MainLoop.Drains` | src/ppcom/src/ppcom.cpp:1440-1637 | As many writes as there are bytes queued, and one pass more, force the exit with all of them written |
| `MainLoop.FatalAfterFlush` | src/ppcom/src/ppcom.cpp:1483-1615 | With an environment that does not fail, a pass ends fatally iff bytes were queued, the port takes some, and among the keys read in the same pass a flushing command comes after which no key queues anything, and no exit key: a condition on the keys, the mode and the mapping alone |
| `MainLoop.KeysPending` | src/ppcom/src/ppcom.cpp:1509-1542 | Whether anything is queued after some keys, and whether they leave the program, follows from the mode and from whether anything was queued before |
| `MainLoop.CommandPending` | src/ppcom/src/ppcom.cpp:1217-1389 | The same for a command |
| `MainLoop.OfferAllPending` | src/ppcom/src/ppcom.cpp:1186-1213 | An empty queue refuses nothing, so that what is offered is queued unless it maps to nothing |
| `MainLoop.FatalWrite` | src/ppcom/src/ppcom.cpp:1590-1602 | The only fatal write is one of nothing, the queue having been emptied by what was read |
| `MainLoop.NoFlushKeepsPending` | src/ppcom/src/ppcom.cpp:1509-1542 | Keys none of which is for flushing never have this effect |
| `MainLoop.FlowKeyIsFatal` | src/ppcom/src/ppcom.cpp:1282-1302 | Two keys that bring this about |
| `MainLoop.PressKeyInStep` | src/ppcom/src/ppcom.cpp:1509-1542 | A key changes mode, bytes offered and commands run as the scan of the stream says |
| `MainLoop.PassInStep` | src/ppcom/src/ppcom.cpp:1440-1637 | So does every pass of the loop |
| `MainLoop.RunInStep` | src/ppcom/src/ppcom.cpp:1509-1542 | On every run they are a function of the bytes typed |
| `MainLoop.StartInStep` | src/ppcom/src/ppcom.cpp:1425-1429 | At the start nothing has been typed, whatever the queue is primed with |
| `MainLoop.ChunkingIsInvisible` | src/ppcom/src/ppcom.cpp:1493-1542 | Two runs in which the same bytes were typed offered the same bytes and ran the same commands, however reads cut the stream |
| `MainLoop.DoubledIsTransparent` | src/ppcom/src/ppcom.cpp:1513-1516 | A stream with every escape byte doubled offers exactly the original bytes and runs no command |
| `MainLoop.NoEscapeIsTransparent` | src/ppcom/src/ppcom.cpp:1528-1530 | Without an escape character every byte is offered and the command state is never reached |
| `Transparency.KeyActs` | src/ppcom/src/ppcom.cpp:1509-1542 | What a key adds to what is offered and run |
| `Transparency.StartClean` | src/ppcom/src/ppcom.cpp:2305-2316 | The run starts with exactly the init string accepted |
| `Transparency.PressKeyClean` | src/ppcom/src/ppcom.cpp:1509-1542 | Unless it runs a command, a key throws nothing away, and what was accepted after the init string is all that was offered or less |
| `Transparency.PassClean` | src/ppcom/src/ppcom.cpp:1440-1637 | So does every pass without control input |
| `Transparency.RunClean` | src/ppcom/src/ppcom.cpp:1440-1637 | And every run |
| `Transparency.NothingLost` | src/ppcom/src/ppcom.cpp:1440-1637 | After a run that ran no command, what the port got and what is queued is the image of what was accepted: the init string, then all that was typed unless bytes were refused |
| `Transparency.EscapedStreamArrives` | src/ppcom/src/ppcom.cpp:1440-1637 | A stream typed with its escape bytes doubled, however it is read and written: if nothing was refused the port got the image of the init string and the stream, but for what is queued, and all of it when the program leaves because input ended or is idle |
| `Transparency.PlainStreamArrives` | src/ppcom/src/ppcom.cpp:1440-1637 | The same for any stream without an escape character |
| `Transparency.OfferTaken` | src/ppcom/src/ppcom.cpp:1191-1203 | A byte is accepted when there is room for it, mapped, beside what is queued, and for the double of that, in memory and below the limit; it adds at most four bytes |
| `Transparency.QueueBound` | src/ppcom/src/ppcom.cpp:1186-1213 | Without commands the queue holds at most four bytes for each one of the init string and each one typed |
| `Transparency.PressKeyFull` | src/ppcom/src/ppcom.cpp:1509-1542 | With room for four bytes more a key is not refused, and adds at most those |
| `Transparency.PassFull` | src/ppcom/src/ppcom.cpp:1440-1637 | With room for its keys a pass refuses nothing; what is then queued at most follows from the keys and from what the port takes |
| `Transparency.RunFull` | src/ppcom/src/ppcom.cpp:1440-1637 | Nothing is refused in a run in which the port keeps up with the keys, so that what is queued at any time has room in memory and below the limit |
| `Transparency.ShortRunKeepsUp` | src/ppcom/src/ppcom.cpp:1440-1637 | So in any run all of whose keys together have room, whatever the port takes |
| `Transparency.Delivered` | src/ppcom/src/ppcom.cpp:2298-2330 | Hence, under any limit of the queue that the run does not reach, and without control input, init string and a stream with its escape bytes doubled have arrived, mapped, when the program leaves because input ended or is idle |
| `Transparency.PlainDelivered` | src/ppcom/src/ppcom.cpp:2298-2330 | So has any stream without an escape character |
| `Ppcom.Ppcom.constructor` | src/ppcom/src/ppcom.cpp:2298-2303 | The globals before the queue is primed |
| `Ppcom.Ppcom.Push` | src/ppcom/src/ppcom.cpp:1186-1213 | The call with the options in force |
| `Ppcom.Ppcom.Prime` | src/ppcom/src/ppcom.cpp:2305-2316 | The queue is primed with the init string, and one that does not fit is reported |
| `Ppcom.Ppcom.Flush` | src/ppcom/src/ppcom.cpp:1282-1282 | The queue is emptied |
| `Ppcom.Ppcom.DoCommand` | src/ppcom/src/ppcom.cpp:1217-1389 | Commands, for the queue, the write size, local echo and the reset at exit |
| `Ppcom.Ppcom.PressKey` | src/ppcom/src/ppcom.cpp:1509-1542 | One byte from the terminal |
| `Ppcom.Ppcom.PressKeys` | src/ppcom/src/ppcom.cpp:1509-1542 | All bytes of a read, up to a command that ends the program |
| `Ppcom.Ppcom.WritePort` | src/ppcom/src/ppcom.cpp:1594-1615 | At most the write size is offered, what the port takes leaves the queue, and taking nothing is fatal |
| `Ppcom.Ppcom.ReadCtl` | src/ppcom/src/ppcom.cpp:1617-1636 | A control line is pushed up to a NUL and no further than through a line end, which is overwritten while the loop runs over it |
| `Ppcom.Ppcom.Gather` | src/ppcom/src/ppcom.cpp:1483-1588 | The reads of a pass |
| `Ppcom.Ppcom.Pass` | src/ppcom/src/ppcom.cpp:1440-1637 | A pass of the loop takes the step of the model |
| `Ppcom.Ppcom.Loop` | src/ppcom/src/ppcom.cpp:1411-1640 | The loop takes the run of the model |
| `Termios.Bcode` | src/ppcom/src/term.cpp:283-296 | The code of the first row with the speed, or none |
| `Termios.Bspeed` | src/ppcom/src/term.cpp:298-310 | The speed of the first row with the code, or -1 |
| `Termios.TableOrdered` | src/ppcom/src/term.cpp:182-245 | Speeds and codes ascend; no code is that of a custom rate |
| `Termios.SpeedOfRow` | src/ppcom/src/term.cpp:182-310 | Looking up the code of a row finds that row |
| `Termios.CodeInverse` | src/ppcom/src/term.cpp:283-310 | A speed with a code is the speed of that code |
| `Termios.OtherHasNoSpeed` | src/ppcom/src/term.cpp:298-310 | The code for custom rates is never taken for a standard one |
| `Termios.OutputRateSet` | src/ppcom/src/term.cpp:811-820 | An output rate set by its code is read back from its bits, and nothing else moves |
| `Termios.OutputRateCustom` | src/ppcom/src/termios2.cpp:158-172 | A custom output rate is stored beside its code and read back from there; input rate and other bits stay |
| `Termios.InputRateSet` | src/ppcom/src/termios2.cpp:130-153 | A standard input rate is read back from its own bits and does not touch the output rate |
| `Termios.InputRateCustom` | src/ppcom/src/termios2.cpp:174-196 | A custom input rate is read back, and 0 stands for the output rate |
| `Termios.RateRead` | src/ppcom/src/term.cpp:790-880 | Every standard rate, and with custom rates every positive one, is read back as set, with the input rate 0 that stands for it |
| `Termios.ParityRead` | src/ppcom/src/term.cpp:884-961 | Parity is read back as set, from any prior bits |
| `Termios.LineBit` | src/ppcom/src/term.cpp:884-1240 | Where every control bit comes from after all setters |
| `Termios.LineAsRequested` | src/ppcom/src/term.cpp:884-1240 | Parity, data bits, stop bits, flow control, CLOCAL and HUPCL read back as requested, from any prior bits |
| `Termios.LineLeavesRest` | src/ppcom/src/term.cpp:884-1240 | The rates and all other control bits stay |
| `Termios.RawReads` | src/ppcom/src/term.cpp:762-786 | Raw mode reads as eight data bits, no parity and one byte at a time; rate and stop bits stay; setting it again changes nothing |
| `TermiosLaws.RawBits` | src/ppcom/src/term.cpp:762-786 | Raw mode bit by bit: ISIG, ICANON, ECHO, ECHONL and IEXTEN, OPOST, and eight input modes are cleared by their numbers, CS8 is set and PARENB cleared, one byte and no timer, and nothing else changes |
| `TermiosLaws.SetBits` | src/ppcom/src/term.cpp:1243-1314 | Every bit of every word after term_set, by its number, from any prior bits |
| `TermiosLaws.SetRateBits` | src/ppcom/src/term.cpp:790-838 | The rate in the control modes, in binary: its code, or 16 with the speed beside it |
| `TermiosLaws.RateLeaves` | src/ppcom/src/term.cpp:790-838 | Setting the rate touches its own bits only |
| `TermiosLaws.CodesOfSpeeds` | src/ppcom/src/term.cpp:182-245 | The codes of the 31 standard rates, and that no other rate has one |
| `TermiosLaws.GettersMean` | src/ppcom/src/term.cpp:933-1180 | What the getters make of any control and input modes, bit by bit |
| `TermiosLaws.SpeedsOfCodes` | src/ppcom/src/term.cpp:182-310 | The speed of each code, and that 16 has none |
| `TermiosLaws.RatesMean` | src/ppcom/src/term.cpp:842-880 | What the rate getter makes of any settings, output and input rate, with custom rates and without |
| `Termios.SetAllReads` | src/ppcom/src/term.cpp:1243-1314 | All settings together, from any prior flags: every getter returns what was asked for; local and output modes lose exactly the bits raw mode clears, if asked for, and the remaining control bits stay |
| `TermTable.FoundAt` | src/ppcom/src/term.cpp:358-384 | A managed descriptor is found in the one slot that holds it |
| `TermTable.RestoreKeepsInv` | src/ppcom/src/term.cpp:387-427 | Restoring on exit keeps the table in order |
| `TermTable.AddKeepsInv` | src/ppcom/src/term.cpp:477-517 | Adding keeps descriptors distinct and originals in order |
| `TermTable.AddCaptures` | src/ppcom/src/term.cpp:477-517 | What is to be restored is what the device held when it was added, HUPCL included |
| `TermLaws.AddOutcome` | src/ppcom/src/term.cpp:477-517 | Adding: every error by its exact condition, none of which changes the table; the first free of 16 slots, with the settings of the device in force, to apply and to restore |
| `TermTable.RemoveKeepsInv` | src/ppcom/src/term.cpp:521-554 | Removing keeps the table in order |
| `TermTable.ReplaceKeepsInv` | src/ppcom/src/term.cpp:580-613 | Replacing does, by a descriptor that is not managed |
| `TermTable.ReplaceMustBeSound` | src/ppcom/src/term.cpp:580-613 | By one that is managed it does not |
| `TermTable.ResetKeepsInv` | src/ppcom/src/term.cpp:617-655 | Resetting keeps the table in order |
| `TermTable.ApplyKeepsInv` | src/ppcom/src/term.cpp:712-757 | Applying changes of the original settings only HUPCL |
| `TermTable.FakeFlushKeepsInv` | src/ppcom/src/term.cpp:1626-1679 | The faked flush keeps the table in order, wherever it fails |
| `TermTable.DrainKeepsInv` | src/ppcom/src/term.cpp:1584-1709 | So do draining and flushing |
| `TermTable.EditsKeepInv` | src/ppcom/src/term.cpp:558-708 | So do erasing, reverting, refreshing and setting |
| `TermLaws.NeedsManaged` | src/ppcom/src/term.cpp:358-384 | Every other call fails on a terminal that is not managed, for one of two reasons, and changes nothing |
| `TermLaws.QuietCalls` | src/ppcom/src/term.cpp:558-679 | What erasing, reverting and choosing settings change; they do not touch the device |
| `TermLaws.RefreshOutcome` | src/ppcom/src/term.cpp:683-708 | Refreshing reads what is in force and leaves what is to be applied |
| `TermLaws.ApplyOutcome` | src/ppcom/src/term.cpp:712-757 | Applying, wherever it fails: what the device holds, what is recorded, and the error |
| `TermLaws.ResetOutcome` | src/ppcom/src/term.cpp:617-655 | Resetting, likewise |
| `TermLaws.RemoveOutcome` | src/ppcom/src/term.cpp:521-554 | Removing, likewise: the slot is given up even if the device could not be set back |
| `TermLaws.ReplaceOutcome` | src/ppcom/src/term.cpp:580-613 | Replacing, likewise |
| `TermLaws.DrainOutcome` | src/ppcom/src/term.cpp:1584-1709 | Draining and flushing ask the device once and record nothing |
| `TermLaws.FakeFlushCalls` | src/ppcom/src/term.cpp:1626-1679 | The faked flush makes up to four calls on the device |
| `TermLaws.FakeFlushOutcome` | src/ppcom/src/term.cpp:1626-1679 | The device is drained with flow control off and set as it was; should that fail, it is left with flow control off |
| `TermLaws.RestoreOutcome` | src/ppcom/src/term.cpp:399-426 | At exit a device is set to its original settings even if it could be neither drained nor flushed |
| `TermTable.SetKeepsInv` | src/ppcom/src/term.cpp:1243-1314 | So does setting everything, failures included |
| `TermTable.InitKeepsInv` | src/ppcom/src/term.cpp:431-473 | So does initializing a second time |
| `TermTable.InitStarts` | src/ppcom/src/term.cpp:451-469 | The first initialization leaves nothing managed |
| `TermLaws.InitOutcome` | src/ppcom/src/term.cpp:451-469 | The first initialization fails only if the exit function cannot be registered |
| `TermTable.StepKeepsInv` | src/ppcom/src/term.cpp:329-1681 | Every call keeps descriptors distinct and originals what was captured but for HUPCL, whatever the devices answer and store, provided that a descriptor is replaced by one not managed elsewhere |
| `TermTable.RunKeepsInv` | src/ppcom/src/term.cpp:329-1681 | So does every sequence of such calls |
| `TermTable.SlotRemembers` | src/ppcom/src/term.cpp:712-757 | The settings captured for a slot in use never change, and its HUPCL is what the device stored at the last apply that worked |
| `TermTable.LetsGo` | src/ppcom/src/term.cpp:396-426 | After exit no slot is in use |
| `TermTable.LeavesAlone` | src/ppcom/src/term.cpp:396-426 | A terminal that is not managed is not touched |
| `TermTable.RestoresFrom` | src/ppcom/src/term.cpp:396-426 | A storing device that is managed holds its original settings |
| `TermTable.ExitRestores` | src/ppcom/src/term.cpp:387-427 | However the run went, at exit on storing devices every managed terminal has its captured settings, HUPCL apart, no other is touched, and nothing stays managed |
| `TermLaws.RestoresEach` | src/ppcom/src/term.cpp:387-473 | However the devices fail, at exit or when the library is initialized again: a managed terminal is set to its original settings exactly if its own tcsetattr works, and is otherwise as it was |
| `TermTable.ResetUndoes` | src/ppcom/src/term.cpp:521-655 | Resetting puts the original settings in force, whatever was applied; removing does too and lets go of the terminal |
| `TermTable.RevertForgets` | src/ppcom/src/term.cpp:659-679 | After reverting, what was set and not applied makes no difference |
| `TermTable.ReplaceTakesOver` | src/ppcom/src/term.cpp:580-613 | The new descriptor has the settings in force, the slot and the originals of the old one, which is no longer managed |
| `TermTable.FakeFlushStores` | src/ppcom/src/term.cpp:1626-1679 | On a storing device the faked flush leaves the settings as they were |
| `TermTable.ApplyStores` | src/ppcom/src/term.cpp:712-757 | On a storing device the chosen settings are in force, and HUPCL is carried over |
| `TermTable.CleanupWorks` | src/ppcom/src/ppcom.cpp:662-693 | The table and the devices after cleanup |
| `TermLaws.CleanupCalls` | src/ppcom/src/ppcom.cpp:662-681 | How often cleanup asks a willing device: it drains only if told to, and fakes a flush only under flow control |
| `TermTable.Restored` | src/ppcom/src/ppcom.cpp:662-693 | After cleanup and exit the port hangs up iff the reset was not skipped or hanging up was asked for; its other settings are the captured ones, or with the reset skipped the last chosen; every other managed terminal is back to what was captured but for HUPCL; nothing stays managed |
| `TermTable.RunRestores` | src/ppcom/src/term.cpp:387-427 | The same at the end of any run from initialization |
| `TermTable.CapturedStays` | src/ppcom/src/term.cpp:329-1709 | Over any run, the settings captured for a slot in use all along stay |
| `TermTable.HupFollowsApply` | src/ppcom/src/term.cpp:712-757 | Over any run, the HUPCL bit to be restored is the one the device stored at the last apply that worked, or as found if none did |
| `TermTable.FoundIsRestored` | src/ppcom/src/term.cpp:329-1709 | What a device held when it was added is what it holds after exit, whatever was set, applied, reset or failed in between, but for HUPCL, which is as the device stored it at the last apply that worked |
| `TermTable.RunStaysInit` | src/ppcom/src/term.cpp:431-473 | Once initialized, the library stays so |
| `TermTable.TrySetSucceeds` | src/ppcom/src/term.cpp:1272-1300 | The setters all succeed iff the arguments are acceptable |
| `TermLaws.AcceptableMeans` | src/ppcom/src/term.cpp:1243-1314 | Which arguments term_set accepts, in numbers |
| `TermLaws.SetErrors` | src/ppcom/src/term.cpp:1272-1300 | Its error is that of the first argument that is not accepted |
| `TermLaws.SetAdds` | src/ppcom/src/term.cpp:1261-1271 | A terminal that is not managed is added first, if it can be, and what is set is what its device holds |
| `TermTable.SetIsAtomic` | src/ppcom/src/term.cpp:1243-1314 | On a managed terminal everything is set, iff acceptable, or nothing is changed at all |
| `TermTable.ReadsUnmarked` | src/ppcom/src/termios2.cpp:79-79 | What the kernel is not given does not matter to the getters |
| `TermTable.SetApplyReads` | src/ppcom/src/term.cpp:712-1314 | Set and applied on a storing device, every setting is read back as requested, whatever was there before; with raw mode the device neither edits lines nor echoes |
| `TermTable.SetNewFails` | src/ppcom/src/term.cpp:1261-1309 | A failure on a terminal just added leaves the managed descriptors as they were iff slot 0 had been free; otherwise the wrong terminal is let go of, and the new one stays |
| `TermTable.SecondSetLosesFirst` | src/ppcom/src/term.cpp:1243-1314 | Of any two terminals, a bad request for the second while the first is in slot 0 lets go of the first without restoring it |
| `TermLib.Term.Find` | src/ppcom/src/term.cpp:358-384 | The first slot with the descriptor, or the reason there is none |
| `TermLib.Term.FindNextFree` | src/ppcom/src/term.cpp:329-355 | The first free slot, or the reason there is none |
| `TermLib.Term.Call` | src/ppcom/src/term.cpp:534-534 | A call on a device that can only succeed or fail |
| `TermLib.Term.Add` | src/ppcom/src/term.cpp:477-517 | The whole new state and the error, every failure included |
| `TermLib.Term.Free` | src/ppcom/src/term.cpp:550-550 | The slot is given up |
| `TermLib.Term.PutCurr` | src/ppcom/src/term.cpp:1649-1649 | The settings in force are recorded |
| `TermLib.Term.Remove` | src/ppcom/src/term.cpp:521-554 | The whole new state and the error; the slot is given up even when restoring fails |
| `TermLib.Term.Erase` | src/ppcom/src/term.cpp:558-576 | The slot is given up without touching the device |
| `TermLib.Term.Replace` | src/ppcom/src/term.cpp:580-613 | Another descriptor takes over slot and settings |
| `TermLib.Term.Reset` | src/ppcom/src/term.cpp:617-655 | The original settings are in force and recorded, or nothing is recorded |
| `TermLib.Term.Revert` | src/ppcom/src/term.cpp:659-679 | What was to be applied is forgotten |
| `TermLib.Term.Refresh` | src/ppcom/src/term.cpp:683-708 | The settings in force are read |
| `TermLib.Term.Apply` | src/ppcom/src/term.cpp:712-757 | The chosen settings are in force as the device stored them, and HUPCL is carried over to the original ones |
| `TermLib.Term.FakeFlush` | src/ppcom/src/term.cpp:1626-1679 | Flow control goes off and back on, wherever it fails |
| `TermLib.Term.Drain` | src/ppcom/src/term.cpp:1584-1622 | A managed terminal is drained, or an error |
| `TermLib.Term.Flush` | src/ppcom/src/term.cpp:1683-1709 | A managed terminal is flushed, or an error |
| `TermLib.Term.TcSetAttr` | src/ppcom/src/termios2.cpp:56-89 | A device that is willing stores settings in its own way |
| `TermLib.Term.TcGetAttr` | src/ppcom/src/termios2.cpp:91-116 | A device that is willing says what it stored |
| `TermLib.Term.SetRaw` | src/ppcom/src/term.cpp:762-786 | Raw mode |
| `TermLib.Term.SetBaudrate` | src/ppcom/src/term.cpp:790-839 | The rate by code or custom, with input rate B0, or one of two errors |
| `TermLib.Term.SetParity` | src/ppcom/src/term.cpp:884-931 | Parity, or an error |
| `TermLib.Term.SetDatabits` | src/ppcom/src/term.cpp:964-1005 | Data bits, or an error |
| `TermLib.Term.SetStopbits` | src/ppcom/src/term.cpp:1045-1080 | Stop bits, or an error |
| `TermLib.Term.SetFlow` | src/ppcom/src/term.cpp:1104-1145 | Flow control, or an error |
| `TermLib.Term.SetLocal` | src/ppcom/src/term.cpp:1183-1209 | CLOCAL |
| `TermLib.Term.SetHupcl` | src/ppcom/src/term.cpp:1213-1239 | HUPCL |
| `TermLib.Term.PutNext` | src/ppcom/src/term.cpp:834-834 | Settings are put in the slot to be applied next |
| `TermLib.Term.SetRate` | src/ppcom/src/term.cpp:1274-1280 | The first setters of term_set |
| `TermLib.Term.SetLine` | src/ppcom/src/term.cpp:1282-1298 | The others, up to the first that fails |
| `TermLib.Term.SetEach` | src/ppcom/src/term.cpp:1272-1300 | All of them in turn, up to the first that fails |
| `TermLib.Term.Set` | src/ppcom/src/term.cpp:1243-1314 | The whole new state and the error, with what happens to the slot after a failure |
| `TermLib.Term.GetBaudrate` | src/ppcom/src/term.cpp:841-880 | The output rate in force, or -1 and the error, and the input rate beside it |
| `TermLib.Term.RestoreOne` | src/ppcom/src/term.cpp:399-404 | One terminal is drained, flushed, set and let go of, whatever fails |
| `TermLib.Term.RestoreAll` | src/ppcom/src/term.cpp:396-426 | The loop that restores and gives up every slot |
| `TermLib.Term.LibInit` | src/ppcom/src/term.cpp:431-473 | The first and every later initialization |
| `TermLib.Term.ExitFunc` | src/ppcom/src/term.cpp:387-427 | What happens at exit |
| `TermLib.Term.Cleanup` | src/ppcom/src/ppcom.cpp:662-693 | What happens to the port before exit |
| `FdIo.PutAfter` | src/ppcom/src/fdio.cpp:84-105 | Characters written at the end of what is shown are shown after it |
| `FdIo.WipeUndoes` | src/ppcom/src/fdio.cpp:84-112 | cdel undoes cput, and xdel undoes xput, on the screen |
| `FdIo.KeyShows` | src/ppcom/src/fdio.cpp:128-160 | Every key keeps what is shown in step with the line |
| `FdIo.EchoShows` | src/ppcom/src/fdio.cpp:114-165 | At every moment the terminal shows the prompt, one cell for each printable and four for each other byte of the line, blanks beyond, and the cursor at the end |
| `FdIo.RuboutUndoes` | src/ppcom/src/fdio.cpp:128-160 | A rubout takes back the key before it iff there was room for that key (or there is none at all) |
| `FdIo.KeyMeans` | src/ppcom/src/fdio.cpp:124-160 | 8 and 127 drop the last character, any other is added if it fits |
| `FdIo.EchoMeans` | src/ppcom/src/fdio.cpp:72-160 | The echo of every key, byte by byte |
| `FdIo.FdReadline` | src/ppcom/src/fdio.cpp:114-165 | The line is a stack of at most bsz-1 bytes, returned terminated at CR; -1 at Ctrl-C and at the end of input; what is written is the echo of the keys |
| `FdIo.ShortOnlyOnFailure` | src/ppcom/src/fdio.cpp:34-53 | Interruptions and partial writes lose nothing |
| `FdIo.StopsAtFailure` | src/ppcom/src/fdio.cpp:34-53 | A failing or empty write is the last one: what had been taken before it got through |
| `FdIo.WriteN` | src/ppcom/src/fdio.cpp:34-53 | The bytes that got through are the first ones, as many as returned; fewer than all only after a failed or empty write |
| `MsgPak.DigitsRead` | src/libffwd/src/msgpak.cpp:30-33 | The decimal digits of any number are read back as that number |
| `MsgPak.DigitsWritten` | src/libffwd/src/msgpak.cpp:30-33 | Numbers are written in decimal, the ones last |
| `MsgPak.IntRead` | src/libffwd/src/msgpak.cpp:35-42 | Every int, negative ones included, is read back from what is printed; numbers out of range are refused |
| `MsgPak.NumberRead` | src/libffwd/src/msgpak.cpp:35-42 | Numbers are read with white space before them, a sign or none, and leading zeros; they must fit 32 bits |
| `MsgPak.NoNumber` | src/libffwd/src/msgpak.cpp:35-42 | Without a digit after those, there is no number |
| `MsgPak.Parts` | src/libffwd/src/msgpak.cpp:35-42 | What is made of two numbers and a text with bars between, and of numbers that cannot be read |
| `MsgPak.RoundTrip` | src/libffwd/src/msgpak.cpp:30-42 | Deserializing what was serialized gives back index, id and message, for all ints and all messages, bars or not |
| `MsgPak.NoBars` | src/libffwd/src/msgpak.cpp:35-42 | Without a bar, one number is both index and id and all of the string is the message: positions wrap around |
| `MsgPak.OneBar` | src/libffwd/src/msgpak.cpp:35-42 | With one bar, the two numbers are read and all of the string is the message |
| `MsgPak.Pak.constructor` | src/libffwd/src/msgpak.cpp:3-4 | The fields as given |
| `MsgPak.Pak.ToText` | src/libffwd/src/msgpak.cpp:30-33 | The serialized form |
| `MsgPak.Pak.FromText` | src/libffwd/src/msgpak.cpp:35-42 | The new fields or the exception; the index stays set when the id cannot be read |
## Left out

- Sockets, pipes, epoll and FIFO wrappers of libffwd, `ffwd.cpp` and the programs around them: plumbing without a hard invariant. What comes over the control socket is an event of the main loop.
- fork and exec, signal handlers, lock files, option parsing, help and status: foreign calls and user interface. Of `run_cmd` the argument vector is modelled.
- What the loop writes to the terminal, the log and the message socket: port input after `imap`, bells and messages. The local echo of the queue is modelled, and its bytes are then dropped.
- DTR, RTS, break, modem lines, drain delays, and probing the terminal for its size and cursor: device timing and foreign calls.
- Retries after EINTR in the settings library: they do not change what is modelled. Draining and flushing a device are calls that succeed or fail.
- Failure of `malloc` and `strdup`, but for the early return of `tty_q_push`.
- The steps from one rate, flow control, parity or size to the next, and copying of modem bits: easy members.
- The workaround for macOS in `custbaud_bsd.cpp`, debug logging, build scripts, completion of file names.
- The `cc` characters of a terminal other than VMIN and VTIME are carried along as one sequence; the order in which `tcsetattr` discards or waits for data (TCSANOW, TCSAFLUSH) is not modelled.
- `errno`, and the texts of error messages; `term_errno` is modelled.
- TtyQueue.TtyQ.Grow: does not model overflow of the doubled size, because without a limit the queue would need two gigabytes first.
- LineEditor.LineState.AcceptOffer: does not model what a later key would do past the end of the buffer; it says when that can happen.
- LineEditor.LineState.constructor: does not model a buffer of one byte, which the only caller never passes, nor an empty prompt in single-line mode, with which the redraw of an empty line misplaces the cursor (`Refresh.SingleLineOutput`).
- LineEditor.LineState.CompleteLine: does not model offers that do not fit the buffer, after which the length is past its end (`LineEditor.LineState.AcceptOffer`).
- LineEditor.LineState.Escape: does not model input that ends inside an escape sequence without the read failing; the code then goes on with characters it has not read.
- LineEditor.LineState.Edit: does not model a NUL that is typed, which ends the copies of the line in the history, nor offers that do not fit the buffer.
- LineEditor.Linenoise: does not model what its constructor and its loop do not, as above.
- FdIo.FdReadline: does not model echo that fails or wraps at the right edge, because the code ignores the one and backspaces do not cross the other.
- Ppcom.Ppcom.DoCommand: does not model the settings a command changes on the port nor the programs it starts, because the queue and the write size are all the loop depends on.
- TermTable.Restored: does not model closing descriptors, which follows restoring.
- TermLib.Term.RestoreAll: does not model unlocking and closing the descriptor after it is restored.
- TermLib.Term.ExitFunc: does not model unlocking and closing descriptors either.
- TermLib.Term.Cleanup: does not model closing the port when the reset is skipped.
