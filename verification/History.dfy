/** The history of linenoise.cpp: a bounded log of lines. */
module History {
  import opened CStrings

  // ---------------------------------------------------------------------
  // The log as a value
  // ---------------------------------------------------------------------

  /** Adding a line: a repeat of the newest line is ignored, and the oldest line makes room. */
  function AddLine(h: seq<string>, max: nat, line: string): seq<string> {
    if max == 0 then h
    else if h != [] && h[|h| - 1] == line then h
    else (if |h| == max then h[1..] else h) + [line]
  }

  function AddAll(h: seq<string>, max: nat, lines: seq<string>): seq<string>
    decreases |lines|
  {
    if lines == [] then h else AddAll(AddLine(h, max, lines[0]), max, lines[1..])
  }

  /** The newest `n` entries. */
  function Newest(h: seq<string>, n: nat): seq<string> {
    if |h| <= n then h else h[|h| - n..]
  }

  /** A list of lines with each run of equal lines reduced to one. */
  function Collapse(lines: seq<string>): (r: seq<string>)
    ensures |r| <= |lines|
    ensures lines != [] ==> r != [] && r[|r| - 1] == lines[|lines| - 1]
  {
    if |lines| <= 1 then lines
    else if lines[0] == lines[1] then Collapse(lines[1..])
    else [lines[0]] + Collapse(lines[1..])
  }

  lemma {:induction false} CollapseSnoc(lines: seq<string>, x: string)
    ensures Collapse(lines + [x]) ==
            if lines != [] && lines[|lines| - 1] == x then Collapse(lines) else Collapse(lines) + [x]
  {
    if |lines| >= 1 {
      assert (lines + [x])[1..] == lines[1..] + [x];
      if |lines| == 1 {
        assert lines == [lines[0]];
      } else {
        CollapseSnoc(lines[1..], x);
      }
    }
  }

  /** The history is the newest `max` of the lines added, with consecutive repeats collapsed. */
  lemma {:induction false} BoundedLog(max: nat, lines: seq<string>)
    requires max >= 1
    ensures AddAll([], max, lines) == Newest(Collapse(lines), max)
    ensures var r, c := AddAll([], max, lines), Collapse(lines);
            && |r| == (if |c| < max then |c| else max)
            && r == c[|c| - |r|..]
  {
    LogFrom(max, [], lines);
    assert [] + lines == lines;
  }

  lemma {:induction false} LogStep(max: nat, before: seq<string>, x: string)
    requires max >= 1
    ensures AddLine(Newest(Collapse(before), max), max, x) == Newest(Collapse(before + [x]), max)
  {
    hide Collapse;
    CollapseSnoc(before, x);
    var c := Collapse(before);
    if |c| >= max {
      assert (c + [x])[|c| + 1 - max..] == c[|c| - max..][1..] + [x];
    }
  }

  lemma {:induction false} LogFrom(max: nat, before: seq<string>, lines: seq<string>)
    requires max >= 1
    ensures AddAll(Newest(Collapse(before), max), max, lines) == Newest(Collapse(before + lines), max)
    decreases |lines|
  {
    hide Collapse, Newest, AddLine;
    if lines == [] {
      assert before + lines == before;
    } else {
      var x := lines[0];
      LogStep(max, before, x);
      assert before + lines == before + [x] + lines[1..];
      LogFrom(max, before + [x], lines[1..]);
    }
  }

  // ---------------------------------------------------------------------
  // The history file
  // ---------------------------------------------------------------------

  const LINENOISE_MAX_LINE := 4096

  function Saved(h: seq<string>): string {
    if h == [] then "" else h[0] + ['\n'] + Saved(h[1..])
  }

  /** Each line more adds itself and a newline. */
  lemma {:induction false} SavedNext(h: seq<string>, line: string)
    ensures Saved([]) == "" && Saved(h + [line]) == Saved(h) + line + ['\n']
    decreases |h|
  {
    if h == [] {
      assert h + [line] == [line] && [line][1..] == [];
    } else {
      var more := h[1..];
      SavedNext(more, line);
      SavedFirst(h);
      SavedFirst(h + [line]);
      hide Saved;
      assert (h + [line])[1..] == more + [line];
      assert h[0] + ['\n'] + (Saved(more) + line + ['\n']) == h[0] + ['\n'] + Saved(more) + line + ['\n'];
    }
  }

  lemma SavedFirst(h: seq<string>)
    requires h != []
    ensures Saved(h) == h[0] + ['\n'] + Saved(h[1..])
  {
  }

  lemma SavedFrom(h: seq<string>, j: nat)
    requires j < |h|
    ensures Saved(h[j..]) == h[j] + ['\n'] + Saved(h[j + 1..])
  {
    assert h[j..][1..] == h[j + 1..];
  }

  /** How far the text goes before the first `c`; the whole of it when there is none. */
  function Before(text: string, c: char): (n: nat)
    ensures n <= |text| && c !in text[..n]
    ensures n < |text| ==> text[n] == c
  {
    if text == "" || text[0] == c then 0 else 1 + Before(text[1..], c)
  }

  /** How much fgets() takes: through the first newline, but no more than fits in its buffer. */
  function Fgets(file: string): (n: nat)
    ensures n <= |file| && (file != "" ==> n > 0)
  {
    var line := if Before(file, '\n') < |file| then Before(file, '\n') + 1 else |file|;
    if line <= LINENOISE_MAX_LINE - 1 then line else LINENOISE_MAX_LINE - 1
  }

  /** A line read ends at a NUL, if one is in it, and is cut at a carriage return, or else at its newline. */
  function Stripped(line: string): (r: string)
    ensures NUL !in r
  {
    var text := Text(line);
    if Before(text, '\r') < |text| then text[..Before(text, '\r')] else text[..Before(text, '\n')]
  }

  function LoadedLines(file: string): seq<string>
    decreases |file|
  {
    if file == "" then [] else [Stripped(file[..Fgets(file)])] + LoadedLines(file[Fgets(file)..])
  }

  /** Entries that a file can carry. */
  predicate Storable(h: seq<string>) {
    forall k | 0 <= k < |h| ::
      '\0' !in h[k] && '\r' !in h[k] && '\n' !in h[k] && |h[k]| <= 4094
  }

  predicate NoRepeats(h: seq<string>) {
    forall k | 0 < k < |h| :: h[k] != h[k - 1]
  }

  lemma BeforeAt(text: string, c: char, n: nat)
    requires n < |text| && text[n] == c && c !in text[..n]
    ensures Before(text, c) == n
  {
  }

  /** A string without NUL is all text. */
  lemma {:induction false} WholeText(b: string)
    requires NUL !in b
    ensures Text(b) == b
    decreases |b|
  {
    if b != "" {
      assert b[0] in b;
      WholeText(b[1..]);
    }
  }

  lemma {:induction false} LoadSaved(h: seq<string>)
    requires Storable(h)
    ensures LoadedLines(Saved(h)) == h
    decreases |h|
  {
    if h != [] {
      var file, line := Saved(h), h[0];
      var n := |line|;
      assert file[n] == '\n' && file[..n] == line;
      BeforeAt(file, '\n', n);
      assert Fgets(file) == n + 1;
      var got := file[..n + 1];
      assert got == line + ['\n'] && '\r' !in got && NUL !in got;
      WholeText(got);
      BeforeAt(got, '\n', n);
      assert Stripped(got) == line;
      assert file[n + 1..] == Saved(h[1..]);
      LoadSaved(h[1..]);
    }
  }

  /**
   * What may follow a line in a file: a carriage return or a NUL and whatever comes after it, which is
   * ignored, and then a newline, the end of the file, or the end of the 4095 characters read at a time.
   */
  predicate Ending(line: string, end: string, last: bool) {
    var closed := end != "" && end[|end| - 1] == '\n';
    var ignored := if closed then end[..|end| - 1] else end;
    && '\n' !in ignored && (ignored == "" || ignored[0] == '\r' || ignored[0] == '\0')
    && (closed || |line + end| == 4095 || (last && line + end != ""))
  }

  function Joined(h: seq<string>, ends: seq<string>): string
    requires |ends| == |h|
  {
    if h == [] then "" else h[0] + ends[0] + Joined(h[1..], ends[1..])
  }

  /** The lines read from a file, whichever way they end; a longer one is broken after each 4095 characters. */
  lemma {:induction false} LoadJoined(h: seq<string>, ends: seq<string>)
    requires |ends| == |h| && forall k | 0 <= k < |h| :: Ending(h[k], ends[k], k == |h| - 1)
    requires forall k | 0 <= k < |h| :: |h[k] + ends[k]| <= 4095
    requires forall k | 0 <= k < |h| :: '\0' !in h[k] && '\r' !in h[k] && '\n' !in h[k]
    ensures LoadedLines(Joined(h, ends)) == h
    decreases |h|
  {
    hide LoadedLines, Ending;
    if h == [] {
      LoadsNone();
    } else {
      var line, end := h[0], ends[0];
      var rest := Joined(h[1..], ends[1..]);
      assert Ending(line, end, 0 == |h| - 1) && |line + end| <= 4095;
      if |h| > 1 { EndingEarlier(line, end, rest == ""); }
      LoadOne(line, end, rest);
      forall k | 0 <= k < |h[1..]|
        ensures Ending(h[1..][k], ends[1..][k], k == |h[1..]| - 1) && |h[1..][k] + ends[1..][k]| <= 4095
      {
        assert Ending(h[k + 1], ends[k + 1], k + 1 == |h| - 1) && |h[k + 1] + ends[k + 1]| <= 4095;
      }
      LoadJoined(h[1..], ends[1..]);
    }
  }

  lemma EndingEarlier(line: string, end: string, last: bool)
    requires Ending(line, end, false)
    ensures Ending(line, end, last)
  {
  }

  /** The first line of a file, the rest of which begins after its end. */
  lemma {:induction false} LoadOne(line: string, end: string, rest: string)
    requires Ending(line, end, rest == "") && |line + end| <= 4095
    requires '\0' !in line && '\r' !in line && '\n' !in line
    ensures LoadedLines(line + end + rest) == [line] + LoadedLines(rest)
  {
    hide LoadedLines, Stripped;
    var file, got := line + end + rest, line + end;
    assert file[..|got|] == got && file[|got|..] == rest;
    FgetsTakes(line, end, rest);
    StrippedLine(line, end);
    LoadsOne(file);
  }

  lemma LoadsNone()
    ensures LoadedLines("") == []
  {
  }

  lemma LoadsOne(file: string)
    requires file != ""
    ensures LoadedLines(file) == [Stripped(file[..Fgets(file)])] + LoadedLines(file[Fgets(file)..])
  {
  }

  /** How much of a file is read at a time. */
  lemma {:induction false} FgetsTakes(line: string, end: string, rest: string)
    requires Ending(line, end, rest == "") && |line + end| <= 4095 && '\n' !in line
    ensures Fgets(line + end + rest) == |line + end|
  {
    var file, got := line + end + rest, line + end;
    var n := |got|;
    if end != "" && end[|end| - 1] == '\n' {
      var ignored := end[..|end| - 1];
      assert file[..n - 1] == line + ignored && file[n - 1] == '\n';
      BeforeAt(file, '\n', n - 1);
    } else {
      var b := Before(file, '\n');
      assert '\n' !in got && forall k | 0 <= k < n :: file[k] == got[k];
      if rest == "" { assert file == got; }
    }
  }

  lemma {:induction false} StrippedLine(line: string, end: string)
    requires Ending(line, end, true)
    requires '\0' !in line && '\r' !in line && '\n' !in line
    ensures Stripped(line + end) == line
  {
    var got, n := line + end, |line|;
    NoSuch(line, '\n');
    NoSuch(line, '\r');
    if end == "" {
      assert got == line;
      WholeText(line);
    } else if end[0] == '\0' {
      assert got[..n] == line;
      TextIsPrefix(got, n);
    } else {
      var text := Text(got);
      assert forall k | 0 <= k < n :: got[k] == line[k];
      assert text[..n] == line && text[n] == end[0];
      BeforeAt(text, end[0], n);
      if end[0] == '\n' {
        assert end == "\n" && got == line + ['\n'];
        NoSuch(text, '\r');
      }
    }
  }

  lemma {:induction false} NoSuch(text: string, c: char)
    requires c !in text
    ensures Before(text, c) == |text|
    decreases |text|
  {
    if text != "" {
      assert text[0] in text;
      NoSuch(text[1..], c);
    }
  }

  lemma {:induction false} CollapseNothing(h: seq<string>)
    requires NoRepeats(h)
    ensures Collapse(h) == h
    decreases |h|
  {
    if |h| > 1 {
      assert h[1] != h[0];
      forall k | 0 < k < |h[1..]| ensures h[1..][k] != h[1..][k - 1] { assert h[k + 1] != h[k]; }
      CollapseNothing(h[1..]);
    }
  }

  /** Saving a history and loading it into an empty one rebuilds it. */
  lemma {:induction false} SaveLoad(h: seq<string>, max: nat)
    requires 1 <= max && |h| <= max && Storable(h) && NoRepeats(h)
    ensures AddAll([], max, LoadedLines(Saved(h))) == h
  {
    LoadSaved(h);
    CollapseNothing(h);
    BoundedLog(max, h);
  }

  // ---------------------------------------------------------------------
  // The global array
  // ---------------------------------------------------------------------

  class Log {
    var lines: array?<string>
    var len: nat
    var max: nat

    ghost predicate Valid()
      reads this, lines
    {
      if lines == null then len == 0 else len <= max == lines.Length
    }

    function Entries(): seq<string>
      requires Valid()
      reads this, lines
    {
      if lines == null then [] else lines[..len]
    }

    constructor (max: nat)
      ensures Valid() && Entries() == [] && this.max == max && lines == null
    {
      lines, len, this.max := null, 0, max;
    }

    /** linenoiseHistoryAdd() */
    method Add(line: string) returns (added: bool)
      requires Valid()
      modifies this, lines
      ensures Valid() && max == old(max) && (lines == old(lines) || fresh(lines))
      ensures Entries() == AddLine(old(Entries()), max, line)
      ensures added <==> max > 0 && (old(Entries()) == [] || old(Entries())[|old(Entries())| - 1] != line)
    {
      if max == 0 { return false; }
      if lines == null {
        lines := new string[max];
      }
      if len > 0 && lines[len - 1] == line { return false; }
      if len == max {
        forall i | 0 <= i < max - 1 {
          lines[i] := lines[i + 1];
        }
        len := len - 1;
      }
      lines[len] := line;
      len := len + 1;
      return true;
    }

    /** linenoiseHistorySetMaxLen() */
    method SetMaxLen(n: int) returns (ok: bool)
      requires Valid()
      modifies this
      ensures Valid() && (lines == old(lines) || fresh(lines))
      ensures ok <==> n >= 1
      ensures if ok then max == n && Entries() == Newest(old(Entries()), n)
              else max == old(max) && Entries() == old(Entries())
      ensures var h := old(Entries());
              ok ==> Entries() == h[if |h| < n then 0 else |h| - n..]
    {
      if n < 1 { return false; }
      if lines != null {
        var tocopy := if n < len then n else len;
        var from := len - tocopy;
        var fewer := new string[n];
        forall i | 0 <= i < tocopy {
          fewer[i] := lines[from + i];
        }
        assert fewer[..tocopy] == lines[from..len];
        lines := fewer;
      }
      max := n;
      if len > max { len := max; }
      return true;
    }

    /** linenoiseHistorySave(): what the file then holds. */
    method Save() returns (file: string)
      requires Valid()
      ensures file == Saved(Entries())
    {
      file := "";
      ghost var all := Entries();
      for j := 0 to len
        invariant file + Saved(all[j..]) == Saved(all)
      {
        SavedFrom(all, j);
        file := file + lines[j] + ['\n'];
      }
    }

    /** linenoiseHistoryLoad() */
    method Load(file: string)
      requires Valid()
      modifies this, lines
      ensures Valid() && max == old(max)
      ensures Entries() == AddAll(old(Entries()), max, LoadedLines(file))
    {
      var rest := file;
      while rest != ""
        invariant Valid() && max == old(max) && (lines == old(lines) || fresh(lines))
        invariant AddAll(Entries(), max, LoadedLines(rest)) == AddAll(old(Entries()), max, LoadedLines(file))
        decreases |rest|
      {
        var n := Fgets(rest);
        var buf := Text(rest[..n]);
        var p := Before(buf, '\r');
        if p == |buf| { p := Before(buf, '\n'); }
        var _ := Add(buf[..p]);
        rest := rest[n..];
      }
    }
  }
}
