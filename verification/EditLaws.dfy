/** What each key of the line editor does to the text, the cursor and the history, key by key. */
module EditLaws {
  import opened History
  import opened LineSpec
  import Screen

  /** The line with a given text and the cursor at a given place in it. */
  function At(text: string, pos: nat): Line
    requires pos <= |text|
  {
    Line(text[..pos], text[pos..])
  }

  lemma AtSelf(l: Line)
    ensures At(l.Text(), |l.left|) == l
  {
  }

  // ---------------------------------------------------------------------
  // Edits, on the text
  // ---------------------------------------------------------------------

  /** A character goes in before the cursor if there is room for it. */
  lemma InsertMeans(l: Line, c: char, cap: nat)
    ensures var t, p, r := l.Text(), |l.left|, Edited(l, Insert(c), cap);
            if |t| < cap then r.Text() == t[..p] + [c] + t[p..] && |r.left| == p + 1 else r == l
  {
    AtSelf(l);
  }

  /** One character before or after the cursor goes, and the cursor stays between the same two others. */
  lemma DeleteMeans(l: Line, cap: nat)
    ensures var t, p, r := l.Text(), |l.left|, Edited(l, Backspace, cap);
            if p > 0 then r.Text() == t[..p - 1] + t[p..] && |r.left| == p - 1 else r == l
    ensures var t, p, r := l.Text(), |l.left|, Edited(l, Delete, cap);
            if p < |t| then r.Text() == t[..p] + t[p + 1..] && |r.left| == p else r == l
  {
    AtSelf(l);
    assert l.left != "" ==> l.Text()[..|l.left| - 1] == Front(l.left);
    assert l.right != "" ==> l.Text()[|l.left| + 1..] == l.right[1..];
  }

  /** Everything goes, or everything from the cursor on. */
  lemma KillMeans(l: Line, cap: nat)
    ensures Edited(l, KillLine, cap) == Line("", "")
    ensures var t, p, r := l.Text(), |l.left|, Edited(l, KillToEnd, cap); r.Text() == t[..p] && |r.left| == p
  {
    AtSelf(l);
    assert l.left + "" == l.left;
  }

  /** Cursor keys leave the text alone. */
  lemma MoveMeans(l: Line, cap: nat)
    ensures var t, p, r := l.Text(), |l.left|, Edited(l, Left, cap);
            r.Text() == t && |r.left| == if p > 0 then p - 1 else 0
    ensures var t, p, r := l.Text(), |l.left|, Edited(l, Right, cap);
            r.Text() == t && |r.left| == if p < |t| then p + 1 else |t|
    ensures var t, r := l.Text(), Edited(l, ToStart, cap); r.Text() == t && |r.left| == 0
    ensures var t, r := l.Text(), Edited(l, ToEnd, cap); r.Text() == t && |r.left| == |t|
  {
    LeftUndone(l, cap);
    RightUndone(l, cap);
    assert "" + (l.left + l.right) == l.Text() && (l.left + l.right) + "" == l.Text();
  }

  /** The characters around the cursor change places; the cursor moves on unless it is at the last one. */
  lemma {:induction false} TransposeMeans(l: Line, cap: nat)
    ensures var t, p, r := l.Text(), |l.left|, Edited(l, Transpose, cap);
            if 0 < p < |t| then
              && r.Text() == t[p - 1 := t[p]][p := t[p - 1]]
              && |r.left| == if p == |t| - 1 then p else p + 1
            else r == l
  {
    if l.left != "" && l.right != "" {
      var t, p := l.Text(), |l.left|;
      var r := Edited(l, Transpose, cap);
      assert t[p - 1] == Last(l.left) && t[p] == l.right[0];
      assert r.Text() == Front(l.left) + [l.right[0], Last(l.left)] + l.right[1..];
      assert r.Text() == t[p - 1 := t[p]][p := t[p - 1]];
    }
  }

  /** In `t`, blanks from `w` to `p`, and before them a word from `m` on, as long as it can be. */
  predicate WordBefore(t: string, m: nat, w: nat, p: nat) {
    && m <= w <= p <= |t|
    && (forall k | w <= k < p :: t[k] == ' ') && (w > 0 ==> t[w - 1] != ' ')
    && (forall k | m <= k < w :: t[k] != ' ') && (m > 0 ==> t[m - 1] == ' ')
  }

  /** The blanks before the cursor go, and the word before those. */
  lemma {:induction false} DeleteWordMeans(l: Line, cap: nat) returns (m: nat, w: nat)
    ensures var t, p, r := l.Text(), |l.left|, Edited(l, DeleteWord, cap);
            WordBefore(t, m, w, p) && r.Text() == t[..m] + t[p..] && |r.left| == m
  {
    var a := TrimBlanks(l.left);
    var b := TrimWord(a);
    m, w := |b|, |a|;
    var t, p := l.Text(), |l.left|;
    AtSelf(l);
    assert forall k | 0 <= k < p :: t[k] == l.left[k];
    assert t[..m] == b;
  }

  // ---------------------------------------------------------------------
  // Keys, by their codes
  // ---------------------------------------------------------------------

  /** The session goes on after `keys` as it would without them, from another line. */
  ghost predicate Becomes(keys: string, rest: string, s: Session, cap: nat, completer: Completer,
                          text: string, pos: nat)
    requires s.Valid() && cap >= 1 && pos <= |text|
  {
    RunSession(keys + rest, s, cap, completer) == RunSession(rest, s.(line := At(text, pos)), cap, completer)
  }

  /** A key, or an escape sequence, that stands for an edit. */
  lemma {:induction false} EditKey(keys: string, rest: string, s: Session, cap: nat, completer: Completer, e: Edit)
    requires s.Valid() && cap >= 1 && keys != ""
    requires Decode(keys + rest, completer.Some?) == Decoded(Do(e), |keys|)
    ensures var r := Edited(s.line, e, cap); Becomes(keys, rest, s, cap, completer, r.Text(), |r.left|)
  {
    hide Decode, Edited;
    AtSelf(Edited(s.line, e, cap));
    assert (keys + rest)[|keys|..] == rest;
  }

  /** DEL and Ctrl-H; Ctrl-D with a line that is not empty, and the key that ESC [ 3 ~ comes from. */
  lemma {:induction false} DeleteKeys(rest: string, s: Session, cap: nat, completer: Completer)
    requires s.Valid() && cap >= 1
    ensures var t, p := s.line.Text(), |s.line.left|;
            && (p > 0 ==> Becomes([127 as char], rest, s, cap, completer, t[..p - 1] + t[p..], p - 1))
            && (p > 0 ==> Becomes([8 as char], rest, s, cap, completer, t[..p - 1] + t[p..], p - 1))
            && (p == 0 ==> Becomes([127 as char], rest, s, cap, completer, t, p))
            && (p == 0 ==> Becomes([8 as char], rest, s, cap, completer, t, p))
            && (p < |t| ==> Becomes([4 as char], rest, s, cap, completer, t[..p] + t[p + 1..], p))
            && (p < |t| ==> Becomes([27 as char, '[', '3', '~'], rest, s, cap, completer, t[..p] + t[p + 1..], p))
            && (p == |t| > 0 ==> Becomes([4 as char], rest, s, cap, completer, t, p))
            && (p == |t| ==> Becomes([27 as char, '[', '3', '~'], rest, s, cap, completer, t, p))
  {
    DeleteMeans(s.line, cap);
    EditKey([127 as char], rest, s, cap, completer, Backspace);
    EditKey([8 as char], rest, s, cap, completer, Backspace);
    EditKey([27 as char, '[', '3', '~'], rest, s, cap, completer, Delete);
    if s.line.Text() != "" { CtrlD(rest, s, cap, completer); }
  }

  lemma {:induction false} CtrlD(rest: string, s: Session, cap: nat, completer: Completer)
    requires s.Valid() && cap >= 1 && s.line.Text() != ""
    ensures var r := Edited(s.line, Delete, cap); Becomes([4 as char], rest, s, cap, completer, r.Text(), |r.left|)
  {
    hide Edited;
    var all := [4 as char] + rest;
    assert Decode(all, completer.Some?) == Decoded(DeleteOrEof, 1) && all[1..] == rest;
    AtSelf(Edited(s.line, Delete, cap));
  }

  /** Ctrl-U, Ctrl-K and Ctrl-T. */
  lemma {:induction false} KillKeys(rest: string, s: Session, cap: nat, completer: Completer)
    requires s.Valid() && cap >= 1
    ensures var t, p := s.line.Text(), |s.line.left|;
            && Becomes([21 as char], rest, s, cap, completer, "", 0)
            && Becomes([11 as char], rest, s, cap, completer, t[..p], p)
            && (0 < p < |t| - 1 ==>
                  Becomes([20 as char], rest, s, cap, completer, t[p - 1 := t[p]][p := t[p - 1]], p + 1))
            && (0 < p == |t| - 1 ==>
                  Becomes([20 as char], rest, s, cap, completer, t[p - 1 := t[p]][p := t[p - 1]], p))
            && (p == 0 || p == |t| ==> Becomes([20 as char], rest, s, cap, completer, t, p))
  {
    KillMeans(s.line, cap);
    TransposeMeans(s.line, cap);
    EditKey([21 as char], rest, s, cap, completer, KillLine);
    EditKey([11 as char], rest, s, cap, completer, KillToEnd);
    EditKey([20 as char], rest, s, cap, completer, Transpose);
    hide Edited, Becomes;
  }

  /** Ctrl-W. */
  lemma {:induction false} WordKey(rest: string, s: Session, cap: nat, completer: Completer) returns (m: nat, w: nat)
    requires s.Valid() && cap >= 1
    ensures var t, p := s.line.Text(), |s.line.left|;
            WordBefore(t, m, w, p) && Becomes([23 as char], rest, s, cap, completer, t[..m] + t[p..], m)
  {
    m, w := DeleteWordMeans(s.line, cap);
    EditKey([23 as char], rest, s, cap, completer, DeleteWord);
    hide Edited, Becomes;
  }

  /** Ctrl-B, Ctrl-F, Ctrl-A and Ctrl-E. */
  lemma {:induction false} MoveKeys(rest: string, s: Session, cap: nat, completer: Completer)
    requires s.Valid() && cap >= 1
    ensures var t, p := s.line.Text(), |s.line.left|;
            && Becomes([2 as char], rest, s, cap, completer, t, if p > 0 then p - 1 else 0)
            && Becomes([6 as char], rest, s, cap, completer, t, if p < |t| then p + 1 else p)
            && Becomes([1 as char], rest, s, cap, completer, t, 0)
            && Becomes([5 as char], rest, s, cap, completer, t, |t|)
  {
    MoveMeans(s.line, cap);
    EditKey([2 as char], rest, s, cap, completer, Left);
    EditKey([6 as char], rest, s, cap, completer, Right);
    EditKey([1 as char], rest, s, cap, completer, ToStart);
    EditKey([5 as char], rest, s, cap, completer, ToEnd);
    hide Edited, Becomes;
  }

  /** The cursor keys left and right, home and end, as escape sequences of two kinds. */
  lemma {:induction false} ArrowKeys(rest: string, s: Session, cap: nat, completer: Completer)
    requires s.Valid() && cap >= 1
    ensures var t, p := s.line.Text(), |s.line.left|;
            && Becomes([27 as char, '[', 'D'], rest, s, cap, completer, t, if p > 0 then p - 1 else 0)
            && Becomes([27 as char, '[', 'C'], rest, s, cap, completer, t, if p < |t| then p + 1 else p)
            && Becomes([27 as char, '[', 'H'], rest, s, cap, completer, t, 0)
            && Becomes([27 as char, '[', 'F'], rest, s, cap, completer, t, |t|)
            && Becomes([27 as char, 'O', 'H'], rest, s, cap, completer, t, 0)
            && Becomes([27 as char, 'O', 'F'], rest, s, cap, completer, t, |t|)
  {
    MoveMeans(s.line, cap);
    EditKey([27 as char, '[', 'D'], rest, s, cap, completer, Left);
    EditKey([27 as char, '[', 'C'], rest, s, cap, completer, Right);
    EditKey([27 as char, '[', 'H'], rest, s, cap, completer, ToStart);
    EditKey([27 as char, '[', 'F'], rest, s, cap, completer, ToEnd);
    EditKey([27 as char, 'O', 'H'], rest, s, cap, completer, ToStart);
    EditKey([27 as char, 'O', 'F'], rest, s, cap, completer, ToEnd);
    hide Edited, Becomes;
  }

  /** The keys that are not inserted: control characters with a meaning of their own, and DEL. */
  predicate IsControl(c: char, completing: bool) {
    || c as int in {1, 2, 3, 4, 5, 6, 8, 11, 12, 13, 14, 16, 20, 21, 23, 27, 127}
    || (c as int == 9 && completing)
  }

  /** Any other character goes in before the cursor, if there is room for it. */
  lemma {:induction false} InsertKeys(c: char, rest: string, s: Session, cap: nat, completer: Completer)
    requires s.Valid() && cap >= 1 && !IsControl(c, completer.Some?)
    ensures var t, p := s.line.Text(), |s.line.left|;
            if |t| < cap then Becomes([c], rest, s, cap, completer, t[..p] + [c] + t[p..], p + 1)
            else Becomes([c], rest, s, cap, completer, t, p)
  {
    InsertMeans(s.line, c, cap);
    EditKey([c], rest, s, cap, completer, Insert(c));
    hide Edited, Becomes;
  }

  /** A character typed and rubbed out has not been typed, if there was room for it. */
  lemma {:induction false} RuboutUndoesInsert(c: char, back: char, rest: string, s: Session, cap: nat,
                                              completer: Completer)
    requires s.Valid() && cap >= 1 && !IsControl(c, completer.Some?) && |s.line.Text()| < cap
    requires back as int == 127 || back as int == 8
    ensures RunSession([c, back] + rest, s, cap, completer) == RunSession(rest, s, cap, completer)
  {
    hide RunSession, IsControl;
    var t, p := s.line.Text(), |s.line.left|;
    var more := t[..p] + [c] + t[p..];
    var s1 := s.(line := At(more, p + 1));
    InsertKeys(c, [back] + rest, s, cap, completer);
    assert [c] + ([back] + rest) == [c, back] + rest;
    DeleteKeys(rest, s1, cap, completer);
    assert s1.line.Text() == more && more[..p] + more[p + 1..] == t;
    AtSelf(s.line);
  }

  /** Ctrl-L changes nothing. */
  lemma {:induction false} ClearKey(rest: string, s: Session, cap: nat, completer: Completer)
    requires s.Valid() && cap >= 1
    ensures RunSession([12 as char] + rest, s, cap, completer) == RunSession(rest, s, cap, completer)
  {
    NothingKey([12 as char], rest, s, cap, completer);
  }

  /** An escape sequence of three or four characters without a meaning. */
  predicate Meaningless(keys: string) {
    && |keys| >= 3 && keys[0] as int == 27
    && if keys[1] == '[' && '0' <= keys[2] <= '9' then |keys| == 4 && !(keys[2] == '3' && keys[3] == '~')
       else if keys[1] == '[' then |keys| == 3 && keys[2] !in "ABCDHF"
       else |keys| == 3 && !(keys[1] == 'O' && keys[2] in "HF")
  }

  /** It changes nothing, and nothing of it is taken for typed text. */
  lemma {:induction false} MeaninglessKeys(keys: string, rest: string, s: Session, cap: nat, completer: Completer)
    requires s.Valid() && cap >= 1 && Meaningless(keys)
    ensures RunSession(keys + rest, s, cap, completer) == RunSession(rest, s, cap, completer)
  {
    hide RunSession;
    MeaninglessDecodes(keys + rest, |keys|);
    assert Decode(keys + rest, completer.Some?) == DecodeEscape(keys + rest);
    NothingKey(keys, rest, s, cap, completer);
  }

  lemma MeaninglessDecodes(input: string, n: nat)
    requires n <= |input| && Meaningless(input[..n])
    ensures DecodeEscape(input) == Decoded(Nothing, n)
  {
    var keys := input[..n];
    assert keys[1] == input[1] && keys[2] == input[2];
  }

  lemma {:induction false} NothingKey(keys: string, rest: string, s: Session, cap: nat, completer: Completer)
    requires s.Valid() && cap >= 1 && keys != ""
    requires var d := Decode(keys + rest, completer.Some?); (d.cmd.Nothing? || d.cmd.ClearScreen?) && d.used == |keys|
    ensures RunSession(keys + rest, s, cap, completer) == RunSession(rest, s, cap, completer)
  {
    hide Decode;
    assert (keys + rest)[|keys|..] == rest;
  }

  /** Enter returns the line; Ctrl-C, Ctrl-D at an empty line, and the end of what is typed return none. */
  lemma {:induction false} EndKeys(rest: string, s: Session, cap: nat, completer: Completer)
    requires s.Valid() && cap >= 1
    ensures RunSession([13 as char] + rest, s, cap, completer) == Accepted(s.line.Text(), s.hist[..|s.hist| - 1])
    ensures RunSession([3 as char] + rest, s, cap, completer) == Refused(s.hist)
    ensures s.line.Text() == "" ==>
              RunSession([4 as char] + rest, s, cap, completer) == Refused(s.hist[..|s.hist| - 1])
    ensures RunSession("", s, cap, completer) == Refused(s.hist)
    ensures |rest| < 2 ==> RunSession([27 as char] + rest, s, cap, completer) == Refused(s.hist)
  {
    var all := [27 as char] + rest;
    if |rest| < 2 {
      assert Decode(all, completer.Some?) == Decoded(Nothing, |all|);
      assert all[|all|..] == "";
    }
  }

  // ---------------------------------------------------------------------
  // History keys
  // ---------------------------------------------------------------------

  /**
   * Where a history key leads, `step` entries further back: the line as it is replaces the entry it
   * belongs to, and if there is an entry there, it is displayed as far as it fits, the cursor at its end.
   */
  ghost predicate Leads(s: Session, t: Session, step: int, cap: nat)
    requires s.Valid() && cap >= 1
  {
    if |s.hist| == 1 then t == s
    else
      && |t.hist| == |s.hist|
      && (forall k | 0 <= k < |s.hist| ::
            t.hist[k] == if k == |s.hist| - 1 - s.index then s.line.Text() else s.hist[k])
      && if 0 <= s.index + step < |s.hist| then
           var entry := t.hist[|s.hist| - 1 - (s.index + step)];
           && t.index == s.index + step
           && t.line == Line(if |entry| < cap then entry else entry[..cap - 1], "")
         else t.index == s.index && t.line == s.line
  }

  lemma {:induction false} BrowseLeads(s: Session, cap: nat)
    requires s.Valid() && cap >= 1
    ensures Leads(s, Browse(s, true, cap), 1, cap) && Leads(s, Browse(s, false, cap), -1, cap)
  {
  }

  /** Ctrl-P and the key up go one entry back, Ctrl-N and the key down one forth. */
  lemma {:induction false} HistoryKeys(rest: string, s: Session, cap: nat, completer: Completer)
    returns (up: Session, down: Session)
    requires s.Valid() && cap >= 1
    ensures Leads(s, up, 1, cap) && Leads(s, down, -1, cap) && up.Valid() && down.Valid()
    ensures RunSession([16 as char] + rest, s, cap, completer) == RunSession(rest, up, cap, completer)
    ensures RunSession([27 as char, '[', 'A'] + rest, s, cap, completer) == RunSession(rest, up, cap, completer)
    ensures RunSession([14 as char] + rest, s, cap, completer) == RunSession(rest, down, cap, completer)
    ensures RunSession([27 as char, '[', 'B'] + rest, s, cap, completer) == RunSession(rest, down, cap, completer)
  {
    hide Browse, Leads;
    up, down := Browse(s, true, cap), Browse(s, false, cap);
    BrowseLeads(s, cap);
    BrowseKey([16 as char], rest, s, cap, completer, true);
    BrowseKey([27 as char, '[', 'A'], rest, s, cap, completer, true);
    BrowseKey([14 as char], rest, s, cap, completer, false);
    BrowseKey([27 as char, '[', 'B'], rest, s, cap, completer, false);
  }

  lemma {:induction false} BrowseKey(keys: string, rest: string, s: Session, cap: nat, completer: Completer,
                                     older: bool)
    requires s.Valid() && cap >= 1 && keys != ""
    requires Decode(keys + rest, completer.Some?) == Decoded(if older then Older else Newer, |keys|)
    ensures RunSession(keys + rest, s, cap, completer) == RunSession(rest, Browse(s, older, cap), cap, completer)
  {
    hide Decode, Browse;
    assert (keys + rest)[|keys|..] == rest;
  }

  // ---------------------------------------------------------------------
  // Tabs
  // ---------------------------------------------------------------------

  function Tabs(k: nat): string {
    seq(k, _ => 9 as char)
  }

  /** Where `k` more tabs lead, of `n` offers and the original text. */
  lemma {:induction false} TabsWalk(k: nat, rest: string, n: nat, i: nat)
    requires i <= n && (rest == "" || rest[0] as int != 9)
    ensures var r := Choose(Tabs(k) + rest, n, i);
            if rest == "" then r == Choice(n, -1, k)
            else
              && r.used == k + 1
              && r.i == (if rest[0] as int == 27 then n else (i + k) % (n + 1))
              && r.key == (if rest[0] as int > 127 then -1 else rest[0] as int)
    decreases k
  {
    if k == 0 {
      assert Tabs(0) + rest == rest;
      Screen.DivMod(i, n + 1, 0, i);
    } else {
      var all := Tabs(k) + rest;
      assert all[0] as int == 9 && all[1..] == Tabs(k - 1) + rest;
      NextMod(i, k, n + 1);
      NextIn(i, n);
      TabsWalk(k - 1, rest, n, (i + 1) % (n + 1));
    }
  }

  lemma NextIn(i: nat, n: nat)
    requires i <= n
    ensures 0 <= (i + 1) % (n + 1) <= n
  {
  }

  lemma {:induction false} NextMod(i: nat, k: nat, m: nat)
    requires i < m && k >= 1
    ensures ((i + 1) % m + (k - 1)) % m == (i + k) % m
  {
    if i + 1 < m {
      Screen.DivMod(i + 1, m, 0, i + 1);
    } else {
      Screen.DivMod(m, m, 1, 0);
      Screen.DivMod(k - 1, m, 0, 0);
      Screen.DivMod(i + k, m, (k - 1) / m + 1, (k - 1) % m);
    }
  }

  /**
   * A tab shows the first offer, and each one more the next; after the last one comes the original
   * text, and then the first again. What is shown becomes the line when another key comes, which then
   * does what it always does; only ESC goes back to the original text. A session whose input ends
   * there, or goes on with a character above 127, returns the line and gives up no entry.
   */
  lemma {:induction false} TabKeys(k: nat, rest: string, s: Session, cap: nat, completer: Completer)
    requires s.Valid() && cap >= 1 && completer.Some? && (rest == "" || rest[0] as int != 9)
    requires completer.offers(s.line.Text()) != []
    ensures var offers := completer.offers(s.line.Text());
            var i := k % (|offers| + 1);
            var line := if i < |offers| then Line(offers[i], "") else s.line;
            RunSession(Tabs(k + 1) + rest, s, cap, completer) ==
              if rest == "" then Accepted(s.line.Text(), s.hist)
              else if rest[0] as int > 127 then Accepted(line.Text(), s.hist)
              else if rest[0] as int == 27 then RunSession(rest, s, cap, completer)
              else if rest[0] as int == 0 then RunSession(rest[1..], s.(line := line), cap, completer)
              else RunSession(rest, s.(line := line), cap, completer)
  {
    hide RunSession, Choose;
    var offers := completer.offers(s.line.Text());
    var all, more := Tabs(k + 1) + rest, Tabs(k) + rest;
    assert all[0] as int == 9 && all[1..] == more;
    TabsWalk(k, rest, |offers|, 0);
    TabGoes(all, s, cap, completer);
    assert s == s.(line := s.line);
    if rest != "" {
      assert more[k + 1..] == rest[1..] && more[k..] == rest;
    }
  }

  lemma TabGoes(input: string, s: Session, cap: nat, completer: Completer)
    requires s.Valid() && cap >= 1 && input != "" && input[0] as int == 9 && completer.Some?
    ensures var offers := completer.offers(s.line.Text());
            var choice := Choose(input[1..], |offers|, 0);
            var t := s.(line := if choice.i < |offers| then Line(offers[choice.i], "") else s.line);
            RunSession(input, s, cap, completer) ==
              if offers == [] then RunSession(input[1..], s, cap, completer)
              else if choice.key < 0 then Accepted(t.line.Text(), t.hist)
              else RunSession(input[1..][if choice.key == 0 then choice.used else choice.used - 1..], t, cap, completer)
  {
    hide Choose;
  }

  /** A tab without anything on offer does nothing. */
  lemma {:induction false} NoOffers(rest: string, s: Session, cap: nat, completer: Completer)
    requires s.Valid() && cap >= 1 && completer.Some? && completer.offers(s.line.Text()) == []
    ensures RunSession([9 as char] + rest, s, cap, completer) == RunSession(rest, s, cap, completer)
  {
    hide RunSession;
    var all := [9 as char] + rest;
    assert all[1..] == rest;
    TabGoes(all, s, cap, completer);
  }

  /** A session begins with an empty line, which has the newest place in the history. */
  lemma Begins(hist: seq<string>, max: nat)
    requires 1 <= max && |hist| <= max
    ensures var s := Begin(hist, max);
            && s.Valid() && s.line == Line("", "") && s.index == 0
            && s.hist == if hist != [] && hist[|hist| - 1] == "" then hist
                         else if |hist| < max then hist + [""] else hist[1..] + [""]
  {
  }
}
