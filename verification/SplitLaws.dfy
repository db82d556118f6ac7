/** What the quoting rules of split.h promise: what text means, which text means nothing, and that calls concatenate. */
module SplitLaws {
  import opened CStrings
  import opened Split

  // ---------------------------------------------------------------------
  // Text as it is written, and what it means
  // ---------------------------------------------------------------------

  /** What stands between double quotes. */
  datatype DqTok = DqPlain(c: char) | DqEscaped(c: char) | DqKept(c: char) | DqJoint

  /** What stands outside: delimiters, escaped newlines, and what arguments are made of. */
  datatype Tok =
    | Blank(c: char) | Joint | Plain(c: char) | Escaped(c: char)
    | SingleQuoted(text: string) | DoubleQuoted(toks: seq<DqTok>)

  predicate DqFine(t: DqTok) {
    match t
    case DqPlain(c) => c != '\0' && c != '\"' && c != '\\'
    case DqEscaped(c) => c == '\"' || c == '\\' || c == '$' || c == '`'
    case DqKept(c) => c != '\0' && c != '\n' && c != '\"' && c != '\\' && c != '$' && c != '`'
    case DqJoint => true
  }

  predicate Fine(t: Tok) {
    match t
    case Blank(c) => c == ' ' || c == '\t' || c == '\n'
    case Joint => true
    case Plain(c) => c != '\0' && c != ' ' && c != '\t' && c != '\n' && c != '\\' && c != '\'' && c != '\"'
    case Escaped(c) => c != '\0' && c != '\n'
    case SingleQuoted(text) => '\0' !in text && '\'' !in text
    case DoubleQuoted(toks) => forall k | 0 <= k < |toks| :: DqFine(toks[k])
  }

  predicate AllFine(toks: seq<Tok>) {
    forall k | 0 <= k < |toks| :: Fine(toks[k])
  }

  function DqOne(t: DqTok): string {
    match t
    case DqPlain(c) => [c]
    case DqEscaped(c) => ['\\', c]
    case DqKept(c) => ['\\', c]
    case DqJoint => ['\\', '\n']
  }

  function DqWritten(toks: seq<DqTok>): string {
    if toks == [] then "" else DqOne(toks[0]) + DqWritten(toks[1..])
  }

  /** A backslash stays where it has nothing to escape, and an escaped newline is nothing at all. */
  function DqMeans(t: DqTok): string {
    match t
    case DqPlain(c) => [c]
    case DqEscaped(c) => [c]
    case DqKept(c) => ['\\', c]
    case DqJoint => ""
  }

  function DqValue(toks: seq<DqTok>): string {
    if toks == [] then "" else DqMeans(toks[0]) + DqValue(toks[1..])
  }

  function WrittenOne(t: Tok): string {
    match t
    case Blank(c) => [c]
    case Joint => ['\\', '\n']
    case Plain(c) => [c]
    case Escaped(c) => ['\\', c]
    case SingleQuoted(text) => ['\''] + text + ['\'']
    case DoubleQuoted(toks) => ['\"'] + DqWritten(toks) + ['\"']
  }

  function Written(toks: seq<Tok>): string {
    if toks == [] then "" else WrittenOne(toks[0]) + Written(toks[1..])
  }

  /** What a token adds to the argument it is in. */
  function Value(t: Tok): string {
    match t
    case Blank(_) | Joint => ""
    case Plain(c) => [c]
    case Escaped(c) => [c]
    case SingleQuoted(text) => text
    case DoubleQuoted(toks) => DqValue(toks)
  }

  datatype Option<T> = None | Some(value: T)

  /** The arguments, the one that has been begun first: delimiters end one, and anything but them begins one. */
  function Meaning(begun: Option<string>, toks: seq<Tok>): seq<string>
    decreases |toks|
  {
    if toks == [] then if begun.None? then [] else [begun.value]
    else if toks[0].Blank? then (if begun.None? then [] else [begun.value]) + Meaning(None, toks[1..])
    else if toks[0].Joint? then Meaning(begun, toks[1..])
    else Meaning(Some((if begun.None? then "" else begun.value) + Value(toks[0])), toks[1..])
  }

  /** One step of the rules over text whose first two characters are known. */
  lemma {:induction false} Unfold(p: Place, s: string)
    ensures LexFrom(p, s) ==
            match Next(p, Peek(s, 0), Peek(s, 1))
            case Stop(words, ok) => Lexed(words, ok)
            case Go(to, n, words) => LexFrom(to, s[n..]).After(words)
    ensures forall r: Lexed :: r.After([]) == r
  {
  }

  lemma {:induction false} SqReads(cur: string, text: string, rest: string)
    requires '\0' !in text && '\'' !in text
    ensures LexFrom(InQuote('\'', cur), text + ['\''] + rest) == LexFrom(InWord(cur + text), rest)
    decreases |text|
  {
    hide LexFrom;
    var all := text + ['\''] + rest;
    Unfold(InQuote('\'', cur), all);
    if text == "" {
      assert all[1..] == rest && cur + text == cur;
    } else {
      assert text[0] in text;
      assert all[1..] == text[1..] + ['\''] + rest;
      assert cur + [text[0]] + text[1..] == cur + text;
      SqReads(cur + [text[0]], text[1..], rest);
    }
  }

  /** Between double quotes: plain text, the four escapes, backslashes that stay, and escaped newlines. */
  lemma {:induction false} DqReads(cur: string, toks: seq<DqTok>, rest: string)
    requires forall k | 0 <= k < |toks| :: DqFine(toks[k])
    ensures LexFrom(InQuote('\"', cur), DqWritten(toks) + ['\"'] + rest) == LexFrom(InWord(cur + DqValue(toks)), rest)
    decreases |toks|
  {
    hide LexFrom, DqOne, DqMeans, DqFine;
    var all := DqWritten(toks) + ['\"'] + rest;
    if toks == [] {
      Unfold(InQuote('\"', cur), all);
      assert all[1..] == rest && cur + DqValue(toks) == cur;
    } else {
      var t, tail := toks[0], DqWritten(toks[1..]) + ['\"'] + rest;
      assert all == DqOne(t) + tail;
      DqReadsOne(cur, t, tail);
      DqReads(cur + DqMeans(t), toks[1..], rest);
      assert cur + DqMeans(t) + DqValue(toks[1..]) == cur + DqValue(toks);
    }
  }

  lemma {:induction false} DqReadsOne(cur: string, t: DqTok, rest: string)
    requires DqFine(t)
    ensures LexFrom(InQuote('\"', cur), DqOne(t) + rest) == LexFrom(InQuote('\"', cur + DqMeans(t)), rest)
  {
    hide LexFrom;
    var all := DqOne(t) + rest;
    Unfold(InQuote('\"', cur), all);
    match t
    case DqPlain(c) => assert all[1..] == rest;
    case DqEscaped(c) => assert all[2..] == rest;
    case DqKept(c) => assert all[2..] == rest && cur + ['\\'] + [c] == cur + ['\\', c];
    case DqJoint => assert all[2..] == rest && cur + "" == cur;
  }

  /** A token inside an argument. */
  lemma {:induction false} InWordReads(cur: string, t: Tok, rest: string)
    requires Fine(t)
    ensures LexFrom(InWord(cur), WrittenOne(t) + rest) ==
            if t.Blank? then LexFrom(Between, rest).After([cur])
            else LexFrom(InWord(cur + Value(t)), rest)
  {
    hide LexFrom, DqWritten, DqValue;
    var all := WrittenOne(t) + rest;
    Unfold(InWord(cur), all);
    match t
    case Blank(c) => assert all[1..] == rest;
    case Joint => assert all[2..] == rest && cur + "" == cur;
    case Plain(c) => assert all[1..] == rest;
    case Escaped(c) => assert all[2..] == rest;
    case SingleQuoted(text) =>
      assert all[1..] == text + ['\''] + rest;
      SqReads(cur, text, rest);
    case DoubleQuoted(toks) =>
      assert all[1..] == DqWritten(toks) + ['\"'] + rest;
      DqReads(cur, toks, rest);
  }

  /** A token between arguments. */
  lemma {:induction false} BetweenReads(t: Tok, rest: string)
    requires Fine(t)
    ensures LexFrom(Between, WrittenOne(t) + rest) ==
            if t.Blank? || t.Joint? then LexFrom(Between, rest) else LexFrom(InWord(Value(t)), rest)
  {
    hide LexFrom, DqWritten, DqValue, Next;
    var all := WrittenOne(t) + rest;
    Unfold(Between, all);
    BetweenMoves(t, rest);
    if t.Blank? {
      assert all[1..] == rest;
    } else if t.Joint? {
      assert all[2..] == rest;
    } else {
      hide Value, WrittenOne, Fine;
      assert all[0..] == all;
      InWordReads("", t, rest);
      assert "" + Value(t) == Value(t);
    }
  }

  lemma BetweenMoves(t: Tok, rest: string)
    requires Fine(t)
    ensures var all := WrittenOne(t) + rest;
            Next(Between, Peek(all, 0), Peek(all, 1)) ==
              if t.Blank? then Go(Between, 1, []) else if t.Joint? then Go(Between, 2, []) else Go(InWord(""), 0, [])
  {
    hide DqWritten;
  }

  function Begun(begun: Option<string>): Place {
    if begun.None? then Between else InWord(begun.value)
  }

  /** The rules read any text that is written so as what it means. */
  lemma {:induction false} ReadsAs(begun: Option<string>, toks: seq<Tok>)
    requires AllFine(toks)
    ensures LexFrom(Begun(begun), Written(toks)) == Lexed(Meaning(begun, toks), true)
    decreases |toks|
  {
    hide LexFrom, WrittenOne, Fine, Value;
    if toks == [] {
      Unfold(Between, "");
      if begun.Some? { Unfold(InWord(begun.value), ""); }
    } else {
      var t, more := toks[0], toks[1..];
      InWordReads(if begun.None? then "" else begun.value, t, Written(more));
      BetweenReads(t, Written(more));
      NothingAdded(t);
      var cur := (if begun.None? then "" else begun.value) + Value(t);
      assert begun.None? ==> cur == Value(t);
      if t.Blank? {
        ReadsAs(None, more);
      } else if t.Joint? {
        assert begun.Some? ==> cur == begun.value;
        ReadsAs(begun, more);
      } else {
        ReadsAs(Some(cur), more);
      }
    }
  }

  lemma NothingAdded(t: Tok)
    ensures t.Joint? ==> Value(t) == ""
  {
  }

  // ---------------------------------------------------------------------
  // Lists of words
  // ---------------------------------------------------------------------

  /** An argument: the delimiters before it, escaped newlines among them, and the tokens it is written with. */
  datatype Item = Item(gap: seq<Tok>, word: seq<Tok>)

  predicate Gap(gap: seq<Tok>) {
    forall k | 0 <= k < |gap| :: gap[k].Blank? || gap[k].Joint?
  }

  predicate HasBlank(gap: seq<Tok>) {
    exists k | 0 <= k < |gap| :: gap[k].Blank?
  }

  /** Escaped newlines may be inside a word, but do not begin one. */
  predicate Word(word: seq<Tok>) {
    word != [] && !word[0].Joint? && forall k | 0 <= k < |word| :: !word[k].Blank?
  }

  /** Only the first argument may lack delimiters before it. */
  predicate Printable(items: seq<Item>) {
    && (forall k | 0 <= k < |items| :: Gap(items[k].gap) && Word(items[k].word))
    && (forall k | 0 < k < |items| :: HasBlank(items[k].gap))
  }

  function Print(items: seq<Item>, tail: seq<Tok>): seq<Tok> {
    if items == [] then tail else items[0].gap + (items[0].word + Print(items[1..], tail))
  }

  function Spelled(word: seq<Tok>): string {
    if word == [] then "" else Value(word[0]) + Spelled(word[1..])
  }

  function Words(items: seq<Item>): (ws: seq<string>)
    ensures |ws| == |items|
  {
    seq(|items|, k requires 0 <= k < |items| => Spelled(items[k].word))
  }

  lemma {:induction false} GapMeans(begun: Option<string>, gap: seq<Tok>, rest: seq<Tok>)
    requires Gap(gap)
    ensures Meaning(begun, gap + rest) ==
            if HasBlank(gap) && begun.Some? then [begun.value] + Meaning(None, rest) else Meaning(begun, rest)
    decreases |gap|
  {
    if gap == [] {
      assert gap + rest == rest;
    } else {
      assert (gap + rest)[1..] == gap[1..] + rest;
      assert gap[0].Blank? ==> HasBlank(gap);
      assert HasBlank(gap[1..]) ==> HasBlank(gap) by {
        if HasBlank(gap[1..]) {
          var k :| 0 <= k < |gap[1..]| && gap[1..][k].Blank?;
          assert gap[k + 1].Blank?;
        }
      }
      assert HasBlank(gap) && !gap[0].Blank? ==> HasBlank(gap[1..]) by {
        if HasBlank(gap) && !gap[0].Blank? {
          var k :| 0 <= k < |gap| && gap[k].Blank?;
          assert gap[1..][k - 1].Blank?;
        }
      }
      GapMeans(if gap[0].Blank? then None else begun, gap[1..], rest);
    }
  }

  lemma MeaningGoesOn(cur: string, word: seq<Tok>, rest: seq<Tok>)
    requires word != [] && !word[0].Blank?
    ensures Meaning(Some(cur), word + rest) == Meaning(Some(cur + Value(word[0])), word[1..] + rest)
  {
    assert (word + rest)[1..] == word[1..] + rest;
    if word[0].Joint? { assert cur + Value(word[0]) == cur; }
  }

  lemma {:induction false} WordMeans(cur: string, word: seq<Tok>, rest: seq<Tok>)
    requires forall k | 0 <= k < |word| :: !word[k].Blank?
    ensures Meaning(Some(cur), word + rest) == Meaning(Some(cur + Spelled(word)), rest)
    decreases |word|
  {
    hide Meaning, Value;
    if word == [] {
      assert word + rest == rest && cur + Spelled(word) == cur;
    } else {
      MeaningGoesOn(cur, word, rest);
      WordMeans(cur + Value(word[0]), word[1..], rest);
      assert cur + Value(word[0]) + Spelled(word[1..]) == cur + Spelled(word);
    }
  }

  lemma {:induction false} WordBegins(word: seq<Tok>, rest: seq<Tok>)
    requires Word(word)
    ensures Meaning(None, word + rest) == Meaning(Some(Spelled(word)), rest)
  {
    assert (word + rest)[1..] == word[1..] + rest;
    WordMeans(Value(word[0]), word[1..], rest);
    assert "" + Value(word[0]) == Value(word[0]);
  }

  lemma {:induction false} PrintMeans(begun: Option<string>, items: seq<Item>, tail: seq<Tok>)
    requires Printable(items) && Gap(tail) && (begun.Some? && items != [] ==> HasBlank(items[0].gap))
    ensures Meaning(begun, Print(items, tail)) == (if begun.None? then [] else [begun.value]) + Words(items)
    decreases |items|
  {
    hide Meaning, Spelled, Word;
    if items == [] {
      assert tail + [] == tail;
      GapMeans(begun, tail, []);
      NothingMeant();
      if begun.Some? { JustBegun(begun.value); }
    } else {
      var i, more := items[0], items[1..];
      GapMeans(begun, i.gap, i.word + Print(more, tail));
      WordBegins(i.word, Print(more, tail));
      PrintMeans(Some(Spelled(i.word)), more, tail);
      assert Words(items) == [Spelled(i.word)] + Words(more);
    }
  }

  lemma NothingMeant()
    ensures Meaning(None, []) == []
  {
  }

  lemma JustBegun(cur: string)
    ensures Meaning(Some(cur), []) == [cur]
  {
  }

  /** Any list of words reads back as itself, however each is written, with any delimiters in between. */
  lemma {:induction false} RoundTrip(items: seq<Item>, tail: seq<Tok>)
    requires Printable(items) && Gap(tail) && AllFine(Print(items, tail))
    ensures Lex(Written(Print(items, tail))) == Lexed(Words(items), true)
  {
    hide LexFrom, Meaning, Written;
    ReadsAs(None, Print(items, tail));
    PrintMeans(None, items, tail);
    assert [] + Words(items) == Words(items);
  }

  /** A word in double quotes, its double quotes and backslashes escaped. */
  function InDouble(w: string): seq<DqTok> {
    if w == "" then []
    else [if w[0] == '\"' || w[0] == '\\' then DqEscaped(w[0]) else DqPlain(w[0])] + InDouble(w[1..])
  }

  /** A word with each character escaped, but for newlines, which cannot be and are quoted. */
  function InBackslashes(w: string): seq<Tok> {
    if w == "" then [] else [if w[0] == '\n' then SingleQuoted("\n") else Escaped(w[0])] + InBackslashes(w[1..])
  }

  /** Any word can be written, in double quotes, and if it is not empty, with backslashes. */
  lemma {:induction false} Writings(w: string)
    requires '\0' !in w
    ensures (forall k | 0 <= k < |InDouble(w)| :: DqFine(InDouble(w)[k])) && DqValue(InDouble(w)) == w
    ensures AllFine(InBackslashes(w)) && Spelled(InBackslashes(w)) == w
    ensures (w != "" ==> Word(InBackslashes(w))) && Word([DoubleQuoted(InDouble(w))])
    decreases |w|
  {
    if w != "" {
      assert w[0] in w;
      Writings(w[1..]);
      assert [w[0]] + w[1..] == w;
      assert InDouble(w)[1..] == InDouble(w[1..]) && InBackslashes(w)[1..] == InBackslashes(w[1..]);
    }
  }

  // ---------------------------------------------------------------------
  // What is malformed
  // ---------------------------------------------------------------------

  /** What of a string is still open: nothing, a quote, or an escape outside or inside double quotes. */
  datatype Open = Closed | Single | Double | Escape | DoubleEscape

  function Opened(o: Open, c: char): Open {
    match o
    case Closed => if c == '\'' then Single else if c == '\"' then Double else if c == '\\' then Escape else Closed
    case Single => if c == '\'' then Closed else Single
    case Double => if c == '\"' then Closed else if c == '\\' then DoubleEscape else Double
    case Escape => Closed
    case DoubleEscape => Double
  }

  function OpenAfter(o: Open, s: string): Open
    decreases |s|
  {
    if s == "" then o else OpenAfter(Opened(o, s[0]), s[1..])
  }

  function OpenAt(p: Place): Open {
    if !p.InQuote? then Closed else if p.q == '\'' then Single else Double
  }

  lemma {:induction false} OpenAfterTwo(o: Open, s: string)
    requires |s| >= 2
    ensures OpenAfter(o, s) == OpenAfter(Opened(Opened(o, s[0]), s[1]), s[2..])
  {
    assert s[1..][0] == s[1] && s[1..][1..] == s[2..];
  }

  /** The rules fail exactly on text that leaves a quote open or ends in a backslash that escapes nothing. */
  lemma {:induction false} MalformedExactly(p: Place, s: string)
    requires NUL !in s && (p.InQuote? ==> IsQuote(p.q))
    ensures LexFrom(p, s).ok <==> OpenAfter(OpenAt(p), s) == Closed
    decreases |s|, if p.Between? then 1 else 0
  {
    hide LexFrom;
    Unfold(p, s);
    if s != "" {
      hide OpenAfter;
      assert s[0] in s;
      MoveAgrees(p, s);
      var move := Next(p, Peek(s, 0), Peek(s, 1));
      if move.Go? {
        assert forall c | c in s[move.n..] :: c in s;
        MalformedExactly(move.to, s[move.n..]);
      }
    }
  }

  /** The rules and the simpler count agree about each move. */
  lemma {:induction false} MoveAgrees(p: Place, s: string)
    requires s != "" && NUL !in s && (p.InQuote? ==> IsQuote(p.q))
    ensures var move := Next(p, Peek(s, 0), Peek(s, 1));
            match move
            case Stop(_, ok) => !ok && OpenAfter(OpenAt(p), s) != Closed
            case Go(to, n, _) =>
              && n <= |s| && (n > 0 || (p.Between? && !to.Between?))
              && (to.InQuote? ==> IsQuote(to.q))
              && OpenAfter(OpenAt(to), s[n..]) == OpenAfter(OpenAt(p), s)
  {
    assert s[0] in s;
    if |s| >= 2 {
      assert s[1] in s;
      OpenAfterTwo(OpenAt(p), s);
    } else {
      assert s[1..] == "";
    }
    assert s[0..] == s;
  }

  // ---------------------------------------------------------------------
  // All text
  // ---------------------------------------------------------------------

  /** The rest of a single-quoted text, and what comes after it. */
  lemma {:induction false} SingleSplits(s: string) returns (text: string, rest: string)
    requires '\0' !in s && OpenAfter(Single, s) == Closed
    ensures s == text + ['\''] + rest && '\'' !in text && OpenAfter(Closed, rest) == Closed
    decreases |s|
  {
    if s[0] == '\'' {
      text, rest := "", s[1..];
    } else {
      var t;
      assert forall c | c in s[1..] :: c in s;
      t, rest := SingleSplits(s[1..]);
      text := [s[0]] + t;
      assert s == [s[0]] + s[1..];
    }
  }

  /** The rest of a double-quoted text, and what comes after it. */
  lemma {:induction false} DoubleSplits(s: string) returns (toks: seq<DqTok>, rest: string)
    requires '\0' !in s && OpenAfter(Double, s) == Closed
    ensures s == DqWritten(toks) + ['\"'] + rest && (forall k | 0 <= k < |toks| :: DqFine(toks[k]))
    ensures OpenAfter(Closed, rest) == Closed
    decreases |s|
  {
    NotYet(Double);
    hide OpenAfter, DqWritten, DqFine, DqOne;
    OpenStep(Double, s);
    if s[0] == '\"' {
      toks, rest := [], s[1..];
      DqNothing();
    } else {
      var t, n := FirstDq(s);
      var more;
      assert '\0' !in s[n..];
      more, rest := DoubleSplits(s[n..]);
      DqMore(t, more);
      toks := [t] + more;
      assert s == s[..n] + s[n..];
    }
  }

  lemma {:induction false} FirstDq(s: string) returns (t: DqTok, n: nat)
    requires s != "" && '\0' !in s && s[0] != '\"' && OpenAfter(Double, s) == Closed
    ensures 0 < n <= |s| && DqFine(t) && s[..n] == DqOne(t) && OpenAfter(Double, s[n..]) == Closed
  {
    hide OpenAfter;
    assert s[0] in s;
    OpenStep(Double, s);
    if s[0] != '\\' {
      t, n := DqPlain(s[0]), 1;
    } else {
      if |s| == 1 { OneCharacter(Double, s); }
      OpenAfterTwo(Double, s);
      assert s[1] in s;
      var c := s[1];
      t, n := if c == '\n' then DqJoint
              else if c == '\"' || c == '\\' || c == '$' || c == '`' then DqEscaped(c) else DqKept(c), 2;
    }
  }

  lemma NotYet(o: Open)
    ensures OpenAfter(o, "") == o
  {
  }

  lemma OpenStep(o: Open, s: string)
    requires s != ""
    ensures OpenAfter(o, s) == OpenAfter(Opened(o, s[0]), s[1..])
  {
  }

  lemma DqNothing()
    ensures DqWritten([]) == ""
  {
  }

  lemma DqMore(t: DqTok, toks: seq<DqTok>)
    ensures DqWritten([t] + toks) == DqOne(t) + DqWritten(toks)
  {
    assert ([t] + toks)[1..] == toks;
  }

  lemma OneCharacter(o: Open, s: string)
    requires |s| == 1
    ensures OpenAfter(o, s) == Opened(o, s[0])
  {
    assert s[1..] == "";
  }

  /** Text that leaves nothing open can be taken apart. */
  lemma {:induction false} Spelling(s: string) returns (toks: seq<Tok>)
    requires '\0' !in s && OpenAfter(Closed, s) == Closed
    ensures AllFine(toks) && Written(toks) == s
    decreases |s|
  {
    if s == "" {
      toks := [];
    } else {
      assert s[0] in s && forall c | c in s[1..] :: c in s;
      var t, rest;
      t, rest := FirstTok(s);
      assert forall c | c in rest :: c in s;
      var more := Spelling(rest);
      toks := [t] + more;
      assert toks[1..] == more;
    }
  }

  lemma {:induction false} FirstTok(s: string) returns (t: Tok, rest: string)
    requires s != "" && '\0' !in s && OpenAfter(Closed, s) == Closed
    ensures Fine(t) && WrittenOne(t) + rest == s && |rest| < |s| && OpenAfter(Closed, rest) == Closed
  {
    var c := s[0];
    if c == '\'' || c == '\"' {
      t, rest := FirstQuoted(s);
    } else {
      t, rest := FirstBare(s);
    }
  }

  lemma {:induction false} FirstQuoted(s: string) returns (t: Tok, rest: string)
    requires s != "" && '\0' !in s && OpenAfter(Closed, s) == Closed && (s[0] == '\'' || s[0] == '\"')
    ensures Fine(t) && WrittenOne(t) + rest == s && |rest| < |s| && OpenAfter(Closed, rest) == Closed
  {
    var more := s[1..];
    assert '\0' !in more;
    OpenStep(Closed, s);
    hide OpenAfter, DqWritten, DqFine;
    if s[0] == '\'' {
      var text;
      text, rest := SingleSplits(more);
      t := SingleQuoted(text);
      assert '\0' !in text by { assert text <= more; }
    } else {
      var toks;
      toks, rest := DoubleSplits(more);
      t := DoubleQuoted(toks);
    }
    assert s == [s[0]] + more;
  }

  lemma {:induction false} FirstBare(s: string) returns (t: Tok, rest: string)
    requires s != "" && '\0' !in s && OpenAfter(Closed, s) == Closed && s[0] != '\'' && s[0] != '\"'
    ensures Fine(t) && WrittenOne(t) + rest == s && |rest| < |s| && OpenAfter(Closed, rest) == Closed
  {
    var c := s[0];
    assert c in s;
    OpenStep(Closed, s);
    hide OpenAfter;
    if c == '\\' {
      if |s| == 1 { OneCharacter(Closed, s); }
      OpenAfterTwo(Closed, s);
      assert s[1] in s;
      t, rest := if s[1] == '\n' then Joint else Escaped(s[1]), s[2..];
      assert s == [c, s[1]] + s[2..];
    } else {
      t, rest := if c == ' ' || c == '\t' || c == '\n' then Blank(c) else Plain(c), s[1..];
      assert s == [c] + s[1..];
    }
  }

  /** So all text is accounted for: it leaves something open and fails, or is made of tokens and means what they do. */
  lemma {:induction false} EveryText(s: string) returns (toks: seq<Tok>)
    requires '\0' !in s
    ensures if OpenAfter(Closed, s) == Closed
            then AllFine(toks) && Written(toks) == s && Lex(s) == Lexed(Meaning(None, toks), true)
            else !Lex(s).ok
  {
    hide LexFrom, Meaning, Written, Fine;
    MalformedExactly(Between, s);
    toks := [];
    if OpenAfter(Closed, s) == Closed {
      toks := Spelling(s);
      ReadsAs(None, toks);
    }
  }

  // ---------------------------------------------------------------------
  // The bounded call, as a function of the arguments already in the vector
  // ---------------------------------------------------------------------

  datatype Call = Call(args: seq<string>, status: Status)

  /** What split_quoted leaves in a vector of `size` slots that starts out holding `args`. */
  function SplitInto(s: string, args: seq<string>, size: nat): Call {
    var free := Free(|args|, size);
    Call(args + Kept(Lex(s).words, free), StatusOf(Lex(s), free))
  }

  /** What becomes of a list of words: those that have a slot are kept, cut to 511 characters, and the flags say so. */
  lemma {:induction false} BoundedRoundTrip(items: seq<Item>, tail: seq<Tok>, args: seq<string>, size: nat)
    requires Printable(items) && Gap(tail) && AllFine(Print(items, tail))
    ensures var call := SplitInto(Written(Print(items, tail)), args, size);
            var ws := Words(items);
            var n := if |args| + |ws| <= size then |ws| else if |args| < size then size - |args| else 0;
            && |call.args| == |args| + n && call.args[..|args|] == args
            && (forall k | 0 <= k < n :: call.args[|args| + k] == if |ws[k]| <= 511 then ws[k] else ws[k][..511])
            && call.status.Flags?
            && (call.status.drop <==> |ws| > n)
            && (call.status.trunc <==> exists k | 0 <= k < |ws| :: |ws[k]| > 511)
  {
    hide LexFrom, Print, Words;
    RoundTrip(items, tail);
    var ws := Words(items);
    if exists k | 0 <= k < |ws| :: |ws[k]| > 511 {
      var k :| 0 <= k < |ws| && |ws[k]| > 511;
      assert Long(ws[k]);
    }
    if AnyLong(ws) {
      var k :| 0 <= k < |ws| && Long(ws[k]);
      assert |ws[k]| > 511;
    }
  }

  /** A malformed string keeps the arguments before the fault and fails. */
  lemma {:induction false} BoundedMalformed(s: string, args: seq<string>, size: nat)
    requires '\0' !in s && OpenAfter(Closed, s) != Closed
    ensures SplitInto(s, args, size).status == Malformed && args <= SplitInto(s, args, size).args
  {
    hide LexFrom;
    MalformedExactly(Between, s);
  }

  lemma DropConcat(a: string, d: char, b: string, n: nat)
    requires n <= |a| && NUL !in a
    ensures (a + [d] + b)[n..] == a[n..] + [d] + b && NUL !in a[n..]
  {
  }

  /** Where `a` does not end in an error, what follows it does not change the rule applied. */
  lemma {:induction false} SameMove(p: Place, a: string, d: char, b: string)
    requires IsDelim(d) && LexFrom(p, a).ok
    ensures var all := a + [d] + b;
            var move := Next(p, Peek(a, 0), Peek(a, 1));
            && (move.Stop? ==> a == "" || a[0] == NUL)
            && (a != "" ==> Next(p, Peek(all, 0), Peek(all, 1)) == move)
  {
    hide LexFrom;
    var all := a + [d] + b;
    Unfold(p, a);
    if a != "" {
      assert Peek(all, 0) == a[0];
      assert Peek(all, 1) == if |a| == 1 then d else a[1];
      if |a| == 1 && a[0] == BS && p.Between? {
        Unfold(InWord(""), a[0..]);
        assert a[0..] == a;
      }
    }
  }

  /** A delimiter after the end of well formed text. */
  lemma {:induction false} DelimAfter(p: Place, d: char, b: string)
    requires IsDelim(d) && LexFrom(p, "").ok
    ensures LexFrom(p, [d] + b) == Lex(b).After(LexFrom(p, "").words)
  {
    hide LexFrom;
    Unfold(p, "");
    Unfold(p, [d] + b);
    assert ([d] + b)[1..] == b;
  }

  /** A rule takes characters that are there, or else starts an argument. */
  lemma MoveAdvances(p: Place, a: string)
    requires a != "" && NUL !in a && Next(p, Peek(a, 0), Peek(a, 1)).Go?
    ensures var move := Next(p, Peek(a, 0), Peek(a, 1));
            move.n <= |a| && (move.n > 0 || (p.Between? && !move.to.Between?))
  {
    assert a[0] in a;
  }

  lemma {:induction false} LexConcat(p: Place, a: string, d: char, b: string)
    requires NUL !in a && IsDelim(d) && LexFrom(p, a).ok
    ensures LexFrom(p, a + [d] + b) == Lex(b).After(LexFrom(p, a).words)
    decreases |a|, if p.Between? then 1 else 0
  {
    hide LexFrom, Next, Peek;
    var all := a + [d] + b;
    if a == "" {
      assert all == [d] + b;
      DelimAfter(p, d, b);
    } else {
      Unfold(p, a);
      Unfold(p, all);
      SameMove(p, a, d, b);
      var move := Next(p, Peek(a, 0), Peek(a, 1));
      assert a[0] in a;
      MoveAdvances(p, a);
      DropConcat(a, d, b, move.n);
      LexConcat(move.to, a[move.n..], d, b);
      var x, y := LexFrom(move.to, a[move.n..]).words, Lex(b).words;
      assert move.words + (x + y) == (move.words + x) + y;
    }
  }

  /** Splitting `a` and then `b` into the same vector is splitting `a`, a delimiter and `b` at once. */
  lemma {:induction false} CallsConcatenate(a: string, d: char, b: string, args: seq<string>, size: nat)
    requires NUL !in a && IsDelim(d) && SplitInto(a, args, size).status.Flags?
    ensures var first := SplitInto(a, args, size);
            var second := SplitInto(b, first.args, size);
            var once := SplitInto(a + [d] + b, args, size);
            && once.args == second.args
            && once.status.Malformed? == second.status.Malformed?
            && (second.status.Flags? ==>
                  once.status == Flags(first.status.drop || second.status.drop,
                                       first.status.trunc || second.status.trunc))
  {
    hide LexFrom;
    LexConcat(Between, a, d, b);
    var x, y := Lex(a).words, Lex(b).words;
    var free := Free(|args|, size);
    var left := Free(|args| + |Kept(x, free)|, size);
    assert left == free - |Kept(x, free)|;
    assert Kept(x + y, free) == Kept(x, free) + Kept(y, left);
    AnyLongConcat(x, y);
  }

  lemma AnyLongConcat(x: seq<string>, y: seq<string>)
    ensures AnyLong(x + y) == (AnyLong(x) || AnyLong(y))
  {
    if AnyLong(x) {
      var k :| 0 <= k < |x| && Long(x[k]);
      assert Long((x + y)[k]);
    }
    if AnyLong(y) {
      var k :| 0 <= k < |y| && Long(y[k]);
      assert Long((x + y)[|x| + k]);
    }
  }

  // ---------------------------------------------------------------------
  // run_cmd(): the command line, then the extra arguments
  // ---------------------------------------------------------------------

  const RUNCMD_ARGS_MAX := 32

  datatype Launch = CannotParse | NoCommand | Exec(argv: seq<string>)

  /** split_quoted on a vector filled up to `argc0`, seen as a list of arguments. */
  method SplitOnto(s: string, argc0: nat, argv: array<string>, size: nat) returns (argc: nat, status: Status)
    requires argc0 <= size <= argv.Length
    modifies argv
    ensures argc <= size
    ensures SplitInto(s, old(argv[..argc0]), size) == Call(argv[..argc], status)
  {
    hide LexFrom;
    argc, status := SplitQuoted(s, argc0, argv, size);
    assert argv[..argc] == old(argv[..argc0]) + Kept(Lex(s).words, Free(argc0, size));
  }

  lemma {:induction false} CallsConcatenateOnEmpty(cmd: string, argsExtra: string)
    requires NUL !in cmd
    ensures var first := SplitInto(cmd, [], RUNCMD_ARGS_MAX);
            var second := SplitInto(argsExtra, first.args, RUNCMD_ARGS_MAX);
            && (first.status.Malformed? <==> !Lex(cmd).ok)
            && (second.status.Malformed? <==> !Lex(argsExtra).ok)
            && (first.status.Flags? ==> SplitInto(cmd + [' '] + argsExtra, [], RUNCMD_ARGS_MAX).args == second.args)
  {
    hide LexFrom;
    if SplitInto(cmd, [], RUNCMD_ARGS_MAX).status.Flags? {
      CallsConcatenate(cmd, ' ', argsExtra, [], RUNCMD_ARGS_MAX);
    }
  }

  /** The vector run_cmd executes is that of the command with the extra arguments written after it. */
  method CommandVector(cmd: string, argsExtra: string) returns (r: Launch)
    requires NUL !in cmd
    ensures r.CannotParse? <==> !Lex(cmd).ok || !Lex(argsExtra).ok
    ensures !r.CannotParse? ==>
              var argv := SplitInto(cmd + [' '] + argsExtra, [], 32).args;
              r == if argv == [] then NoCommand else Exec(argv)
  {
    hide LexFrom, SplitInto;
    var argv := new string[RUNCMD_ARGS_MAX + 1];
    CallsConcatenateOnEmpty(cmd, argsExtra);
    assert argv[..0] == [];
    var argc, status := SplitOnto(cmd, 0, argv, RUNCMD_ARGS_MAX);
    if status.Malformed? {
      return CannotParse;
    }
    argc, status := SplitOnto(argsExtra, argc, argv, RUNCMD_ARGS_MAX);
    if status.Malformed? {
      return CannotParse;
    }
    if argc < 1 {
      return NoCommand;
    }
    return Exec(argv[..argc]);
  }
}
