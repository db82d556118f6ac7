/** The quoting lexer of split.cpp. */
module Split {
  import opened CStrings

  const MAX_ARG_LEN := 512

  const BS := '\\'
  const SQ := '\''
  const DQ := '\"'
  const NL := '\n'

  predicate IsDelim(c: char) {
    c == ' ' || c == '\t' || c == '\n'
  }

  predicate IsQuote(c: char) {
    c == SQ || c == DQ
  }

  predicate IsDqEscapable(c: char) {
    c == '\\' || c == '\"' || c == '`' || c == '$'
  }

  // ---------------------------------------------------------------------
  // The quoting rules, with no bound on the length or number of arguments
  // ---------------------------------------------------------------------

  /** The finished arguments, and whether the string was well formed. */
  datatype Lexed = Lexed(words: seq<string>, ok: bool) {
    function After(done: seq<string>): Lexed {
      Lexed(done + words, ok)
    }
  }

  /** Where in the string we are: between arguments, inside one, or inside quotes. */
  datatype Place =
    | Between
    | InWord(cur: string)
    | InQuote(q: char, cur: string)

  /** One application of a rule: stop, or skip `n` characters having finished `words`. */
  datatype Move =
    | Stop(words: seq<string>, ok: bool)
    | Go(to: Place, n: nat, words: seq<string>)

  /** The rule for a place, the next character `a` and the one after it `b`; NUL marks the end. */
  function Next(p: Place, a: char, b: char): Move {
    match p
    case Between =>
      if a == NUL then Stop([], true)
      else if IsDelim(a) then Go(Between, 1, [])
      else if a == BS && b == NL then Go(Between, 2, [])
      else Go(InWord(""), 0, [])
    case InWord(cur) =>
      if a == NUL then Stop([cur], true)
      else if IsDelim(a) then Go(Between, 1, [cur])
      else if IsQuote(a) then Go(InQuote(a, cur), 1, [])
      else if a != BS then Go(InWord(cur + [a]), 1, [])
      else if b == NUL then Stop([], false)
      else if b == NL then Go(InWord(cur), 2, [])
      else Go(InWord(cur + [b]), 2, [])
    case InQuote(q, cur) =>
      if a == NUL then Stop([], false)
      else if a == q then Go(InWord(cur), 1, [])
      else if a != BS || q == SQ then Go(InQuote(q, cur + [a]), 1, [])
      else if b == NUL then Stop([], false)
      else if b == NL then Go(InQuote(q, cur), 2, [])
      else if IsDqEscapable(b) then Go(InQuote(q, cur + [b]), 2, [])
      else Go(InQuote(q, cur + [a] + [b]), 2, [])
  }

  function Lex(s: string): Lexed {
    LexFrom(Between, s)
  }

  function LexFrom(p: Place, s: string): Lexed
    decreases |s|, if p.Between? then 1 else 0
  {
    match Next(p, Peek(s, 0), Peek(s, 1))
    case Stop(words, ok) => Lexed(words, ok)
    case Go(to, n, words) => LexFrom(to, s[n..]).After(words)
  }

  // ---------------------------------------------------------------------
  // What the fixed-size argument buffer and argument vector keep of it
  // ---------------------------------------------------------------------

  /** The return value: negative, or the SPLIT_DROP and SPLIT_TRUNC bits. */
  datatype Status = Malformed | Flags(drop: bool, trunc: bool)

  predicate Long(w: string) {
    |w| > MAX_ARG_LEN - 1
  }

  function Cut(w: string): string {
    if Long(w) then w[..MAX_ARG_LEN - 1] else w
  }

  function Min(a: nat, b: nat): nat {
    if a < b then a else b
  }

  /** The slots still free in a vector of `size` slots that already holds `used`. */
  function Free(used: nat, size: nat): nat {
    if used < size then size - used else 0
  }

  predicate AnyLong(words: seq<string>) {
    exists k | 0 <= k < |words| :: Long(words[k])
  }

  function Kept(words: seq<string>, free: nat): (kept: seq<string>) {
    seq(Min(|words|, free), k requires 0 <= k < |words| => Cut(words[k]))
  }

  function StatusOf(lexed: Lexed, free: nat): Status {
    if lexed.ok then Flags(|lexed.words| > free, AnyLong(lexed.words)) else Malformed
  }

  // ---------------------------------------------------------------------
  // The program
  // ---------------------------------------------------------------------

  datatype State = ST_DELIM | ST_QUOTE | ST_ARG | ST_END

  datatype Error = ERR_OK | ERR_BS_AT_EOS | ERR_SQ_OPEN_AT_EOS

  /** With `done` finished, reading on from `p` at index `c` gives what the whole string gives. */
  ghost predicate Reaches(s: string, done: seq<string>, p: Place, c: nat) {
    c <= |s| && Lex(s) == LexFrom(p, s[c..]).After(done)
  }

  lemma {:induction false} Advance(s: string, done: seq<string>, p: Place, c: nat)
    requires Reaches(s, done, p, c)
    ensures match Next(p, Peek(s, c), Peek(s, c + 1))
            case Stop(words, ok) => Lex(s) == Lexed(Plus(done, words), ok)
            case Go(to, n, words) => Reaches(s, Plus(done, words), to, c + n)
  {
    var rest := s[c..];
    assert Peek(rest, 0) == Peek(s, c) && Peek(rest, 1) == Peek(s, c + 1);
    var move := Next(p, Peek(rest, 0), Peek(rest, 1));
    if move.Go? {
      assert rest[move.n..] == s[c + move.n..];
      var later := LexFrom(move.to, rest[move.n..]);
      assert done + (move.words + later.words) == (done + move.words) + later.words;
    }
  }

  function Plus(done: seq<string>, words: seq<string>): (r: seq<string>)
    ensures r == done + words
  {
    if words == [] then done else done + words
  }

  lemma AnyLongSnoc(done: seq<string>, w: string)
    ensures AnyLong(done + [w]) == (AnyLong(done) || Long(w))
  {
    var both := done + [w];
    if AnyLong(done) {
      var k :| 0 <= k < |done| && Long(done[k]);
      assert Long(both[k]);
    }
    if Long(w) {
      assert Long(both[|done|]);
    }
  }

  /** One call of split_quoted(): its locals, and ghosts for the words before cutting. */
  class Splitter {
    const s: string
    const argv: array<string>
    const argvSz: nat
    const argBuff: array<char>
    var argc: nat
    var ap: nat
    var c: nat
    var qc: char
    var state: State
    var err: Error
    var drop: bool
    var trunc: bool
    ghost const argc0: nat
    ghost const argv0: seq<string>
    ghost var done: seq<string>
    ghost var cur: string

    ghost function Free0(): nat {
      Free(argc0, argvSz)
    }

    /** The rules lead to the present state. */
    ghost predicate OnTrack()
      reads `c, `qc, `state, `err, `done, `cur
    {
      && (state == ST_END || (c <= |s| && err == ERR_OK))
      && (state == ST_DELIM || (state == ST_END && err == ERR_OK) ==> cur == "")
      && match state
         case ST_END => Lex(s) == Lexed(done, err == ERR_OK)
         case ST_DELIM => Reaches(s, done, Between, c)
         case ST_QUOTE => Reaches(s, done, InQuote(qc, cur), c)
         case ST_ARG => Reaches(s, done, InWord(cur), c)
    }

    /** The buffer holds the current word as far as it fits, and the flags are accurate. */
    ghost predicate Buffered()
      reads `ap, `cur, `done, `trunc, `drop, argBuff
    {
      && argBuff.Length == MAX_ARG_LEN
      && NUL !in cur
      && ap == |Cut(cur)|
      && argBuff[..ap] == Cut(cur)
      && trunc == (AnyLong(done) || Long(cur))
      && drop == (|done| > Free0())
    }

    /** The vector holds the finished words as far as they fit, and is otherwise untouched. */
    ghost predicate Stored()
      reads `argc, `done, argv
    {
      var kept := Kept(done, Free0());
      && argvSz <= argv.Length == |argv0|
      && argc == argc0 + |kept|
      && forall i | 0 <= i < argv.Length ::
           argv[i] == if argc0 <= i < argc then kept[i - argc0] else argv0[i]
    }

    ghost predicate Valid()
      reads this, argv, argBuff
    {
      IsQuote(qc) && Buffered() && Stored()
    }

    constructor (s: string, argc: nat, argv: array<string>, argvSz: nat)
      requires argvSz <= argv.Length
      ensures Valid() && OnTrack() && state == ST_DELIM && c == 0
      ensures fresh(argBuff)
      ensures this.s == s && this.argv == argv && this.argvSz == argvSz && argc0 == argc && argv0 == argv[..]
    {
      this.s, this.argc, this.argv, this.argvSz := s, argc, argv, argvSz;
      argBuff := new char[MAX_ARG_LEN];
      ap, c, state, err := 0, 0, ST_DELIM, ERR_OK;
      drop, trunc := false, false;
      qc := SQ;
      argc0, argv0, done, cur := argc, argv[..], [], "";
      new;
      assert s[0..] == s;
    }

    /** save(): append the character at `c` to the word, or note that it no longer fits. */
    method Save()
      requires Valid() && c < |s| && s[c] != NUL
      modifies `ap, `trunc, `cur, argBuff
      ensures Valid() && cur == old(cur) + [s[c]]
    {
      if ap != MAX_ARG_LEN - 1 {
        argBuff[ap] := Peek(s, c);
        ap := ap + 1;
      } else {
        trunc := true;
      }
      cur := cur + [s[c]];
    }

    /** push(): hand the word over to the vector, or drop it. */
    method Push()
      requires Valid()
      modifies `ap, `argc, `drop, `done, `cur, argBuff, argv
      ensures Valid() && done == old(done) + [old(cur)] && cur == ""
    {
      if argc < argvSz {
        argBuff[ap] := NUL;
        TextIsPrefix(argBuff[..], ap);
        argv[argc] := Text(argBuff[..]);
        argc := argc + 1;
      } else {
        drop := true;
      }
      ap := 0;
      AnyLongSnoc(done, cur);
      done := done + [cur];
      cur := "";
    }

    method SkipDelims()
      requires OnTrack() && state == ST_DELIM
      modifies `c
      ensures OnTrack() && c >= old(c) && !IsDelim(Peek(s, c))
    {
      hide Reaches, LexFrom;
      while IsDelim(Peek(s, c))
        invariant OnTrack() && state == ST_DELIM && old(c) <= c
        decreases |s| - c
      {
        Advance(s, done, Between, c);
        c := c + 1;
      }
    }

    /** The ST_DELIM case, at a character that starts an argument. */
    method Open()
      requires Valid() && OnTrack() && state == ST_DELIM && Peek(s, c) != NUL
      requires !IsDelim(Peek(s, c)) && !IsQuote(Peek(s, c))
      modifies `c, `state, `err, `ap, `cur, `trunc, argBuff
      ensures Valid() && OnTrack()
      ensures state == ST_END || c > old(c)
    {
      hide Stored, Buffered, Reaches, LexFrom;
      Advance(s, done, Between, c);
      if !(Peek(s, c) == BS && Peek(s, c + 1) == NL) {
        Advance(s, done, InWord(""), c);
      }
      if Peek(s, c) == BS {
        c := c + 1;
        if Peek(s, c) == NL {
          c := c + 1;
          return;
        }
        if Peek(s, c) == NUL {
          state := ST_END; err := ERR_BS_AT_EOS;
          return;
        }
      }
      Save(); c := c + 1; state := ST_ARG;
    }

    /** The ST_DELIM case. */
    method Delim()
      requires Valid() && OnTrack() && state == ST_DELIM
      modifies `c, `qc, `state, `err, `ap, `cur, `trunc, argBuff
      ensures Valid() && OnTrack()
      ensures state == ST_END || c > old(c)
    {
      hide Stored, Buffered, Reaches, LexFrom;
      SkipDelims();
      Advance(s, done, Between, c);
      if IsQuote(Peek(s, c)) {
        Advance(s, done, InWord(""), c);
        qc := s[c]; c := c + 1; state := ST_QUOTE;
        return;
      }
      if Peek(s, c) == NUL {
        state := ST_END;
        return;
      }
      Open();
    }

    /** The ST_QUOTE case, at a backslash that is not inside single quotes. */
    method Escape()
      requires Valid() && OnTrack() && state == ST_QUOTE && qc != SQ && Peek(s, c) == BS
      modifies `c, `qc, `state, `err, `ap, `cur, `trunc, argBuff
      ensures Valid() && OnTrack()
      ensures state == ST_END || c > old(c)
    {
      hide Stored, Buffered, Reaches, LexFrom;
      assert qc == DQ;
      Advance(s, done, InQuote(qc, cur), c);
      c := c + 1;
      if Peek(s, c) == NL {
        c := c + 1;
        return;
      }
      if Peek(s, c) == NUL {
        state := ST_END; err := ERR_BS_AT_EOS;
        return;
      }
      if !IsDqEscapable(Peek(s, c)) {
        c := c - 1; Save(); c := c + 1;
      }
      Save(); c := c + 1;
    }

    /** The ST_QUOTE case. */
    method Quote()
      requires Valid() && OnTrack() && state == ST_QUOTE
      modifies `c, `qc, `state, `err, `ap, `cur, `trunc, argBuff
      ensures Valid() && OnTrack()
      ensures state == ST_END || c > old(c)
    {
      hide Stored, Buffered, Reaches, LexFrom;
      while Peek(s, c) != qc && (Peek(s, c) != BS || qc == SQ) && Peek(s, c) != NUL
        invariant Valid() && OnTrack() && state == ST_QUOTE && old(c) <= c
        decreases |s| - c
      {
        Advance(s, done, InQuote(qc, cur), c);
        Save(); c := c + 1;
      }
      if Peek(s, c) == BS && Peek(s, c) != qc {
        Escape();
        return;
      }
      Advance(s, done, InQuote(qc, cur), c);
      if Peek(s, c) == qc {
        c := c + 1; state := ST_ARG;
        return;
      }
      // The only character left; the source's assert(0) after this case is unreachable.
      assert Peek(s, c) == NUL;
      state := ST_END; err := ERR_SQ_OPEN_AT_EOS;
    }

    /** The ST_ARG case. */
    method Arg()
      requires Valid() && OnTrack() && state == ST_ARG
      modifies this, argBuff, argv
      ensures Valid() && OnTrack()
      ensures state == ST_END || c > old(c)
    {
      hide Stored, Buffered, Reaches, LexFrom;
      Advance(s, done, InWord(cur), c);
      if IsQuote(Peek(s, c)) {
        qc := s[c]; c := c + 1; state := ST_QUOTE;
        return;
      }
      if IsDelim(Peek(s, c)) || Peek(s, c) == NUL {
        Push();
        state := if Peek(s, c) == NUL then ST_END else ST_DELIM;
        c := c + 1;
        return;
      }
      if Peek(s, c) == BS {
        c := c + 1;
        if Peek(s, c) == NL {
          c := c + 1;
          return;
        }
        if Peek(s, c) == NUL {
          state := ST_END; err := ERR_BS_AT_EOS;
          return;
        }
      }
      Save(); c := c + 1;
    }

    /** What the call returns, once the end of the string is reached. */
    method Result() returns (r: Status)
      requires Valid() && OnTrack() && state == ST_END
      ensures r == StatusOf(Lex(s), Free0())
      ensures argc == argc0 + |Kept(Lex(s).words, Free0())|
      ensures forall i | 0 <= i < argv.Length ::
                argv[i] == if argc0 <= i < argc then Kept(Lex(s).words, Free0())[i - argc0] else argv0[i]
    {
      hide LexFrom, Kept, AnyLong;
      r := if err != ERR_OK then Malformed else Flags(drop, trunc);
    }
  }

  method SplitQuoted(s: string, argc0: nat, argv: array<string>, argvSz: nat)
    returns (argc: nat, r: Status)
    requires argvSz <= argv.Length
    modifies argv
    ensures r == StatusOf(Lex(s), Free(argc0, argvSz))
    ensures argc == argc0 + |Kept(Lex(s).words, Free(argc0, argvSz))|
    ensures forall i | 0 <= i < argv.Length ::
              argv[i] == if argc0 <= i < argc then Kept(Lex(s).words, Free(argc0, argvSz))[i - argc0]
                         else old(argv[i])
  {
    hide Splitter.Valid, Reaches, Lex, LexFrom, Kept, StatusOf, Free;
    var lexer := new Splitter(s, argc0, argv, argvSz);
    while lexer.state != ST_END
      invariant fresh(lexer) && fresh(lexer.argBuff) && lexer.argv == argv
      invariant lexer.Valid() && lexer.OnTrack()
      decreases if lexer.state == ST_END then 0 else |s| + 1 - lexer.c
    {
      match lexer.state
      case ST_DELIM => lexer.Delim();
      case ST_QUOTE => lexer.Quote();
      case ST_ARG => lexer.Arg();
    }
    argc := lexer.argc;
    r := lexer.Result();
  }
}
