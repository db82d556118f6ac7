/** Reading a line with plain echo, and writing all of a buffer: fdio.cpp. */
module FdIo {
  import opened Bytes
  import opened CharMap

  const BEL: byte := 7
  const CTRL_C: byte := 3
  const SPC: byte := 32
  const BACKSLASH: byte := 92
  const LOWER_X: byte := 120

  // ---------------------------------------------------------------------
  // A row of a terminal, long enough for the line
  // ---------------------------------------------------------------------

  datatype Row = Row(cells: seq<byte>, at: nat)

  /** A printable character takes the cell at the cursor; a backspace only moves; the bell does neither. */
  function Put(row: Row, c: byte): Row {
    if c == BS then row.(at := if row.at == 0 then 0 else row.at - 1)
    else if c == BEL then row
    else if row.at < |row.cells| then Row(row.cells[row.at := c], row.at + 1)
    else Row(row.cells + seq(row.at - |row.cells|, _ => SPC) + [c], row.at + 1)
  }

  function PutAll(row: Row, out: seq<byte>): Row
    decreases |out|
  {
    if out == [] then row else PutAll(Put(row, out[0]), out[1..])
  }

  lemma {:induction false} PutAllConcat(row: Row, a: seq<byte>, b: seq<byte>)
    ensures PutAll(row, a + b) == PutAll(PutAll(row, a), b)
    decreases |a|
  {
    if a == [] {
      assert a + b == b;
    } else {
      PutAllConcat(Put(row, a[0]), a[1..], b);
      assert (a + b)[1..] == a[1..] + b;
    }
  }

  /** The row shows `s` from its start, the cursor is right after it, and all cells beyond are blank. */
  predicate Shows(row: Row, s: seq<byte>) {
    row.at == |s| && s <= row.cells && forall k | |s| <= k < |row.cells| :: row.cells[k] == SPC
  }

  // ---------------------------------------------------------------------
  // The characters of a line, and their cells
  // ---------------------------------------------------------------------

  predicate IsPrint(c: byte) {
    0x20 <= c < 0x7f
  }

  /** What cput() and xput() write: the character itself, or a backslash, an x and two hex digits. */
  function Cells(c: byte): (r: seq<byte>)
    ensures 1 <= |r| <= 4
    ensures forall k | 0 <= k < |r| :: r[k] != BS && r[k] != BEL
  {
    if IsPrint(c) then [c] else [BACKSLASH, LOWER_X, HexDigit(c / 16), HexDigit(c % 16)]
  }

  /** What cdel() and xdel() write. */
  function Wipe(c: byte): seq<byte> {
    if IsPrint(c) then [BS, SPC, BS] else [BS, BS, BS, BS, SPC, SPC, SPC, SPC, BS, BS, BS, BS]
  }

  function Shown(text: seq<byte>): seq<byte>
    decreases |text|
  {
    if text == [] then [] else Shown(text[..|text| - 1]) + Cells(text[|text| - 1])
  }

  /** Written at the end of what is shown, characters are shown after it. */
  lemma {:induction false} PutAfter(row: Row, s: seq<byte>, out: seq<byte>)
    requires Shows(row, s) && forall k | 0 <= k < |out| :: out[k] != BS && out[k] != BEL
    ensures Shows(PutAll(row, out), s + out)
    decreases |out|
  {
    if out == [] {
      assert s + out == s;
    } else {
      var next := Put(row, out[0]);
      assert Shows(next, s + [out[0]]);
      PutAfter(next, s + [out[0]], out[1..]);
      assert s + [out[0]] + out[1..] == s + out;
    }
  }

  /** cdel() undoes cput(), and xdel() undoes xput(). */
  lemma {:induction false} WipeUndoes(row: Row, s: seq<byte>, c: byte)
    requires Shows(row, s + Cells(c))
    ensures Shows(PutAll(row, Wipe(c)), s)
  {
    var n := |s|;
    if IsPrint(c) {
      var r1 := Put(row, BS);
      var r2 := Put(r1, SPC);
      var r3 := Put(r2, BS);
      assert PutAll(row, Wipe(c)) == r3 by { ThreePuts(row, BS, SPC, BS); }
      assert Shows(r3, s);
    } else {
      FourBack(row, n);
      var r1 := Row(row.cells, n);
      BlankOver(r1, [SPC, SPC, SPC, SPC]);
      var r2 := Row(row.cells[..n] + [SPC, SPC, SPC, SPC] + row.cells[n + 4..], n + 4);
      FourBack(r2, n);
      PutAllConcat(row, [BS, BS, BS, BS], [SPC, SPC, SPC, SPC] + [BS, BS, BS, BS]);
      PutAllConcat(r1, [SPC, SPC, SPC, SPC], [BS, BS, BS, BS]);
      assert Wipe(c) == [BS, BS, BS, BS] + ([SPC, SPC, SPC, SPC] + [BS, BS, BS, BS]);
      assert Shows(Row(r2.cells, n), s);
    }
  }

  lemma ThreePuts(row: Row, a: byte, b: byte, c: byte)
    ensures PutAll(row, [a, b, c]) == Put(Put(Put(row, a), b), c)
  {
    hide Put;
    var r2 := Put(Put(row, a), b);
    assert [a, b, c][1..] == [b, c] && [b, c][1..] == [c] && [c][1..] == [];
    assert PutAll(r2, [c]) == PutAll(Put(r2, c), []);
  }

  lemma {:induction false} FourBack(row: Row, n: nat)
    requires row.at == n + 4
    ensures PutAll(row, [BS, BS, BS, BS]) == Row(row.cells, n)
  {
    assert [BS, BS, BS, BS][1..] == [BS, BS, BS];
    ThreePuts(Put(row, BS), BS, BS, BS);
  }

  /** Blanks written over existing cells. */
  lemma {:induction false} BlankOver(row: Row, blanks: seq<byte>)
    requires row.at + |blanks| <= |row.cells| && forall k | 0 <= k < |blanks| :: blanks[k] == SPC
    ensures PutAll(row, blanks) == Row(row.cells[..row.at] + blanks + row.cells[row.at + |blanks|..], row.at + |blanks|)
    decreases |blanks|
  {
    var n := |blanks|;
    if n == 0 {
      assert row.cells[..row.at] + blanks + row.cells[row.at..] == row.cells;
    } else {
      var next := Put(row, SPC);
      BlankOver(next, blanks[1..]);
      assert row.cells[..row.at] + blanks + row.cells[row.at + n..]
          == next.cells[..row.at + 1] + blanks[1..] + next.cells[row.at + 1 + (n - 1)..];
    }
  }

  // ---------------------------------------------------------------------
  // Typing a line, key by key
  // ---------------------------------------------------------------------

  predicate Rubs(c: byte) {
    c == BS || c == DEL
  }

  /** A stack of at most `cap` characters: the rubout keys pop, all others push. */
  function Key(text: seq<byte>, c: byte, cap: nat): seq<byte> {
    if Rubs(c) then if text == [] then [] else text[..|text| - 1]
    else if |text| < cap then text + [c] else text
  }

  /** The echo of a key. */
  function EchoKey(text: seq<byte>, c: byte, cap: nat): seq<byte> {
    if Rubs(c) then if text == [] then [BEL] else Wipe(text[|text| - 1])
    else if |text| < cap then Cells(c) else [BEL]
  }

  /** The line after some keys, and all that was echoed. */
  function Typed(keys: seq<byte>, cap: nat): (r: seq<byte>)
    ensures |r| <= cap
    decreases |keys|
  {
    if keys == [] then [] else Key(Typed(keys[..|keys| - 1], cap), keys[|keys| - 1], cap)
  }

  function Echo(keys: seq<byte>, cap: nat): seq<byte>
    decreases |keys|
  {
    if keys == [] then []
    else
      var before := keys[..|keys| - 1];
      Echo(before, cap) + EchoKey(Typed(before, cap), keys[|keys| - 1], cap)
  }

  lemma NothingTyped(cap: nat)
    ensures Typed([], cap) == [] && Echo([], cap) == []
  {
  }

  /** One key more. */
  lemma TypedNext(keys: seq<byte>, n: nat, cap: nat)
    requires n < |keys|
    ensures Typed(keys[..n + 1], cap) == Key(Typed(keys[..n], cap), keys[n], cap)
    ensures Echo(keys[..n + 1], cap) == Echo(keys[..n], cap) + EchoKey(Typed(keys[..n], cap), keys[n], cap)
  {
    assert keys[..n + 1][..n] == keys[..n];
  }

  /** At every moment the terminal shows the prompt and the cells of what has been typed, and nothing else. */
  lemma {:induction false} EchoShows(row: Row, prompt: seq<byte>, keys: seq<byte>, cap: nat)
    requires Shows(row, prompt)
    ensures Shows(PutAll(row, Echo(keys, cap)), prompt + Shown(Typed(keys, cap)))
    decreases |keys|
  {
    hide Shows, Cells, Wipe, Put;
    if keys == [] {
      assert prompt + Shown(Typed(keys, cap)) == prompt;
    } else {
      var before, c := keys[..|keys| - 1], keys[|keys| - 1];
      EchoShows(row, prompt, before, cap);
      var text := Typed(before, cap);
      var now := PutAll(row, Echo(before, cap));
      PutAllConcat(row, Echo(before, cap), EchoKey(text, c, cap));
      KeyShows(now, prompt, text, c, cap);
    }
  }

  lemma {:induction false} KeyShows(row: Row, prompt: seq<byte>, text: seq<byte>, c: byte, cap: nat)
    requires Shows(row, prompt + Shown(text)) && |text| <= cap
    ensures Shows(PutAll(row, EchoKey(text, c, cap)), prompt + Shown(Key(text, c, cap)))
  {
    hide Shows, Cells, Wipe;
    if Rubs(c) && text != [] {
      var less, last := text[..|text| - 1], text[|text| - 1];
      assert prompt + Shown(text) == prompt + Shown(less) + Cells(last);
      WipeUndoes(row, prompt + Shown(less), last);
    } else if !Rubs(c) && |text| < cap {
      PutAfter(row, prompt + Shown(text), Cells(c));
      assert (text + [c])[..|text|] == text;
      assert prompt + Shown(text) + Cells(c) == prompt + Shown(text + [c]);
    } else {
      assert PutAll(row, [BEL]) == row;
    }
  }

  /** The line after one key more: backspace and DEL drop the last character, any other is added if it fits. */
  lemma {:induction false} KeyMeans(keys: seq<byte>, c: byte, cap: nat)
    ensures var t, u := Typed(keys, cap), Typed(keys + [c], cap);
            if c == 8 || c == 127 then u == if t == [] then [] else t[..|t| - 1]
            else u == if |t| < cap then t + [c] else t
  {
    hide Typed;
    OneMore(keys, c, cap);
  }

  lemma OneMore(keys: seq<byte>, c: byte, cap: nat)
    ensures Typed(keys + [c], cap) == Key(Typed(keys, cap), c, cap)
    ensures Echo(keys + [c], cap) == Echo(keys, cap) + EchoKey(Typed(keys, cap), c, cap)
  {
    assert (keys + [c])[..|keys|] == keys;
  }

  /** Its echo: the bell, the character or its code in hexadecimal, or what wipes out one or four cells. */
  lemma {:induction false} EchoMeans(keys: seq<byte>, c: byte, cap: nat)
    ensures var t := Typed(keys, cap);
            Echo(keys + [c], cap) == Echo(keys, cap) +
              if c == 8 || c == 127 then
                if t == [] then [7]
                else if 32 <= t[|t| - 1] < 127 then [8, 32, 8]
                else [8, 8, 8, 8, 32, 32, 32, 32, 8, 8, 8, 8]
              else if |t| >= cap then [7]
              else if 32 <= c < 127 then [c]
              else ['\\' as int, 'x' as int, HexLetter(c / 16), HexLetter(c % 16)]
  {
    hide Typed, Echo, HexDigit, HexLetter;
    SameDigit(c / 16);
    SameDigit(c % 16);
    OneMore(keys, c, cap);
  }

  /** A rubout takes back the key before it exactly when there was room for that key. */
  lemma {:induction false} RuboutUndoes(keys: seq<byte>, c: byte, rubout: byte, cap: nat)
    requires c != 8 && c != 127 && (rubout == 8 || rubout == 127)
    ensures Typed(keys + [c, rubout], cap) == Typed(keys, cap) <==> |Typed(keys, cap)| < cap || cap == 0
  {
    hide Typed;
    KeyMeans(keys, c, cap);
    KeyMeans(keys + [c], rubout, cap);
    NoRoom(cap);
    assert keys + [c] + [rubout] == keys + [c, rubout];
  }

  lemma NoRoom(cap: nat)
    ensures cap == 0 ==> forall keys :: Typed(keys, cap) == []
  {
  }

  /**
   * fd_readline(): reads the keys that come, until the line is ended, given up or the input is over.
   * `out` is what it writes, and `used` how many keys came before the end.
   */
  method FdReadline(keys: seq<byte>, b: array<byte>, bsz: nat) returns (r: int, out: seq<byte>, used: nat)
    requires 1 <= bsz <= b.Length
    modifies b
    ensures used <= |keys| && forall k | 0 <= k < used :: keys[k] != 3 && keys[k] != 13
    ensures used < |keys| ==> keys[used] == 3 || keys[used] == 13
    ensures out == Echo(keys[..used], bsz - 1)
    ensures r == if used < |keys| && keys[used] == 13 then |Typed(keys[..used], bsz - 1)| else -1
    ensures b[..|Typed(keys[..used], bsz - 1)|] == Typed(keys[..used], bsz - 1)
    ensures r >= 0 ==> b[r] == NUL
    ensures b[bsz..] == old(b[bsz..])
  {
    hide Typed, Echo, Wipe, Cells;
    var bp, bpe := 0, bsz - 1;
    assert Typed([], bpe) == [] && Echo([], bpe) == [] by { NothingTyped(bpe); }
    out, used := [], 0;
    while true
      invariant used <= |keys| && forall k | 0 <= k < used :: keys[k] != CTRL_C && keys[k] != CR
      invariant bp <= bpe && b[..bp] == Typed(keys[..used], bpe)
      invariant out == Echo(keys[..used], bpe)
      invariant b[bsz..] == old(b[bsz..])
      decreases |keys| - used
    {
      if used == |keys| { return -1, out, used; }
      var c := keys[used];
      TypedNext(keys, used, bpe);
      if Rubs(c) {
        if bp > 0 {
          bp := bp - 1;
          out := out + Wipe(b[bp]);
        } else {
          out := out + [BEL];
        }
      } else if c == CTRL_C {
        return -1, out, used;
      } else if c == CR {
        b[bp] := NUL;
        return bp, out, used;
      } else if bp < bpe {
        b[bp] := c;
        bp := bp + 1;
        out := out + Cells(c);
      } else {
        out := out + [BEL];
      }
      used := used + 1;
    }
  }

  // ---------------------------------------------------------------------
  // Writing all of a buffer
  // ---------------------------------------------------------------------

  /** What a write() does: it is interrupted, fails, or takes some bytes, at most all that it is offered. */
  datatype Answer = Interrupted | Failed | Took(n: nat)

  /** How many of `n` bytes get through; once the answers are used up, the rest is taken at once. */
  function Through(n: nat, answers: seq<Answer>): (r: nat)
    ensures r <= n
    decreases |answers|
  {
    if n == 0 then 0
    else if answers == [] then n
    else
      match answers[0]
      case Interrupted => Through(n, answers[1..])
      case Failed => 0
      case Took(k) => if k == 0 then 0 else if k >= n then n else k + Through(n - k, answers[1..])
  }

  predicate GivesUp(a: Answer) {
    a == Failed || a == Took(0)
  }

  /** Interruptions and partial writes lose nothing: the count is short only if a write has failed. */
  lemma {:induction false} ShortOnlyOnFailure(n: nat, answers: seq<Answer>)
    requires forall k | 0 <= k < |answers| :: !GivesUp(answers[k])
    ensures Through(n, answers) == n
    decreases |answers|
  {
    if n > 0 && answers != [] {
      match answers[0]
      case Interrupted => ShortOnlyOnFailure(n, answers[1..]);
      case Failed =>
      case Took(k) => if 0 < k < n { ShortOnlyOnFailure(n - k, answers[1..]); }
    }
  }

  function Sum(answers: seq<Answer>): nat {
    if answers == [] then 0 else (if answers[0].Took? then answers[0].n else 0) + Sum(answers[1..])
  }

  /** A failing write is the last one: what had been taken before it got through. */
  lemma {:induction false} StopsAtFailure(n: nat, answers: seq<Answer>, k: nat)
    requires k < |answers| && GivesUp(answers[k]) && forall j | 0 <= j < k :: !GivesUp(answers[j])
    ensures Through(n, answers) == if Sum(answers[..k]) < n then Sum(answers[..k]) else n
    decreases k
  {
    if k > 0 {
      var a, before, more := answers[0], answers[..k], answers[1..];
      assert before[0] == a && before[1..] == more[..k - 1] && more[k - 1] == answers[k];
      if n > 0 && !(a.Took? && a.n >= n) {
        StopsAtFailure(if a.Took? then n - a.n else n, more, k - 1);
      }
    }
  }

  /** writen_ni(): the bytes that got through are the first ones, as many as it says. */
  method WriteN(buff: seq<byte>, answers: seq<Answer>) returns (r: nat, sent: seq<byte>)
    ensures r == Through(|buff|, answers) && sent == buff[..r]
    ensures r < |buff| ==> exists k | 0 <= k < |answers| :: GivesUp(answers[k])
  {
    var nl: nat, p: nat, next: nat := |buff|, 0, 0;
    sent := [];
    while nl > 0
      invariant p + nl == |buff| && next <= |answers| && sent == buff[..p]
      invariant p + Through(nl, answers[next..]) == Through(|buff|, answers)
      decreases |answers| - next, nl
    {
      while next < |answers| && answers[next] == Interrupted
        invariant next <= |answers| && p + Through(nl, answers[next..]) == Through(|buff|, answers)
      {
        assert answers[next..][1..] == answers[next + 1..];
        next := next + 1;
      }
      if next == |answers| {
        sent, p, nl := sent + buff[p..], |buff|, 0;
      } else {
        var a := answers[next];
        assert answers[next..][1..] == answers[next + 1..];
        if GivesUp(a) { break; }
        var nw := if a.n < nl then a.n else nl;
        sent := sent + buff[p..p + nw];
        nl, p, next := nl - nw, p + nw, next + 1;
      }
    }
    r := |buff| - nl;
  }
}
