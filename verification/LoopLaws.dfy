/** What the main loop does, pass by pass and key by key, in its own numbers and characters. */
module LoopLaws {
  import opened Bytes
  import opened CharMap
  import opened TtyQueue
  import opened MainLoop

  // ---------------------------------------------------------------------
  // How a pass ends
  // ---------------------------------------------------------------------

  /** Whether what a pass reads makes it leave for a command. */
  predicate TypedExit(cfg: Config, st: State, ev: Event) {
    ev.Ready? && !st.stdinClosed && ev.stdin.Data? && Leaves(cfg, st.mode, ev.stdin.keys)
  }

  /** Whether reading fails: standard input, or the port, which is not read with --exit. */
  predicate ReadFails(cfg: Config, st: State, ev: Event) {
    && ev.Ready?
    && ((!st.stdinClosed && ev.stdin.Fails?) || (!cfg.exit && (ev.tty.PEof? || ev.tty.PFails?)))
  }

  /** Whether anything is queued after what a pass reads. */
  predicate StillPending(cfg: Config, st: State, ev: Event) {
    if ev.Ready? && !st.stdinClosed && ev.stdin.Data?
    then Pending(cfg, st.mode, st.q.bytes != [], ev.stdin.keys) else st.q.bytes != []
  }

  /** Whether writing fails: the port is asked for nothing, takes nothing, or reports an error. */
  predicate WriteFailsToo(cfg: Config, st: State, ev: Event) {
    && ev.Ready? && st.q.bytes != [] && !ev.out.Blocked?
    && (ev.out.WriteFails? || ev.out.n == 0 || !StillPending(cfg, st, ev))
  }

  /** How a pass ends, in every case: each way to leave the loop and each failure has its exact condition. */
  lemma {:induction false} PassOutcome(cfg: Config, st: State, ev: Event)
    requires Conserved(cfg, st)
    ensures var r := Pass(cfg, st, ev);
            var ended := st.stdinClosed && st.q.bytes == [] && cfg.exitAfter < 0;
            if ev.Signal? then r == Exited(LE_SIGNAL, st)
            else if ended then r == Exited(LE_STDIN, st)
            else if ev.Timeout? && st.q.bytes == [] && cfg.exitAfter >= 0 then r == Exited(LE_IDLE, st)
            else if ev.SelectFails? then r.Fatal?
            else if TypedExit(cfg, st, ev) then r.Exited? && r.why == LE_CMD
            else if ReadFails(cfg, st, ev) || WriteFailsToo(cfg, st, ev) then r.Fatal?
            else r.Going? && (r.st.stdinClosed <==> st.stdinClosed || (ev.Ready? && ev.stdin.Eof?))
  {
    hide Gather, WritePort, ReadCtl, Conserved;
    if ev.Ready? {
      var r := Gather(cfg, st, ev.stdin, ev.tty);
      GatherOutcome(cfg, st, ev);
      GatherConserves(cfg, st, ev.stdin, ev.tty);
      WriteOutcome(cfg, r.st, ev.out);
      CtlKeeps(cfg, r.st, ev.ctl);
      CtlKeeps(cfg, WritePort(r.st, ev.out).st, ev.ctl);
    }
  }

  lemma {:induction false} GatherOutcome(cfg: Config, st: State, ev: Event)
    requires Conserved(cfg, st) && ev.Ready?
    ensures var r := Gather(cfg, st, ev.stdin, ev.tty);
            if TypedExit(cfg, st, ev) then r.Exited? && r.why == LE_CMD
            else if ReadFails(cfg, st, ev) then r.Fatal?
            else r.Going? && (r.st.stdinClosed <==> st.stdinClosed || ev.stdin.Eof?)
                 && (r.st.q.bytes != [] <==> StillPending(cfg, st, ev))
  {
    hide PressKeys, Conserved, Pending, Leaves;
    if ev.stdin.Data? {
      KeysPending(cfg, st, ev.stdin.keys);
      KeysKeepOpen(cfg, st, ev.stdin.keys);
    }
  }

  lemma {:induction false} KeysKeepOpen(cfg: Config, st: State, keys: seq<Key>)
    ensures PressKeys(cfg, st, keys).st.stdinClosed == st.stdinClosed
    decreases |keys|
  {
    hide Push;
    if keys != [] { KeysKeepOpen(cfg, PressKey(cfg, st, keys[0]).st, keys[1..]); }
  }

  lemma WriteOutcome(cfg: Config, st: State, out: PortOutput)
    requires Conserved(cfg, st)
    ensures var r := WritePort(st, out);
            && (r.Fatal? <==> !out.Takes? || out.n == 0 || st.q.bytes == [])
            && !r.Exited? && r.st.stdinClosed == st.stdinClosed
  {
    hide Fits, Image, Flat, AllSent, SentSince;
  }

  lemma {:induction false} CtlKeeps(cfg: Config, st: State, ctl: Control)
    ensures var t := ReadCtl(cfg, st, ctl); t == st.(q := t.q, taken := t.taken)
  {
    hide CtlBytes, OfferEach;
    if ctl.Line? { EachKeeps(cfg, st, CtlBytes(ctl.bytes), ctl.mem); }
  }

  lemma {:induction false} EachKeeps(cfg: Config, st: State, s: seq<byte>, mem: nat)
    ensures var t := OfferEach(cfg, st, s, mem); t == st.(q := t.q, taken := t.taken)
    decreases |s|
  {
    hide Push;
    if s != [] { EachKeeps(cfg, Offer(cfg, st, s[0], mem), s[1..], mem); }
  }

  lemma {:induction false} RunSplits(cfg: Config, st: State, before: seq<Event>, after: seq<Event>)
    ensures var r := Run(cfg, st, before);
            Run(cfg, st, before + after) == if r.Going? then Run(cfg, r.st, after) else r
    decreases |before|
  {
    hide Pass;
    if before == [] {
      assert before + after == after;
    } else {
      assert (before + after)[0] == before[0] && (before + after)[1..] == before[1..] + after;
      var r := Pass(cfg, st, before[0]);
      if r.Going? { RunSplits(cfg, r.st, before[1..], after); }
    }
  }

  /**
   * The end of standard input ends the program: whatever came before, once a pass has read it and has
   * not failed, and without an idle timeout, as many writes as there are bytes queued, and one more pass,
   * write all of them and leave.
   */
  lemma {:induction false} EndOfInputLeaves(cfg: Config, st: State, before: seq<Event>, end: Event, after: seq<Event>)
    requires Conserved(cfg, st) && cfg.exitAfter < 0
    requires Run(cfg, st, before).Going? && end.Ready? && end.stdin.Eof?
    requires Pass(cfg, Run(cfg, st, before).st, end).Going?
    requires forall k | 0 <= k < |after| :: Quiet(after[k])
    requires CountWrites(after) > |Pass(cfg, Run(cfg, st, before).st, end).st.q.bytes|
    ensures var r := Run(cfg, st, before + [end] + after);
            var last := Pass(cfg, Run(cfg, st, before).st, end).st;
            && r.Exited? && r.why == LE_STDIN
            && r.st.q.bytes == [] && r.st.port == last.port + last.q.bytes
  {
    hide Conserved, Run, Pass, Quiet, CountWrites;
    var st1 := Run(cfg, st, before).st;
    var st2 := Pass(cfg, st1, end).st;
    RunConserves(cfg, st, before);
    PassOutcome(cfg, st1, end);
    PassConserves(cfg, st1, end);
    EnoughToWrite(cfg, st2);
    Drains(cfg, st2, after);
    RunSplits(cfg, st, before, [end] + after);
    assert before + [end] + after == before + ([end] + after);
    RunOne(cfg, st1, end, after);
  }

  lemma EnoughToWrite(cfg: Config, st: State)
    requires Conserved(cfg, st)
    ensures st.writeSz >= TTY_WRITE_SZ_MIN
  {
  }

  lemma RunOne(cfg: Config, st: State, ev: Event, after: seq<Event>)
    requires Pass(cfg, st, ev).Going?
    ensures Run(cfg, st, [ev] + after) == Run(cfg, Pass(cfg, st, ev).st, after)
  {
    hide Pass;
    assert ([ev] + after)[1..] == after;
  }

  // ---------------------------------------------------------------------
  // What a pass writes, and what it takes from the control socket
  // ---------------------------------------------------------------------

  /** Where the loop starts before its queue is primed, and how much it offers the port at a time. */
  lemma StartsWith(cfg: Config, baud: int)
    ensures var st := Blank(cfg, baud);
            && st.mode == Transparent && st.q.bytes == [] && st.q.sz == 256 && st.port == []
            && st.stdinClosed == cfg.exit && st.lecho == cfg.lecho && st.noreset == cfg.noreset
            && (if baud < 80 then st.writeSz == 8 else 10 * st.writeSz <= baud < 10 * st.writeSz + 10)
  {
  }

  /** A pass that only writes: the first bytes of the queue go to the port, as many as it takes of what is offered. */
  lemma {:induction false} PassWrites(cfg: Config, st: State, n: nat)
    requires Conserved(cfg, st) && st.q.bytes != [] && n > 0
    ensures var r := Pass(cfg, st, Ready(Nothing, PNothing, Takes(n), NoLine));
            var m := |r.st.port| - |st.port|;
            && r.Going? && 0 < m <= |st.q.bytes|
            && m <= n && m <= st.writeSz && (m == n || m == st.writeSz || m == |st.q.bytes|)
            && r.st.port == st.port + st.q.bytes[..m] && r.st.q.bytes == st.q.bytes[m..]
            && r.st == st.(q := r.st.q, port := r.st.port, parts := st.parts + [Sent(st.q.bytes[..m])])
  {
    EnoughToWrite(cfg, st);
    hide Fits, Image, Flat, AllSent, SentSince;
  }

  /** What is pushed of a control line: all of it, a line end included, or what comes before a NUL. */
  lemma {:induction false} LineTaken(bytes: seq<byte>)
    ensures var n := |CtlBytes(bytes)|;
            && n <= |bytes| && CtlBytes(bytes) == bytes[..n]
            && (forall k | 0 <= k < n :: bytes[k] != 0)
            && (forall k | 0 <= k < n - 1 :: bytes[k] != 10 && bytes[k] != 13)
            && (n < |bytes| ==> bytes[n] == 0 || (n > 0 && (bytes[n - 1] == 10 || bytes[n - 1] == 13)))
    decreases |bytes|
  {
    if bytes != [] && bytes[0] != 0 && bytes[0] != 10 && bytes[0] != 13 { LineTaken(bytes[1..]); }
  }

  /** Such a line is queued whole, mapped, if there is room for it. */
  lemma {:induction false} LineQueued(cfg: Config, st: State, bytes: seq<byte>, mem: nat)
    requires Fits(st.q, cfg.cap)
    requires var n := |st.q.bytes| + 4 * |bytes|; mem >= 2 * n && (cfg.cap == 0 || cfg.cap >= 2 * n)
    ensures var s := CtlBytes(bytes);
            var t := ReadCtl(cfg, st, Line(bytes, mem));
            && t.q.bytes == st.q.bytes + Image(cfg.omap, s) && t == st.(q := t.q, taken := st.taken + s)
  {
    hide CtlBytes, OfferEach, Fits;
    LineTaken(bytes);
    EachQueued(cfg, st, CtlBytes(bytes), mem);
  }

  lemma {:induction false} EachQueued(cfg: Config, st: State, s: seq<byte>, mem: nat)
    requires Fits(st.q, cfg.cap)
    requires var n := |st.q.bytes| + 4 * |s|; mem >= 2 * n && (cfg.cap == 0 || cfg.cap >= 2 * n)
    ensures var t := OfferEach(cfg, st, s, mem);
            && t.q.bytes == st.q.bytes + Image(cfg.omap, s) && t == st.(q := t.q, taken := st.taken + s)
    decreases |s|
  {
    hide Push, IsSize, DoMap;
    if s != [] {
      var r := Push(st.q, [s[0]], cfg.omap, cfg.cap, mem);
      PushAppends(st.q, [s[0]], cfg.omap, cfg.cap, mem);
      assert [s[0]][..1] == [s[0]] && [s[0]][..0] == [];
      ImageOne(cfg.omap, s[0]);
      assert Image(cfg.omap, []) == [];
      EachQueued(cfg, Offer(cfg, st, s[0], mem), s[1..], mem);
      assert [s[0]] + s[1..] == s;
      assert st.taken + [s[0]] + s[1..] == st.taken + s;
    } else {
      assert st.taken + s == st.taken;
    }
  }

  // ---------------------------------------------------------------------
  // Commands
  // ---------------------------------------------------------------------

  /** What each command key, typed after the escape character, does; the keys are spelled out. */
  lemma {:induction false} CommandEffects(cfg: Config, st: State, k: Key)
    requires st.mode == Command && k.c != cfg.escape
    ensures var r := PressKey(cfg, st, k);
            var t := r.st;
            var c, e := k.c, k.env;
            var baud := c as char == 'u' || c as char == 'd' || (c as char == 'b' && e.newBaud >= 0);
            && t.acts == st.acts + [Executed(c)] && t.typed == st.typed + [c]
            && t.port == st.port && t.stdinClosed == st.stdinClosed
            && (r.exit <==> c as char in "xq")
            && t.mode == (if r.exit then Command else Transparent)
            && t.noreset == (st.noreset || c as char == 'q')
            && t.lecho == (if c as char == 'c' then !st.lecho else st.lecho)
            && (if !baud then t.writeSz == st.writeSz
                else if e.portBaud < 80 then t.writeSz == 8
                else 10 * t.writeSz <= e.portBaud < 10 * t.writeSz + 10)
            && (if baud || c as char in "fyij" then
                  t.q == st.q.(bytes := []) && t.taken == st.taken && t.parts == st.parts + [Flushed(st.q.bytes)]
                else if c as char == 'w' then
                  var p := Push(st.q, e.hex, cfg.omap, cfg.cap, e.mem);
                  t.q == p.q && t.taken == st.taken + e.hex[..p.n] && t.parts == st.parts
                else t.q == st.q && t.taken == st.taken && t.parts == st.parts)
  {
    hide Push;
  }

  // ---------------------------------------------------------------------
  // Any stream
  // ---------------------------------------------------------------------

  /** What can be typed: a byte other than the escape character, that one twice, or a command after it. */
  datatype Typed = Plain(c: byte) | Twice | Runs(c: byte)

  predicate Fine(escape: byte, t: Typed) {
    match t
    case Plain(c) => c != escape
    case Twice => true
    case Runs(c) => c != escape && c as char !in "xq"
  }

  function BytesOf(escape: byte, t: Typed): seq<byte> {
    match t
    case Plain(c) => [c]
    case Twice => [escape, escape]
    case Runs(c) => [escape, c]
  }

  function ActOf(escape: byte, t: Typed): Act {
    match t
    case Plain(c) => Offered(c)
    case Twice => Offered(escape)
    case Runs(c) => Executed(c)
  }

  ghost predicate AllFine(escape: byte, ts: seq<Typed>) {
    forall k | 0 <= k < |ts| :: Fine(escape, ts[k])
  }

  function Stream(escape: byte, ts: seq<Typed>): seq<byte> {
    if ts == [] then [] else Stream(escape, ts[..|ts| - 1]) + BytesOf(escape, ts[|ts| - 1])
  }

  function Acts(escape: byte, ts: seq<Typed>): seq<Act> {
    seq(|ts|, k requires 0 <= k < |ts| => ActOf(escape, ts[k]))
  }

  /** What such a stream comes to, also with an escape character after it, and a command that leaves. */
  lemma {:induction false} StreamMeans(cfg: Config, ts: seq<Typed>)
    requires !cfg.noescape && AllFine(cfg.escape, ts)
    ensures var s, acts := Stream(cfg.escape, ts), Acts(cfg.escape, ts);
            && Scan(cfg, s) == Scanned(acts, Transparent, false)
            && Scan(cfg, s + [cfg.escape]) == Scanned(acts, Command, false)
            && forall c: byte | c != cfg.escape && c as char in "xq" ::
                 Scan(cfg, s + [cfg.escape] + [c]) == Scanned(acts + [Executed(c)], Command, true)
    decreases |ts|
  {
    hide Scan;
    var s, acts := Stream(cfg.escape, ts), Acts(cfg.escape, ts);
    if ts == [] {
      ScanNothing(cfg);
    } else {
      var last, before := ts[|ts| - 1], ts[..|ts| - 1];
      StreamMeans(cfg, before);
      assert Fine(cfg.escape, last);
      var d := Stream(cfg.escape, before);
      assert acts == Acts(cfg.escape, before) + [ActOf(cfg.escape, last)];
      match last
      case Plain(c) => ScanSnoc(cfg, d, c);
      case Twice => ScanSnoc(cfg, d + [cfg.escape], cfg.escape);
        assert s == d + [cfg.escape] + [cfg.escape];
      case Runs(c) => ScanSnoc(cfg, d + [cfg.escape], c);
        assert s == d + [cfg.escape] + [c];
    }
    ScanSnoc(cfg, s, cfg.escape);
    forall c: byte | c != cfg.escape && c as char in "xq"
      ensures Scan(cfg, s + [cfg.escape] + [c]) == Scanned(acts + [Executed(c)], Command, true)
    {
      ScanSnoc(cfg, s + [cfg.escape], c);
    }
  }

  /** What may be left: nothing, an escape character, or a command that leaves and whatever follows it. */
  predicate Unread(escape: byte, rest: seq<byte>) {
    || rest == [] || rest == [escape]
    || (|rest| > 1 && rest[0] == escape && rest[1] != escape && rest[1] as char in "xq")
  }

  /** Every stream is one of these, up to a command that leaves. */
  lemma {:induction false} EveryStream(cfg: Config, s: seq<byte>) returns (ts: seq<Typed>, rest: seq<byte>)
    requires !cfg.noescape
    ensures AllFine(cfg.escape, ts) && Unread(cfg.escape, rest) && s == Stream(cfg.escape, ts) + rest
    decreases |s|
  {
    hide AllFine, Unread, Stream;
    if s == [] {
      ts, rest := [], [];
      NoStream(cfg.escape);
    } else {
      var c, before := s[|s| - 1], s[..|s| - 1];
      ts, rest := EveryStream(cfg, before);
      assert s == before + [c];
      ts, rest := OneByteMore(cfg.escape, ts, rest, c);
    }
  }

  lemma NoStream(escape: byte)
    ensures AllFine(escape, []) && Unread(escape, []) && Stream(escape, []) == []
  {
  }

  lemma {:induction false} OneByteMore(escape: byte, ts: seq<Typed>, rest: seq<byte>, c: byte)
    returns (us: seq<Typed>, more: seq<byte>)
    requires AllFine(escape, ts) && Unread(escape, rest)
    ensures AllFine(escape, us) && Unread(escape, more) && Stream(escape, us) + more == Stream(escape, ts) + rest + [c]
  {
    hide AllFine, Stream;
    var t := if rest == [] then Plain(c) else if c == escape then Twice else Runs(c);
    if |rest| <= 1 && Fine(escape, t) {
      Longer(escape, ts, t);
      us, more := ts + [t], [];
      assert BytesOf(escape, t) == rest + [c];
    } else {
      us, more := ts, rest + [c];
    }
  }

  lemma Longer(escape: byte, ts: seq<Typed>, t: Typed)
    requires AllFine(escape, ts) && Fine(escape, t)
    ensures AllFine(escape, ts + [t]) && Stream(escape, ts + [t]) == Stream(escape, ts) + BytesOf(escape, t)
  {
    assert (ts + [t])[..|ts|] == ts;
  }
}
