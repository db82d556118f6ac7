/** What ppcom is for: bytes that go in at the terminal come out at the port. */
module Transparency {
  import opened Bytes
  import opened CharMap
  import opened TtyQueue
  import opened MainLoop

  predicate NoCommands(acts: seq<Act>) {
    forall k | 0 <= k < |acts| :: acts[k].Offered?
  }

  /**
   * As long as no command is run, nothing is thrown away, and what was accepted after the init string
   * is all that was offered unless some of it was refused.
   */
  ghost predicate Clean(st: State, init: seq<byte>) {
    NoCommands(st.acts) ==>
      && init <= st.taken && |st.taken| <= |init| + |st.acts| && |st.acts| <= |st.typed|
      && (|st.taken| == |init| + |st.acts| ==> Offers(st.taken[|init|..]) == st.acts)
      && forall k | 0 <= k < |st.parts| :: st.parts[k].Sent?
  }

  /** The control socket is silent. */
  predicate NoLines(evs: seq<Event>) {
    forall k | 0 <= k < |evs| :: evs[k].Ready? ==> evs[k].ctl.NoLine?
  }

  /** A byte that was just added to what is offered. */
  lemma {:induction false} OfferClean(cfg: Config, st: State, init: seq<byte>, c: byte, mem: nat)
    requires st.acts != [] && st.acts[|st.acts| - 1] == Offered(c) && st.typed != []
    requires Clean(st.(acts := st.acts[..|st.acts| - 1], typed := st.typed[..|st.typed| - 1]), init)
    ensures Clean(Offer(cfg, st, c, mem), init)
  {
    hide Push;
    var n := Push(st.q, [c], cfg.omap, cfg.cap, mem).n;
    var before := st.acts[..|st.acts| - 1];
    if NoCommands(st.acts) {
      assert NoCommands(before);
      if n == 1 && |st.taken| == |init| + |before| {
        var since := st.taken[|init|..];
        assert [c][..1] == [c] && (st.taken + [c])[|init|..] == since + [c];
        assert Offers(since + [c]) == Offers(since) + [Offered(c)];
        assert st.acts == before + [Offered(c)];
      }
    }
  }

  /** What a key adds to what is offered and run. */
  lemma {:induction false} KeyActs(cfg: Config, st: State, k: Key)
    ensures var t := PressKey(cfg, st, k).st;
            && t.typed == st.typed + [k.c]
            && t.acts == st.acts + if st.mode == Command && k.c != cfg.escape then [Executed(k.c)]
                                   else if st.mode == Command || cfg.noescape || k.c != cfg.escape then [Offered(k.c)]
                                   else []
  {
    hide OfferAll, DoCommand;
    var st1 := st.(typed := st.typed + [k.c]);
    NothingTyped(cfg, st1.(acts := st.acts + [Offered(k.c)]), k);
    NothingTyped(cfg, st1.(acts := st.acts + [Offered(k.c)], mode := Transparent), k);
    NothingTyped(cfg, st1.(acts := st.acts + [Executed(k.c)]), k);
  }

  lemma NothingTyped(cfg: Config, st: State, k: Key)
    ensures var t := OfferAll(cfg, st, [k.c], k.env.mem); t.typed == st.typed && t.acts == st.acts
    ensures var t := DoCommand(cfg, st, k.c, k.env); t.typed == st.typed && t.acts == st.acts
  {
    hide Push;
  }

  lemma {:induction false} PressKeyClean(cfg: Config, st: State, init: seq<byte>, k: Key)
    requires Clean(st, init)
    ensures Clean(PressKey(cfg, st, k).st, init)
  {
    hide Push, DoCommand;
    KeyActs(cfg, st, k);
    var typed := st.typed + [k.c];
    var offered := st.acts + [Offered(k.c)];
    assert typed[..|st.typed|] == st.typed && offered[..|st.acts|] == st.acts;
    if st.mode == Command && k.c == cfg.escape {
      OfferClean(cfg, st.(typed := typed, acts := offered, mode := Transparent), init, k.c, k.env.mem);
    } else if st.mode == Command {
      assert PressKey(cfg, st, k).st.acts[|st.acts|] == Executed(k.c);
    } else if cfg.noescape || k.c != cfg.escape {
      OfferClean(cfg, st.(typed := typed, acts := offered), init, k.c, k.env.mem);
    }
  }

  lemma {:induction false} PressKeysClean(cfg: Config, st: State, init: seq<byte>, keys: seq<Key>)
    requires Clean(st, init)
    ensures Clean(PressKeys(cfg, st, keys).st, init)
    decreases |keys|
  {
    hide Clean, PressKey;
    if keys != [] {
      PressKeyClean(cfg, st, init, keys[0]);
      PressKeysClean(cfg, PressKey(cfg, st, keys[0]).st, init, keys[1..]);
    }
  }

  lemma {:induction false} PassClean(cfg: Config, st: State, init: seq<byte>, ev: Event)
    requires Clean(st, init) && NoLines([ev])
    ensures Clean(Pass(cfg, st, ev).st, init)
  {
    hide Gather, WritePort, Clean;
    assert [ev][0] == ev;
    if ev.Ready? {
      GatherClean(cfg, st, init, ev.stdin, ev.tty);
      WriteClean(Gather(cfg, st, ev.stdin, ev.tty).st, init, ev.out);
    }
  }

  lemma GatherClean(cfg: Config, st: State, init: seq<byte>, stdin: Input, tty: PortInput)
    requires Clean(st, init)
    ensures Clean(Gather(cfg, st, stdin, tty).st, init)
  {
    hide PressKeys, NoCommands;
    if stdin.Data? {
      PressKeysClean(cfg, st, init, stdin.keys);
    }
  }

  lemma WriteClean(st: State, init: seq<byte>, out: PortOutput)
    requires Clean(st, init)
    ensures Clean(WritePort(st, out).st, init)
  {
    hide NoCommands;
  }

  lemma {:induction false} RunClean(cfg: Config, st: State, init: seq<byte>, evs: seq<Event>)
    requires Clean(st, init) && NoLines(evs)
    ensures Clean(Run(cfg, st, evs).st, init)
    decreases |evs|
  {
    hide Clean, Pass;
    if evs != [] {
      PassClean(cfg, st, init, evs[0]);
      RunClean(cfg, Pass(cfg, st, evs[0]).st, init, evs[1..]);
    }
  }

  lemma {:induction false} SentOnly(parts: seq<Part>)
    requires forall k | 0 <= k < |parts| :: parts[k].Sent?
    ensures Flat(parts) == AllSent(parts)
    decreases |parts|
  {
    if parts != [] { SentOnly(parts[..|parts| - 1]); }
  }

  lemma {:induction false} OffersInjective(a: seq<byte>, b: seq<byte>)
    requires Offers(a) == Offers(b)
    ensures a == b
  {
    assert |Offers(a)| == |a| && |Offers(b)| == |b|;
    forall k | 0 <= k < |a| ensures a[k] == b[k] {
      assert Offers(a)[k] == Offers(b)[k];
    }
  }

  lemma StartClean(cfg: Config, baud: int, init: seq<byte>, mem: nat)
    requires Enters(cfg, baud, init, mem)
    ensures Clean(Start(cfg, baud, init, mem), init)
    ensures Start(cfg, baud, init, mem).taken == init && Start(cfg, baud, init, mem).acts == []
  {
    hide Push;
    var n := Push(Blank(cfg, baud).q, init, cfg.omap, cfg.cap, mem).n;
    assert [] + init[..n] == init;
    assert init[|init|..] == [] && Offers([]) == [];
  }

  /**
   * After a run that ran no command, what the port got and what is still queued is the image of what
   * was accepted: the init string, and then what was typed unless some of it was refused.
   */
  lemma {:induction false} NothingLost(cfg: Config, baud: int, init: seq<byte>, mem: nat, evs: seq<Event>, s: seq<byte>)
    requires (cfg.cap == 0 || cfg.cap >= TTY_Q_SZ_MIN) && Enters(cfg, baud, init, mem)
    requires NoLines(evs) && Run(cfg, Start(cfg, baud, init, mem), evs).st.acts == Offers(s)
    ensures var st := Run(cfg, Start(cfg, baud, init, mem), evs).st;
            && init <= st.taken && |st.taken| <= |init + s|
            && st.port + st.q.bytes == Image(cfg.omap, st.taken)
            && (|st.taken| == |init + s| ==> st.taken == init + s)
  {
    hide Run, Start, Fits, Image, Flat, AllSent, SentSince;
    var st0 := Start(cfg, baud, init, mem);
    StartConserves(cfg, baud, init, mem);
    StartClean(cfg, baud, init, mem);
    RunConserves(cfg, st0, evs);
    RunClean(cfg, st0, init, evs);
    var st := Run(cfg, st0, evs).st;
    assert NoCommands(Offers(s)) && |Offers(s)| == |s|;
    SentOnly(st.parts);
    if |st.taken| == |init| + |s| {
      OffersInjective(st.taken[|init|..], s);
      assert st.taken == init + st.taken[|init|..];
    }
  }

  /** All of it has been written when the program leaves because its input has ended or is idle. */
  ghost predicate Arrived(cfg: Config, r: Result, s: seq<byte>) {
    && r.st.port + r.st.q.bytes == Image(cfg.omap, s)
    && (r.Exited? && (r.why == LE_STDIN || r.why == LE_IDLE) ==> r.st.port == Image(cfg.omap, s))
  }

  lemma {:induction false} ArrivedWhole(cfg: Config, st0: State, evs: seq<Event>, s: seq<byte>)
    requires Conserved(cfg, st0)
    requires var st := Run(cfg, st0, evs).st; st.port + st.q.bytes == Image(cfg.omap, s)
    ensures Arrived(cfg, Run(cfg, st0, evs), s)
  {
    hide Run, Image;
    var r := Run(cfg, st0, evs);
    IdleExits(cfg, st0, evs);
    if r.st.q.bytes == [] { assert r.st.port + [] == r.st.port; }
  }

  /**
   * A stream typed with every escape byte doubled, however it is read, however the port takes it: if
   * the queue refused nothing, the port has been given the image of the init string and the stream,
   * but for what is queued; and all of it, when the program leaves because its input has ended or is
   * idle.
   */
  lemma {:induction false} EscapedStreamArrives(cfg: Config, baud: int, init: seq<byte>, mem: nat, evs: seq<Event>,
                                                s: seq<byte>)
    requires (cfg.cap == 0 || cfg.cap >= TTY_Q_SZ_MIN) && Enters(cfg, baud, init, mem)
    requires NoLines(evs) && !cfg.noescape
    requires Run(cfg, Start(cfg, baud, init, mem), evs).st.typed == Doubled(cfg.escape, s)
    ensures var r := Run(cfg, Start(cfg, baud, init, mem), evs);
            |r.st.taken| == |init + s| ==> Arrived(cfg, r, init + s)
  {
    hide Run, Start, Arrived, Conserved;
    var st0 := Start(cfg, baud, init, mem);
    StartInStep(cfg, baud, init, mem);
    RunInStep(cfg, st0, evs);
    DoubledIsTransparent(cfg, s);
    NothingLost(cfg, baud, init, mem, evs, s);
    StartConserves(cfg, baud, init, mem);
    if |Run(cfg, st0, evs).st.taken| == |init + s| { ArrivedWhole(cfg, st0, evs, init + s); }
  }

  /** The same for any stream, when there is no escape character. */
  lemma {:induction false} PlainStreamArrives(cfg: Config, baud: int, init: seq<byte>, mem: nat, evs: seq<Event>)
    requires (cfg.cap == 0 || cfg.cap >= TTY_Q_SZ_MIN) && Enters(cfg, baud, init, mem)
    requires NoLines(evs) && cfg.noescape
    ensures var r := Run(cfg, Start(cfg, baud, init, mem), evs);
            |r.st.taken| == |init + r.st.typed| ==> Arrived(cfg, r, init + r.st.typed)
  {
    hide Run, Start, Arrived, Conserved;
    var st0 := Start(cfg, baud, init, mem);
    var s := Run(cfg, st0, evs).st.typed;
    StartInStep(cfg, baud, init, mem);
    RunInStep(cfg, st0, evs);
    NoEscapeIsTransparent(cfg, s);
    NothingLost(cfg, baud, init, mem, evs, s);
    StartConserves(cfg, baud, init, mem);
    if |Run(cfg, st0, evs).st.taken| == |init + s| { ArrivedWhole(cfg, st0, evs, init + s); }
  }

  // ---------------------------------------------------------------------
  // When the queue refuses nothing
  // ---------------------------------------------------------------------

  lemma {:induction false} ImageLength(flags: Mapping, s: seq<byte>)
    ensures |Image(flags, s)| <= M_MAXMAP * |s|
    decreases |s|
  {
    hide DoMap;
    if s != [] { ImageLength(flags, s[1..]); }
  }

  /** Room for a queue of `n` bytes, and for its double, of memory and below the limit, if there is one. */
  predicate Room(cap: nat, mem: nat, n: nat) {
    mem >= 2 * n && (cap == 0 || cap >= 2 * n)
  }

  /** A byte is accepted if, mapped, it fits beside what is queued and there is room for that, and adds its image. */
  lemma {:induction false} OfferTaken(q: LiveQueue, c: byte, omap: Mapping, cap: nat, mem: nat)
    requires Fits(q, cap) && Room(cap, mem, |q.bytes| + M_MAXMAP)
    ensures var r := Push(q, [c], omap, cap, mem); r.n == 1 && |r.q.bytes| <= |q.bytes| + M_MAXMAP
  {
    hide Push, IsSize, DoMap;
    PushAppends(q, [c], omap, cap, mem);
    var r := Push(q, [c], omap, cap, mem);
    NoImage(omap);
    ImageOne(omap, c);
    assert [c][..0] == [] && [c][..1] == [c];
    assert r.n == 0 ==> |r.q.bytes| == |q.bytes|;
  }

  ghost predicate Full(st: State, init: seq<byte>) {
    NoCommands(st.acts) ==> |st.taken| == |init| + |st.acts|
  }

  /** As long as no command is run, nothing has been refused, and at most `n` bytes are queued. */
  ghost predicate Steady(cfg: Config, st: State, init: seq<byte>, n: nat, writeSz: nat) {
    && Conserved(cfg, st) && Clean(st, init) && Full(st, init)
    && (NoCommands(st.acts) ==> |st.q.bytes| <= n && st.writeSz == writeSz)
  }

  lemma {:induction false} QueueBound(cfg: Config, st: State, init: seq<byte>)
    requires Conserved(cfg, st) && Clean(st, init) && NoCommands(st.acts)
    ensures |st.q.bytes| <= M_MAXMAP * (|init| + |st.typed|)
  {
    hide Image, Flat, Fits, AllSent, SentSince;
    ImageLength(cfg.omap, st.taken);
    assert |Flat(st.parts) + st.q.bytes| <= M_MAXMAP * |st.taken|;
  }

  lemma {:induction false} PressKeyFull(cfg: Config, st: State, init: seq<byte>, k: Key, n: nat, w: nat)
    requires Steady(cfg, st, init, n, w) && Room(cfg.cap, k.env.mem, n + M_MAXMAP)
    ensures Steady(cfg, PressKey(cfg, st, k).st, init, n + M_MAXMAP, w)
  {
    hide Push, Conserved, Clean, DoCommand;
    PressKeyConserves(cfg, st, k);
    PressKeyClean(cfg, st, init, k);
    KeyActs(cfg, st, k);
    var t := PressKey(cfg, st, k).st;
    if st.mode == Command && k.c != cfg.escape {
      assert t.acts[|st.acts|] == Executed(k.c);
    } else if NoCommands(t.acts) {
      assert forall i | 0 <= i < |st.acts| :: st.acts[i] == t.acts[i];
      FitsOf(cfg, st);
      OfferTaken(st.q, k.c, cfg.omap, cfg.cap, k.env.mem);
    }
  }

  lemma FitsOf(cfg: Config, st: State)
    requires Conserved(cfg, st)
    ensures Fits(st.q, cfg.cap)
  {
  }

  function KeysOf(ev: Event): nat {
    if ev.Ready? && ev.stdin.Data? then |ev.stdin.keys| else 0
  }

  /** For every key read in a pass there is room for a queue of `n` bytes. */
  predicate Roomy(cfg: Config, ev: Event, n: nat) {
    ev.Ready? && ev.stdin.Data? ==>
      forall k | 0 <= k < |ev.stdin.keys| :: Room(cfg.cap, ev.stdin.keys[k].env.mem, n)
  }

  /** At most how many bytes are queued after a pass, of at most `n` before it: keys add, the port takes. */
  function Backlog(ev: Event, n: nat, writeSz: nat): nat {
    var more := M_MAXMAP * KeysOf(ev);
    var took := if ev.Ready? && ev.out.Takes? then Min(ev.out.n, writeSz) else 0;
    if took <= n then n + more - took else more
  }

  /** The port keeps up with the keys, so that what is queued at any time has room. */
  predicate KeepsUp(cfg: Config, evs: seq<Event>, n: nat, writeSz: nat)
    decreases |evs|
  {
    evs != [] ==>
      && Roomy(cfg, evs[0], n + M_MAXMAP * KeysOf(evs[0]))
      && KeepsUp(cfg, evs[1..], Backlog(evs[0], n, writeSz), writeSz)
  }

  lemma {:induction false} PressKeysFull(cfg: Config, st: State, init: seq<byte>, keys: seq<Key>, n: nat, w: nat)
    requires Steady(cfg, st, init, n, w)
    requires forall k | 0 <= k < |keys| :: Room(cfg.cap, keys[k].env.mem, n + M_MAXMAP * |keys|)
    ensures Steady(cfg, PressKeys(cfg, st, keys).st, init, n + M_MAXMAP * |keys|, w)
    decreases |keys|
  {
    hide PressKey, Conserved, Clean, Full, NoCommands;
    if keys != [] {
      PressKeyFull(cfg, st, init, keys[0], n, w);
      var r := PressKey(cfg, st, keys[0]);
      if !r.exit { PressKeysFull(cfg, r.st, init, keys[1..], n + M_MAXMAP, w); }
    }
  }

  lemma {:induction false} GatherFull(cfg: Config, st: State, init: seq<byte>, ev: Event, n: nat, w: nat)
    requires Steady(cfg, st, init, n, w) && ev.Ready? && Roomy(cfg, ev, n + M_MAXMAP * KeysOf(ev))
    ensures Steady(cfg, Gather(cfg, st, ev.stdin, ev.tty).st, init, n + M_MAXMAP * KeysOf(ev), w)
  {
    hide PressKeys, Conserved, NoCommands, Clean;
    GatherConserves(cfg, st, ev.stdin, ev.tty);
    GatherClean(cfg, st, init, ev.stdin, ev.tty);
    if ev.stdin.Data? {
      PressKeysFull(cfg, st, init, ev.stdin.keys, n, w);
    }
  }

  lemma RoomyDown(cfg: Config, ev: Event, n: nat, m: nat)
    requires Roomy(cfg, ev, n) && m <= n
    ensures Roomy(cfg, ev, m)
  {
  }

  /** What a write leaves queued. */
  lemma WriteShrinks(st: State, out: PortOutput)
    ensures var r := WritePort(st, out);
            && r.st.acts == st.acts && r.st.taken == st.taken && r.st.writeSz == st.writeSz
            && |r.st.q.bytes| <= |st.q.bytes|
            && (r.Going? ==> out.Takes? && |r.st.q.bytes| == |st.q.bytes| - Min(out.n, Min(|st.q.bytes|, st.writeSz)))
  {
  }

  lemma {:induction false} PassFull(cfg: Config, st: State, init: seq<byte>, ev: Event, n: nat, w: nat)
    requires Steady(cfg, st, init, n, w) && NoLines([ev]) && Roomy(cfg, ev, n + M_MAXMAP * KeysOf(ev))
    ensures var r := Pass(cfg, st, ev); Full(r.st, init)
    ensures var r := Pass(cfg, st, ev); r.Going? ==> Steady(cfg, r.st, init, Backlog(ev, n, w), w)
  {
    hide Gather, WritePort, NoCommands, Conserved, Clean, Roomy;
    assert [ev][0] == ev;
    PassConserves(cfg, st, ev);
    PassClean(cfg, st, init, ev);
    if ev.Ready? {
      // What is queued, if it is known to be at most `n`: an empty queue is not written from.
      var q := if |st.q.bytes| <= n then |st.q.bytes| else n;
      var more := M_MAXMAP * KeysOf(ev);
      RoomyDown(cfg, ev, n + more, q + more);
      GatherFull(cfg, st, init, ev, q, w);
      GatherActs(cfg, st, ev.stdin, ev.tty);
      WriteShrinks(Gather(cfg, st, ev.stdin, ev.tty).st, ev.out);
    }
  }

  /** A command once run has been run for good. */
  lemma {:induction false} GatherActs(cfg: Config, st: State, stdin: Input, tty: PortInput)
    ensures NoCommands(Gather(cfg, st, stdin, tty).st.acts) ==> NoCommands(st.acts)
  {
    hide PressKeys, NoCommands;
    if stdin.Data? { PressKeysActs(cfg, st, stdin.keys); }
  }

  lemma {:induction false} PressKeysActs(cfg: Config, st: State, keys: seq<Key>)
    ensures NoCommands(PressKeys(cfg, st, keys).st.acts) ==> NoCommands(st.acts)
    decreases |keys|
  {
    hide PressKey;
    if keys != [] {
      var t := PressKey(cfg, st, keys[0]).st;
      KeyActs(cfg, st, keys[0]);
      PressKeysActs(cfg, t, keys[1..]);
      assert forall i | 0 <= i < |st.acts| :: st.acts[i] == t.acts[i];
    }
  }

  /** As long as the port keeps up, nothing is refused. */
  lemma {:induction false} RunFull(cfg: Config, st: State, init: seq<byte>, evs: seq<Event>, n: nat, w: nat)
    requires Steady(cfg, st, init, n, w) && NoLines(evs) && KeepsUp(cfg, evs, n, w)
    ensures Full(Run(cfg, st, evs).st, init)
    decreases |evs|
  {
    hide Conserved, Clean, NoCommands, Pass, Roomy, Backlog;
    if evs != [] {
      assert [evs[0]][0] == evs[0];
      PassFull(cfg, st, init, evs[0], n, w);
      var r := Pass(cfg, st, evs[0]);
      if r.Going? { RunFull(cfg, r.st, init, evs[1..], Backlog(evs[0], n, w), w); }
    }
  }

  /** The queue has room at any time of the run, of which the port takes as it goes. */
  predicate EnoughRoom(cfg: Config, baud: int, init: seq<byte>, evs: seq<Event>) {
    && (cfg.cap == 0 || cfg.cap >= TTY_Q_SZ_MIN)
    && KeepsUp(cfg, evs, M_MAXMAP * |init|, WriteSize(baud))
  }

  function KeysIn(evs: seq<Event>): nat {
    if evs == [] then 0 else KeysOf(evs[0]) + KeysIn(evs[1..])
  }

  /** A run has room when all of its keys together have, whatever the port takes. */
  lemma {:induction false} ShortRunKeepsUp(cfg: Config, evs: seq<Event>, n: nat, writeSz: nat)
    requires forall k | 0 <= k < |evs| :: Roomy(cfg, evs[k], n + M_MAXMAP * KeysIn(evs))
    ensures KeepsUp(cfg, evs, n, writeSz)
    decreases |evs|
  {
    hide Roomy;
    if evs != [] {
      var later := Backlog(evs[0], n, writeSz);
      RoomyDown(cfg, evs[0], n + M_MAXMAP * KeysIn(evs), n + M_MAXMAP * KeysOf(evs[0]));
      forall k | 0 <= k < |evs[1..]| ensures Roomy(cfg, evs[1..][k], later + M_MAXMAP * KeysIn(evs[1..])) {
        assert evs[1..][k] == evs[k + 1];
        RoomyDown(cfg, evs[k + 1], n + M_MAXMAP * KeysIn(evs), later + M_MAXMAP * KeysIn(evs[1..]));
      }
      ShortRunKeepsUp(cfg, evs[1..], later, writeSz);
    }
  }

  /** With room enough nothing is refused. */
  lemma {:induction false} AllTaken(cfg: Config, baud: int, init: seq<byte>, mem: nat, evs: seq<Event>)
    requires EnoughRoom(cfg, baud, init, evs) && NoLines(evs) && Enters(cfg, baud, init, mem)
    ensures Full(Run(cfg, Start(cfg, baud, init, mem), evs).st, init)
  {
    hide Run, Push, Conserved, Clean, KeepsUp;
    var st0 := Start(cfg, baud, init, mem);
    StartConserves(cfg, baud, init, mem);
    StartClean(cfg, baud, init, mem);
    StartInStep(cfg, baud, init, mem);
    QueueBound(cfg, st0, init);
    RunFull(cfg, st0, init, evs, M_MAXMAP * |init|, WriteSize(baud));
  }

  /**
   * With room for the queue below its limit and in memory, and no control input, nothing is refused:
   * the init string and a stream typed with its escape bytes doubled have arrived, mapped, when the
   * program leaves because its input has ended or is idle.
   */
  lemma {:induction false} Delivered(cfg: Config, baud: int, init: seq<byte>, mem: nat, evs: seq<Event>, s: seq<byte>)
    requires EnoughRoom(cfg, baud, init, evs) && NoLines(evs) && Enters(cfg, baud, init, mem) && !cfg.noescape
    requires Run(cfg, Start(cfg, baud, init, mem), evs).st.typed == Doubled(cfg.escape, s)
    ensures Arrived(cfg, Run(cfg, Start(cfg, baud, init, mem), evs), init + s)
  {
    hide Run, Start, Arrived, KeepsUp;
    AllTaken(cfg, baud, init, mem, evs);
    StartInStep(cfg, baud, init, mem);
    RunInStep(cfg, Start(cfg, baud, init, mem), evs);
    DoubledIsTransparent(cfg, s);
    EscapedStreamArrives(cfg, baud, init, mem, evs, s);
    assert |Offers(s)| == |s|;
  }

  /** So does any stream when there is no escape character. */
  lemma {:induction false} PlainDelivered(cfg: Config, baud: int, init: seq<byte>, mem: nat, evs: seq<Event>)
    requires EnoughRoom(cfg, baud, init, evs) && NoLines(evs) && Enters(cfg, baud, init, mem) && cfg.noescape
    ensures var r := Run(cfg, Start(cfg, baud, init, mem), evs); Arrived(cfg, r, init + r.st.typed)
  {
    hide Run, Start, Arrived, KeepsUp;
    var s := Run(cfg, Start(cfg, baud, init, mem), evs).st.typed;
    AllTaken(cfg, baud, init, mem, evs);
    StartInStep(cfg, baud, init, mem);
    RunInStep(cfg, Start(cfg, baud, init, mem), evs);
    NoEscapeIsTransparent(cfg, s);
    PlainStreamArrives(cfg, baud, init, mem, evs);
    assert |Offers(s)| == |s|;
  }
}
