/** The main loop of ppcom.cpp, as steps over whatever its environment does. */
module MainLoop {
  import opened Bytes
  import opened CharMap
  import opened TtyQueue

  /** The options the loop depends on. Local echo and the reset at exit can be changed while it runs. */
  datatype Config = Config(
    escape: byte, noescape: bool, omap: Mapping, emap: Mapping, cap: nat, exitAfter: int, exit: bool,
    lecho: bool, noreset: bool)

  datatype Mode = Transparent | Command

  /** What a command gets to know: memory, the rate typed in, the rate of the port, hex bytes typed in. */
  datatype Env = Env(mem: nat, newBaud: int, portBaud: int, hex: seq<byte>)

  /** A byte from the terminal, and what its environment has to say should it run a command. */
  datatype Key = Key(c: byte, env: Env)

  /** What the loop makes of the bytes typed: some are offered to the queue, some are commands. */
  datatype Act = Offered(c: byte) | Executed(c: byte)

  /** Where queued bytes went. */
  datatype Part = Sent(bytes: seq<byte>) | Flushed(bytes: seq<byte>)

  /** The variables of the program, then what has happened so far. */
  datatype State = State(
    mode: Mode, stdinClosed: bool, q: LiveQueue, writeSz: nat, lecho: bool, noreset: bool,
    typed: seq<byte>, acts: seq<Act>, taken: seq<byte>, mark: nat, parts: seq<Part>, port: seq<byte>)

  const TTY_WRITE_SZ_DIV := 10
  const TTY_WRITE_SZ_MIN := 8

  function WriteSize(baud: int): nat {
    if baud < TTY_WRITE_SZ_DIV * TTY_WRITE_SZ_MIN then TTY_WRITE_SZ_MIN else baud / TTY_WRITE_SZ_DIV
  }

  function Blank(cfg: Config, baud: int): State {
    State(Transparent, cfg.exit, Queue([], TTY_Q_SZ_MIN), WriteSize(baud), cfg.lecho, cfg.noreset,
          [], [], [], 0, [], [])
  }

  /** Where the loop starts: the queue is primed with the init string, if there is one to be sent. */
  function Start(cfg: Config, baud: int, init: seq<byte>, mem: nat): State {
    OfferAll(cfg, Blank(cfg, baud), init, mem)
  }

  /** An init string that does not fit is fatal before the loop is entered. */
  predicate Enters(cfg: Config, baud: int, init: seq<byte>, mem: nat) {
    |Start(cfg, baud, init, mem).taken| == |init|
  }

  // ---------------------------------------------------------------------
  // Keys
  // ---------------------------------------------------------------------

  function OfferAll(cfg: Config, st: State, s: seq<byte>, mem: nat): State {
    var r := Push(st.q, s, cfg.omap, cfg.cap, mem);
    st.(q := r.q, taken := st.taken + s[..r.n])
  }

  function Offer(cfg: Config, st: State, c: byte, mem: nat): State {
    OfferAll(cfg, st, [c], mem)
  }

  function Flush(st: State): State {
    st.(q := st.q.(bytes := []), parts := st.parts + [Flushed(st.q.bytes)], mark := |st.taken|)
  }

  predicate IsExit(c: byte) {
    c == 120 || c == 113  // x, q
  }

  /** u d: the rate; f y i j: flow control, parity, data bits, stop bits. */
  predicate IsFlush(c: byte) {
    c == 117 || c == 100 || c == 102 || c == 121 || c == 105 || c == 106
  }

  predicate SetsBaud(c: byte, env: Env) {
    c == 117 || c == 100 || (c == 98 && env.newBaud >= 0)
  }

  /** do_command(), for what it changes here. */
  function DoCommand(cfg: Config, st: State, c: byte, env: Env): State {
    if c == 113 then st.(noreset := true)
    else if SetsBaud(c, env) then Flush(st).(writeSz := WriteSize(env.portBaud))
    else if IsFlush(c) then Flush(st)
    else if c == 99 then st.(lecho := !st.lecho)
    else if c == 119 then OfferAll(cfg, st, env.hex, env.mem)
    else st
  }

  datatype Keyed = Keyed(st: State, exit: bool)

  function PressKey(cfg: Config, st0: State, k: Key): Keyed {
    var st := st0.(typed := st0.typed + [k.c]);
    if st.mode == Command then
      if k.c == cfg.escape then
        Keyed(Offer(cfg, st.(acts := st.acts + [Offered(k.c)], mode := Transparent), k.c, k.env.mem), false)
      else
        var done := DoCommand(cfg, st.(acts := st.acts + [Executed(k.c)]), k.c, k.env);
        if IsExit(k.c) then Keyed(done, true) else Keyed(done.(mode := Transparent), false)
    else if !cfg.noescape && k.c == cfg.escape then Keyed(st.(mode := Command), false)
    else Keyed(Offer(cfg, st.(acts := st.acts + [Offered(k.c)]), k.c, k.env.mem), false)
  }

  function PressKeys(cfg: Config, st: State, keys: seq<Key>): Keyed
    decreases |keys|
  {
    if keys == [] then Keyed(st, false)
    else
      var r := PressKey(cfg, st, keys[0]);
      if r.exit then r else PressKeys(cfg, r.st, keys[1..])
  }

  // ---------------------------------------------------------------------
  // One pass of the loop
  // ---------------------------------------------------------------------

  datatype Input = Nothing | Again | Eof | Fails | Data(keys: seq<Key>)
  datatype PortInput = PNothing | PAgain | PEof | PFails | PData(bytes: seq<byte>)
  datatype PortOutput = Blocked | WriteFails | Takes(n: nat)
  datatype Control = NoLine | Line(bytes: seq<byte>, mem: nat)

  /** What happens in a pass. Only what the loop waits for can make a difference to it. */
  datatype Event =
    | Signal
    | Interrupted
    | SelectFails
    | Timeout
    | Ready(stdin: Input, tty: PortInput, out: PortOutput, ctl: Control)

  datatype Reason = LE_CMD | LE_IDLE | LE_STDIN | LE_SIGNAL

  datatype Result =
    | Going(st: State)
    | Exited(why: Reason, st: State)
    | Fatal(st: State)

  function ReadStdin(cfg: Config, st: State, input: Input): Result {
    match input
    case Nothing | Again => Going(st)
    case Eof => Going(st.(stdinClosed := true))
    case Fails => Fatal(st)
    case Data(keys) =>
      var r := PressKeys(cfg, st, keys);
      if r.exit then Exited(LE_CMD, r.st) else Going(r.st)
  }

  function ReadPort(st: State, input: PortInput): Result {
    match input
    case PEof | PFails => Fatal(st)
    case _ => Going(st)
  }

  function Min(a: nat, b: nat): nat {
    if a < b then a else b
  }

  /** The port takes some of what is offered; taking nothing, even of nothing, counts as a failure. */
  function WritePort(st: State, out: PortOutput): Result {
    var sz := Min(|st.q.bytes|, st.writeSz);
    if !out.Takes? || Min(out.n, sz) == 0 then Fatal(st)
    else
      var n := Min(out.n, sz);
      var bytes := st.q.bytes[..n];
      Going(st.(q := st.q.(bytes := st.q.bytes[n..]), port := st.port + bytes, parts := st.parts + [Sent(bytes)]))
  }

  /** What is pushed of a control line: up to a NUL, and no further than through a line end. */
  function CtlBytes(bytes: seq<byte>): seq<byte> {
    if bytes == [] || bytes[0] == NUL then []
    else if bytes[0] == LF || bytes[0] == CR then [bytes[0]]
    else [bytes[0]] + CtlBytes(bytes[1..])
  }

  function OfferEach(cfg: Config, st: State, s: seq<byte>, mem: nat): State
    decreases |s|
  {
    if s == [] then st else OfferEach(cfg, Offer(cfg, st, s[0], mem), s[1..], mem)
  }

  function ReadCtl(cfg: Config, st: State, ctl: Control): State {
    match ctl
    case NoLine => st
    case Line(bytes, mem) => OfferEach(cfg, st, CtlBytes(bytes), mem)
  }

  /** The pass up to the point where the port is written to. */
  function Gather(cfg: Config, st: State, stdin: Input, tty: PortInput): Result {
    var r := if st.stdinClosed then Going(st) else ReadStdin(cfg, st, stdin);
    if !r.Going? || cfg.exit then r else ReadPort(r.st, tty)
  }

  predicate Finished(cfg: Config, st: State) {
    st.q.bytes == [] && cfg.exitAfter < 0 && st.stdinClosed
  }

  function Pass(cfg: Config, st: State, ev: Event): Result {
    if ev.Signal? then Exited(LE_SIGNAL, st)
    else if Finished(cfg, st) then Exited(LE_STDIN, st)
    else
      match ev
      case Signal | Interrupted => Going(st)
      case SelectFails => Fatal(st)
      case Timeout => if st.q.bytes == [] && cfg.exitAfter >= 0 then Exited(LE_IDLE, st) else Going(st)
      case Ready(stdin, tty, out, ctl) =>
        var r := Gather(cfg, st, stdin, tty);
        // Whether the port is writable was asked before anything was read.
        var w := if !r.Going? || st.q.bytes == [] || out.Blocked? then r else WritePort(r.st, out);
        if w.Going? then Going(ReadCtl(cfg, w.st, ctl)) else w
  }

  function Run(cfg: Config, st: State, evs: seq<Event>): Result
    decreases |evs|
  {
    if evs == [] then Going(st)
    else
      var r := Pass(cfg, st, evs[0]);
      if r.Going? then Run(cfg, r.st, evs[1..]) else r
  }

  // ---------------------------------------------------------------------
  // Conservation
  // ---------------------------------------------------------------------

  function Flat(parts: seq<Part>): seq<byte> {
    if parts == [] then [] else Flat(parts[..|parts| - 1]) + parts[|parts| - 1].bytes
  }

  function AllSent(parts: seq<Part>): seq<byte> {
    if parts == [] then []
    else AllSent(parts[..|parts| - 1]) + (if parts[|parts| - 1].Sent? then parts[|parts| - 1].bytes else [])
  }

  /** What was sent since the last flush. */
  function SentSince(parts: seq<Part>): seq<byte> {
    if parts == [] || parts[|parts| - 1].Flushed? then []
    else SentSince(parts[..|parts| - 1]) + parts[|parts| - 1].bytes
  }

  /**
   * Every byte accepted was mapped and queued once and in order: what was sent or flushed, then what
   * is still queued, is the image of what was accepted; and so since the last flush.
   */
  ghost predicate Conserved(cfg: Config, st: State) {
    && Fits(st.q, cfg.cap)
    && Flat(st.parts) + st.q.bytes == Image(cfg.omap, st.taken)
    && st.port == AllSent(st.parts)
    && st.mark <= |st.taken|
    && SentSince(st.parts) + st.q.bytes == Image(cfg.omap, st.taken[st.mark..])
    && st.writeSz >= TTY_WRITE_SZ_MIN
  }

  lemma {:induction false} AnotherPart(parts: seq<Part>, p: Part)
    ensures Flat(parts + [p]) == Flat(parts) + p.bytes
    ensures AllSent(parts + [p]) == AllSent(parts) + if p.Sent? then p.bytes else []
    ensures SentSince(parts + [p]) == if p.Sent? then SentSince(parts) + p.bytes else []
  {
    assert (parts + [p])[..|parts|] == parts;
  }

  lemma {:induction false} OfferAllConserves(cfg: Config, st: State, s: seq<byte>, mem: nat)
    requires Conserved(cfg, st)
    ensures Conserved(cfg, OfferAll(cfg, st, s, mem))
  {
    hide Push, Fits, Image, Flat, AllSent, SentSince;
    var r := Push(st.q, s, cfg.omap, cfg.cap, mem);
    var more := s[..r.n];
    PushAppends(st.q, s, cfg.omap, cfg.cap, mem);
    ImageConcat(cfg.omap, st.taken, more);
    ImageConcat(cfg.omap, st.taken[st.mark..], more);
    assert (st.taken + more)[st.mark..] == st.taken[st.mark..] + more;
    assert Flat(st.parts) + r.q.bytes == Flat(st.parts) + st.q.bytes + Image(cfg.omap, more);
    assert SentSince(st.parts) + r.q.bytes == SentSince(st.parts) + st.q.bytes + Image(cfg.omap, more);
  }

  lemma {:induction false} FlushConserves(cfg: Config, st: State)
    requires Conserved(cfg, st)
    ensures Conserved(cfg, Flush(st))
  {
    AnotherPart(st.parts, Flushed(st.q.bytes));
    var t := Flush(st);
    assert Flat(t.parts) + t.q.bytes == Flat(st.parts) + st.q.bytes;
    assert st.taken[|st.taken|..] == [];
    assert AllSent(t.parts) == AllSent(st.parts);
  }

  lemma {:induction false} PressKeyConserves(cfg: Config, st: State, k: Key)
    requires Conserved(cfg, st)
    ensures Conserved(cfg, PressKey(cfg, st, k).st)
  {
    hide Push, Fits, Image, Flat, AllSent, SentSince;
    var st1 := st.(typed := st.typed + [k.c]);
    if st1.mode == Command && k.c != cfg.escape {
      var st2 := st1.(acts := st1.acts + [Executed(k.c)]);
      FlushConserves(cfg, st2);
      OfferAllConserves(cfg, st2, k.env.hex, k.env.mem);
    } else {
      var st2 := st1.(acts := st1.acts + [Offered(k.c)]);
      OfferAllConserves(cfg, st2, [k.c], k.env.mem);
      OfferAllConserves(cfg, st2.(mode := Transparent), [k.c], k.env.mem);
    }
  }

  lemma {:induction false} PressKeysConserve(cfg: Config, st: State, keys: seq<Key>)
    requires Conserved(cfg, st)
    ensures Conserved(cfg, PressKeys(cfg, st, keys).st)
    decreases |keys|
  {
    hide Conserved, PressKey;
    if keys != [] {
      PressKeyConserves(cfg, st, keys[0]);
      PressKeysConserve(cfg, PressKey(cfg, st, keys[0]).st, keys[1..]);
    }
  }

  lemma {:induction false} WriteConserves(cfg: Config, st: State, out: PortOutput)
    requires Conserved(cfg, st)
    ensures Conserved(cfg, WritePort(st, out).st)
  {
    hide Image, Flat, AllSent, SentSince;
    var r := WritePort(st, out);
    if r.Going? {
      var bytes := st.q.bytes[..Min(out.n, Min(|st.q.bytes|, st.writeSz))];
      AnotherPart(st.parts, Sent(bytes));
      assert bytes + r.st.q.bytes == st.q.bytes;
      assert Flat(st.parts) + bytes + r.st.q.bytes == Flat(st.parts) + st.q.bytes;
      assert SentSince(st.parts) + bytes + r.st.q.bytes == SentSince(st.parts) + st.q.bytes;
    }
  }

  lemma {:induction false} OfferEachConserves(cfg: Config, st: State, s: seq<byte>, mem: nat)
    requires Conserved(cfg, st)
    ensures Conserved(cfg, OfferEach(cfg, st, s, mem))
    decreases |s|
  {
    hide Conserved;
    if s != [] {
      OfferAllConserves(cfg, st, [s[0]], mem);
      OfferEachConserves(cfg, Offer(cfg, st, s[0], mem), s[1..], mem);
    }
  }

  lemma {:induction false} GatherConserves(cfg: Config, st: State, stdin: Input, tty: PortInput)
    requires Conserved(cfg, st)
    ensures Conserved(cfg, Gather(cfg, st, stdin, tty).st)
  {
    hide Fits, Image, Flat, AllSent, SentSince, PressKeys;
    if stdin.Data? {
      PressKeysConserve(cfg, st, stdin.keys);
    }
  }

  lemma {:induction false} PassConserves(cfg: Config, st: State, ev: Event)
    requires Conserved(cfg, st)
    ensures Conserved(cfg, Pass(cfg, st, ev).st)
  {
    hide Conserved, Gather, WritePort, CtlBytes;
    if ev.Ready? {
      GatherConserves(cfg, st, ev.stdin, ev.tty);
      var r := Gather(cfg, st, ev.stdin, ev.tty);
      WriteConserves(cfg, r.st, ev.out);
      if ev.ctl.Line? {
        OfferEachConserves(cfg, r.st, CtlBytes(ev.ctl.bytes), ev.ctl.mem);
        OfferEachConserves(cfg, WritePort(r.st, ev.out).st, CtlBytes(ev.ctl.bytes), ev.ctl.mem);
      }
    }
  }

  /** Conservation holds on every run, however it ends. */
  lemma {:induction false} RunConserves(cfg: Config, st: State, evs: seq<Event>)
    requires Conserved(cfg, st)
    ensures Conserved(cfg, Run(cfg, st, evs).st)
    decreases |evs|
  {
    hide Conserved, Pass;
    if evs != [] {
      PassConserves(cfg, st, evs[0]);
      RunConserves(cfg, Pass(cfg, st, evs[0]).st, evs[1..]);
    }
  }

  lemma {:induction false} StartConserves(cfg: Config, baud: int, init: seq<byte>, mem: nat)
    requires cfg.cap == 0 || cfg.cap >= TTY_Q_SZ_MIN
    ensures Conserved(cfg, Start(cfg, baud, init, mem))
  {
    hide Push;
    OfferAllConserves(cfg, Blank(cfg, baud), init, mem);
  }

  /** The idle exits happen with nothing left to write: what was accepted since the last flush was sent. */
  lemma {:induction false} IdleExits(cfg: Config, st: State, evs: seq<Event>)
    requires Conserved(cfg, st)
    ensures var r := Run(cfg, st, evs);
            r.Exited? && (r.why == LE_STDIN || r.why == LE_IDLE) ==>
              && r.st.q.bytes == []
              && Image(cfg.omap, r.st.taken) == Flat(r.st.parts)
              && r.st.mark <= |r.st.taken|
              && Image(cfg.omap, r.st.taken[r.st.mark..]) == SentSince(r.st.parts)
              && (r.why == LE_STDIN <==> cfg.exitAfter < 0)
              && (r.why == LE_STDIN ==> r.st.stdinClosed)
    decreases |evs|
  {
    hide Gather, WritePort, ReadCtl, Image, Flat, AllSent, SentSince;
    RunConserves(cfg, st, evs);
    if evs != [] {
      PassConserves(cfg, st, evs[0]);
      PassExits(cfg, st, evs[0]);
      var r := Pass(cfg, st, evs[0]);
      if r.Going? {
        IdleExits(cfg, r.st, evs[1..]);
      } else {
        assert Flat(r.st.parts) + [] == Flat(r.st.parts);
        assert SentSince(r.st.parts) + [] == SentSince(r.st.parts);
      }
    }
  }

  /** Reading and writing end a pass only by command or by failure. */
  lemma {:induction false} PassExits(cfg: Config, st: State, ev: Event)
    ensures var r := Pass(cfg, st, ev);
            r.Exited? ==> match r.why
                          case LE_CMD => ev.Ready? && ev.stdin.Data? && !st.stdinClosed
                          case LE_IDLE => ev.Timeout? && r.st == st && st.q.bytes == [] && cfg.exitAfter >= 0
                          case LE_STDIN => Finished(cfg, st) && r.st == st
                          case LE_SIGNAL => ev.Signal?
  {
    hide PressKeys, CtlBytes;
  }

  // ---------------------------------------------------------------------
  // The queue drains
  // ---------------------------------------------------------------------

  /** Nothing fails, nothing arrives over the control socket, and no signal comes. */
  predicate Quiet(ev: Event) {
    match ev
    case Signal | SelectFails => false
    case Interrupted | Timeout => true
    case Ready(_, tty, out, ctl) =>
      !tty.PEof? && !tty.PFails? && !out.WriteFails? && ctl.NoLine? && (out.Takes? ==> out.n > 0)
  }

  predicate Writes(ev: Event) {
    ev.Ready? && ev.out.Takes?
  }

  function CountWrites(evs: seq<Event>): nat {
    if evs == [] then 0 else (if Writes(evs[0]) then 1 else 0) + CountWrites(evs[1..])
  }

  lemma QuietGather(cfg: Config, st: State, stdin: Input, tty: PortInput)
    requires st.stdinClosed && !tty.PEof? && !tty.PFails?
    ensures Gather(cfg, st, stdin, tty) == Going(st)
  {
  }

  /** Once stdin is closed and there is no idle timeout, a pass that writes brings the exit nearer. */
  lemma {:induction false} QuietPass(cfg: Config, st: State, ev: Event)
    requires st.stdinClosed && cfg.exitAfter < 0 && st.writeSz >= TTY_WRITE_SZ_MIN && Quiet(ev)
    ensures var r := Pass(cfg, st, ev);
            if st.q.bytes == [] then r == Exited(LE_STDIN, st)
            else
              && r.Going? && r.st.stdinClosed && r.st.writeSz == st.writeSz
              && r.st.port + r.st.q.bytes == st.port + st.q.bytes
              && |r.st.q.bytes| <= |st.q.bytes| - (if Writes(ev) then 1 else 0)
  {
    hide Gather, CtlBytes, OfferEach, WritePort;
    if ev.Ready? {
      QuietGather(cfg, st, ev.stdin, ev.tty);
      if st.q.bytes != [] && ev.out.Takes? { QuietWrite(st, ev.out); }
    }
  }

  lemma QuietWrite(st: State, out: PortOutput)
    requires out.Takes? && out.n > 0 && st.q.bytes != [] && st.writeSz > 0
    ensures var r := WritePort(st, out);
            && r.Going? && r.st == st.(q := r.st.q, port := r.st.port, parts := r.st.parts)
            && r.st.port + r.st.q.bytes == st.port + st.q.bytes && |r.st.q.bytes| < |st.q.bytes|
  {
    var n := Min(out.n, Min(|st.q.bytes|, st.writeSz));
    assert st.q.bytes[..n] + st.q.bytes[n..] == st.q.bytes;
    assert st.port + st.q.bytes[..n] + st.q.bytes[n..] == st.port + st.q.bytes;
  }

  /** As many writes as there are bytes queued, and one more pass, force the exit with all of them written. */
  lemma {:induction false} Drains(cfg: Config, st: State, evs: seq<Event>)
    requires st.stdinClosed && cfg.exitAfter < 0 && st.writeSz >= TTY_WRITE_SZ_MIN
    requires forall k | 0 <= k < |evs| :: Quiet(evs[k])
    requires CountWrites(evs) > |st.q.bytes|
    ensures var r := Run(cfg, st, evs);
            r.Exited? && r.why == LE_STDIN && r.st.q.bytes == [] && r.st.port == st.port + st.q.bytes
    decreases |evs|
  {
    hide Pass;
    QuietPass(cfg, st, evs[0]);
    if st.q.bytes != [] {
      Drains(cfg, Pass(cfg, st, evs[0]).st, evs[1..]);
    } else {
      assert st.port + [] == st.port;
    }
  }

  // ---------------------------------------------------------------------
  // When a pass is fatal
  // ---------------------------------------------------------------------

  /** Nothing that a pass reads from or writes to fails. */
  predicate Healthy(ev: Event) {
    && ev.Ready? && !ev.stdin.Fails? && !ev.tty.PEof? && !ev.tty.PFails? && !ev.out.WriteFails?
    && (ev.out.Takes? ==> ev.out.n > 0)
  }

  /** Whether anything is queued after a command, from whether anything was before. */
  predicate PendingAfter(cfg: Config, queued: bool, c: byte, env: Env) {
    if SetsBaud(c, env) || IsFlush(c) then false
    else if c == 119 then queued || Image(cfg.omap, env.hex) != []
    else queued
  }

  /** Whether anything is queued after some keys, up to an exit key, from the mode and whether anything was before. */
  predicate Pending(cfg: Config, mode: Mode, queued: bool, keys: seq<Key>)
    decreases |keys|
  {
    if keys == [] then queued
    else
      var c, more := keys[0].c, keys[1..];
      if mode == Command && c != cfg.escape then
        if IsExit(c) then queued
        else Pending(cfg, Transparent, PendingAfter(cfg, queued, c, keys[0].env), more)
      else if mode == Transparent && !cfg.noescape && c == cfg.escape then Pending(cfg, Command, queued, more)
      else Pending(cfg, Transparent, queued || DoMap(cfg.omap, c) != [], more)
  }

  /** Whether an exit key is among the keys, in a place where it is a command. */
  predicate Leaves(cfg: Config, mode: Mode, keys: seq<Key>)
    decreases |keys|
  {
    keys != [] &&
      var c, more := keys[0].c, keys[1..];
      if mode == Command && c != cfg.escape then IsExit(c) || Leaves(cfg, Transparent, more)
      else Leaves(cfg, if mode == Transparent && !cfg.noescape && c == cfg.escape then Command else Transparent, more)
  }

  /** An empty queue refuses nothing: it has room for 256 bytes. */
  lemma {:induction false} OfferAllPending(cfg: Config, st: State, s: seq<byte>, mem: nat)
    requires Conserved(cfg, st)
    ensures OfferAll(cfg, st, s, mem).q.bytes != [] <==> st.q.bytes != [] || Image(cfg.omap, s) != []
  {
    hide Push, Flat, AllSent, SentSince, Image;
    PushAppends(st.q, s, cfg.omap, cfg.cap, mem);
    var r := Push(st.q, s, cfg.omap, cfg.cap, mem);
    ImageConcat(cfg.omap, s[..r.n], s[r.n..]);
    assert s[..r.n] + s[r.n..] == s;
    if r.q.bytes == [] && r.n < |s| {
      SizeAtLeast(r.q.sz);
    }
    if r.n == |s| { assert s[..r.n] == s; }
  }

  lemma SizeAtLeast(sz: nat)
    requires IsSize(sz)
    ensures sz >= TTY_Q_SZ_MIN
  {
  }

  lemma {:induction false} CommandPending(cfg: Config, st: State, c: byte, env: Env)
    requires Conserved(cfg, st)
    ensures DoCommand(cfg, st, c, env).q.bytes != [] <==>
            if IsExit(c) then st.q.bytes != [] else PendingAfter(cfg, st.q.bytes != [], c, env)
  {
    hide OfferAll, Conserved, Image;
    OfferAllPending(cfg, st, env.hex, env.mem);
  }

  lemma {:induction false} KeyPending(cfg: Config, st: State, k: Key)
    requires Conserved(cfg, st)
    ensures var r := PressKey(cfg, st, k);
            && (r.st.q.bytes != [] <==> Pending(cfg, st.mode, st.q.bytes != [], [k]))
            && (r.exit <==> Leaves(cfg, st.mode, [k]))
            && (!r.exit ==> r.st.mode == if st.mode == Transparent && !cfg.noescape && k.c == cfg.escape
                                         then Command else Transparent)
  {
    hide OfferAll, DoCommand, Conserved, Image, PendingAfter, DoMap;
    var typed := st.typed + [k.c];
    var offered := st.(typed := typed, acts := st.acts + [Offered(k.c)]);
    var ran := st.(typed := typed, acts := st.acts + [Executed(k.c)]);
    ConservedStays(cfg, st, offered);
    ConservedStays(cfg, st, offered.(mode := Transparent));
    ConservedStays(cfg, st, ran);
    ImageOne(cfg.omap, k.c);
    OfferAllPending(cfg, offered, [k.c], k.env.mem);
    OfferAllPending(cfg, offered.(mode := Transparent), [k.c], k.env.mem);
    CommandPending(cfg, ran, k.c, k.env);
    CommandKeepsMode(cfg, ran, k.c, k.env);
    CommandKeepsMode(cfg, offered, k.c, k.env);
    CommandKeepsMode(cfg, offered.(mode := Transparent), k.c, k.env);
    assert [k][1..] == [];
  }

  lemma ConservedStays(cfg: Config, st: State, t: State)
    requires Conserved(cfg, st) && t == st.(typed := t.typed, acts := t.acts, mode := t.mode)
    ensures Conserved(cfg, t)
  {
  }

  lemma CommandKeepsMode(cfg: Config, st: State, c: byte, env: Env)
    ensures DoCommand(cfg, st, c, env).mode == st.mode
    ensures OfferAll(cfg, st, [c], env.mem).mode == st.mode
  {
    hide Push;
  }

  lemma {:induction false} PendingStep(cfg: Config, mode: Mode, queued: bool, keys: seq<Key>)
    requires keys != []
    ensures var escapes := mode == Transparent && !cfg.noescape && keys[0].c == cfg.escape;
            var next := if escapes then Command else Transparent;
            var after := Pending(cfg, mode, queued, [keys[0]]);
            && (!Leaves(cfg, mode, [keys[0]]) ==>
                  && Pending(cfg, mode, queued, keys) == Pending(cfg, next, after, keys[1..])
                  && Leaves(cfg, mode, keys) == Leaves(cfg, next, keys[1..]))
            && (Leaves(cfg, mode, [keys[0]]) ==>
                  Leaves(cfg, mode, keys) && Pending(cfg, mode, queued, keys) == after)
  {
    hide PendingAfter, DoMap;
    assert [keys[0]][1..] == [];
    assert !Leaves(cfg, Transparent, []) && !Leaves(cfg, Command, []);
  }

  /** What is queued after some keys can be told beforehand. */
  lemma {:induction false} KeysPending(cfg: Config, st: State, keys: seq<Key>)
    requires Conserved(cfg, st)
    ensures var r := PressKeys(cfg, st, keys);
            && (r.st.q.bytes != [] <==> Pending(cfg, st.mode, st.q.bytes != [], keys))
            && (r.exit <==> Leaves(cfg, st.mode, keys))
    decreases |keys|
  {
    hide Conserved, PressKey;
    if keys != [] {
      var r := PressKey(cfg, st, keys[0]);
      KeyPending(cfg, st, keys[0]);
      PressKeyConserves(cfg, st, keys[0]);
      PendingStep(cfg, st.mode, st.q.bytes != [], keys);
      hide Pending, Leaves;
      if !r.exit { KeysPending(cfg, r.st, keys[1..]); }
    }
  }

  /** The only fatal write is one of nothing, the queue having been emptied by what was read. */
  lemma {:induction false} FatalWrite(cfg: Config, st: State, ev: Event)
    requires Conserved(cfg, st) && Healthy(ev)
    ensures var r := Gather(cfg, st, ev.stdin, ev.tty);
            Pass(cfg, st, ev).Fatal? <==> st.q.bytes != [] && Writes(ev) && r.Going? && r.st.q.bytes == []
  {
    GatherConserves(cfg, st, ev.stdin, ev.tty);
    HealthyGather(cfg, st, ev);
    hide Gather, Image, Flat, AllSent, SentSince, Fits, OfferEach, CtlBytes;
  }

  lemma HealthyGather(cfg: Config, st: State, ev: Event)
    requires Healthy(ev)
    ensures var r := Gather(cfg, st, ev.stdin, ev.tty);
            if st.stdinClosed || !ev.stdin.Data? then r.Going? && r.st.q == st.q
            else var pressed := PressKeys(cfg, st, ev.stdin.keys);
                 r == if pressed.exit then Exited(LE_CMD, pressed.st) else Going(pressed.st)
  {
    hide PressKeys;
  }

  /**
   * In an environment that does not fail, a pass ends fatally exactly when the port takes bytes that
   * were queued, and the keys read in that same pass flush the queue after which none of them queues
   * anything again, without leaving the program.
   */
  lemma {:induction false} FatalAfterFlush(cfg: Config, st: State, ev: Event)
    requires Conserved(cfg, st) && Healthy(ev)
    ensures Pass(cfg, st, ev).Fatal? <==>
            && st.q.bytes != [] && Writes(ev) && !st.stdinClosed && ev.stdin.Data?
            && !Pending(cfg, st.mode, true, ev.stdin.keys) && !Leaves(cfg, st.mode, ev.stdin.keys)
  {
    hide Conserved, Gather, Pass, PressKeys, Pending, Leaves;
    FatalWrite(cfg, st, ev);
    HealthyGather(cfg, st, ev);
    if ev.stdin.Data? { KeysPending(cfg, st, ev.stdin.keys); }
  }

  /** Keys none of which is for flushing never have this effect. */
  lemma {:induction false} NoFlushKeepsPending(cfg: Config, mode: Mode, keys: seq<Key>)
    requires forall k | 0 <= k < |keys| :: !IsFlush(keys[k].c) && !SetsBaud(keys[k].c, keys[k].env)
    ensures Pending(cfg, mode, true, keys)
    decreases |keys|
  {
    hide DoMap, Image;
    if keys != [] {
      var c := keys[0].c;
      var escapes := mode == Transparent && !cfg.noescape && c == cfg.escape;
      NoFlushKeepsPending(cfg, if escapes then Command else Transparent, keys[1..]);
    }
  }

  /** For instance: escape and then the flow control key, typed while the port is ready for more. */
  lemma {:induction false} FlowKeyIsFatal(cfg: Config, st: State, env: Env)
    requires st.mode == Transparent && !st.stdinClosed && !cfg.noescape && cfg.escape != 102 && st.q.bytes != []
    ensures Pass(cfg, st, Ready(Data([Key(cfg.escape, env), Key(102, env)]), PNothing, Takes(1), NoLine)).Fatal?
  {
    var keys := [Key(cfg.escape, env), Key(102, env)];
    var one := PressKey(cfg, st, keys[0]).st;
    assert keys[1..][0] == keys[1] && keys[1..][1..] == [];
    assert PressKeys(cfg, one, keys[1..]) == Keyed(PressKey(cfg, one, keys[1]).st, false);
    assert PressKeys(cfg, st, keys) == PressKeys(cfg, one, keys[1..]);
  }

  // ---------------------------------------------------------------------
  // The escape machine
  // ---------------------------------------------------------------------

  datatype Scanned = Scanned(acts: seq<Act>, mode: Mode, exit: bool)

  /** What a byte does to what the bytes before it came to; a finished scan stays as it is. */
  function ScanByte(cfg: Config, p: Scanned, c: byte): Scanned {
    if p.exit then p
    else if p.mode == Command then
      if c == cfg.escape then Scanned(p.acts + [Offered(c)], Transparent, false)
      else Scanned(p.acts + [Executed(c)], if IsExit(c) then Command else Transparent, IsExit(c))
    else if !cfg.noescape && c == cfg.escape then p.(mode := Command)
    else p.(acts := p.acts + [Offered(c)])
  }

  /** What a stream of bytes comes to. */
  function Scan(cfg: Config, s: seq<byte>): Scanned {
    if s == [] then Scanned([], Transparent, false) else ScanByte(cfg, Scan(cfg, s[..|s| - 1]), s[|s| - 1])
  }

  lemma ScanSnoc(cfg: Config, s: seq<byte>, c: byte)
    ensures Scan(cfg, s + [c]) == ScanByte(cfg, Scan(cfg, s), c)
  {
    assert (s + [c])[..|s|] == s;
  }

  /** The state agrees with the scan of the bytes typed so far. */
  predicate InStep(cfg: Config, st: State, exit: bool) {
    Scan(cfg, st.typed) == Scanned(st.acts, st.mode, exit)
  }

  lemma {:induction false} PressKeyInStep(cfg: Config, st: State, k: Key)
    requires InStep(cfg, st, false)
    ensures var r := PressKey(cfg, st, k); InStep(cfg, r.st, r.exit)
  {
    hide Push, Scan;
    ScanSnoc(cfg, st.typed, k.c);
  }

  lemma {:induction false} PressKeysInStep(cfg: Config, st: State, keys: seq<Key>)
    requires InStep(cfg, st, false)
    ensures var r := PressKeys(cfg, st, keys); InStep(cfg, r.st, r.exit)
    decreases |keys|
  {
    hide InStep, PressKey;
    if keys != [] {
      PressKeyInStep(cfg, st, keys[0]);
      var r := PressKey(cfg, st, keys[0]);
      if !r.exit {
        PressKeysInStep(cfg, r.st, keys[1..]);
      }
    }
  }

  lemma {:induction false} OfferEachInStep(cfg: Config, st: State, s: seq<byte>, mem: nat)
    ensures var t := OfferEach(cfg, st, s, mem);
            t.typed == st.typed && t.acts == st.acts && t.mode == st.mode
    decreases |s|
  {
    hide Push;
    if s != [] {
      OfferEachInStep(cfg, Offer(cfg, st, s[0], mem), s[1..], mem);
    }
  }

  lemma {:induction false} GatherInStep(cfg: Config, st: State, stdin: Input, tty: PortInput)
    requires InStep(cfg, st, false)
    ensures var r := Gather(cfg, st, stdin, tty); InStep(cfg, r.st, r.Exited?) && (r.Exited? ==> r.why == LE_CMD)
  {
    hide Scan, PressKeys;
    if stdin.Data? {
      PressKeysInStep(cfg, st, stdin.keys);
    }
  }

  lemma {:induction false} PassInStep(cfg: Config, st: State, ev: Event)
    requires InStep(cfg, st, false)
    ensures var r := Pass(cfg, st, ev); InStep(cfg, r.st, r.Exited? && r.why == LE_CMD)
  {
    hide Scan, PressKeys, CtlBytes, OfferEach, Gather;
    if ev.Ready? {
      GatherInStep(cfg, st, ev.stdin, ev.tty);
      if ev.ctl.Line? {
        var r := Gather(cfg, st, ev.stdin, ev.tty);
        OfferEachInStep(cfg, r.st, CtlBytes(ev.ctl.bytes), ev.ctl.mem);
        OfferEachInStep(cfg, WritePort(r.st, ev.out).st, CtlBytes(ev.ctl.bytes), ev.ctl.mem);
      }
    }
  }

  /** On every run the bytes offered and the commands run are those of the stream typed, however it was read. */
  lemma {:induction false} RunInStep(cfg: Config, st: State, evs: seq<Event>)
    requires InStep(cfg, st, false)
    ensures var r := Run(cfg, st, evs); InStep(cfg, r.st, r.Exited? && r.why == LE_CMD)
    decreases |evs|
  {
    hide InStep, Pass;
    if evs != [] {
      PassInStep(cfg, st, evs[0]);
      var r := Pass(cfg, st, evs[0]);
      if r.Going? {
        RunInStep(cfg, r.st, evs[1..]);
      }
    }
  }

  /** Two runs in which the same bytes were typed offered the same bytes and ran the same commands. */
  lemma {:induction false} ChunkingIsInvisible(cfg: Config, st1: State, st2: State, evs1: seq<Event>, evs2: seq<Event>)
    requires InStep(cfg, st1, false) && InStep(cfg, st2, false)
    requires Run(cfg, st1, evs1).st.typed == Run(cfg, st2, evs2).st.typed
    ensures Run(cfg, st1, evs1).st.acts == Run(cfg, st2, evs2).st.acts
    ensures Run(cfg, st1, evs1).st.mode == Run(cfg, st2, evs2).st.mode
  {
    hide Run;
    RunInStep(cfg, st1, evs1);
    RunInStep(cfg, st2, evs2);
  }

  /** At the start nothing has been typed, whatever the queue is primed with. */
  lemma StartInStep(cfg: Config, baud: int, init: seq<byte>, mem: nat)
    ensures InStep(cfg, Start(cfg, baud, init, mem), false) && Start(cfg, baud, init, mem).typed == []
  {
    hide Push;
  }

  /** A stream with every escape byte written twice. */
  function Doubled(escape: byte, s: seq<byte>): seq<byte> {
    if s == [] then []
    else
      var c := s[|s| - 1];
      Doubled(escape, s[..|s| - 1]) + (if c == escape then [c, c] else [c])
  }

  function Offers(s: seq<byte>): seq<Act> {
    seq(|s|, k requires 0 <= k < |s| => Offered(s[k]))
  }

  /** Such a stream offers exactly the original bytes and runs no command. */
  lemma {:induction false} DoubledIsTransparent(cfg: Config, s: seq<byte>)
    requires !cfg.noescape
    ensures Scan(cfg, Doubled(cfg.escape, s)) == Scanned(Offers(s), Transparent, false)
    decreases |s|
  {
    hide Scan;
    if s == [] {
      ScanNothing(cfg);
    } else {
      var c, before := s[|s| - 1], s[..|s| - 1];
      var d := Doubled(cfg.escape, before);
      DoubledIsTransparent(cfg, before);
      ScanSnoc(cfg, d, c);
      ScanSnoc(cfg, d + [c], c);
      assert d + [c] + [c] == d + [c, c];
      assert Offers(before) + [Offered(c)] == Offers(s);
    }
  }

  /** Without an escape character every byte is offered and no command is ever awaited. */
  lemma {:induction false} NoEscapeIsTransparent(cfg: Config, s: seq<byte>)
    requires cfg.noescape
    ensures Scan(cfg, s) == Scanned(Offers(s), Transparent, false)
    decreases |s|
  {
    hide Scan;
    if s == [] {
      ScanNothing(cfg);
    } else {
      var c, before := s[|s| - 1], s[..|s| - 1];
      NoEscapeIsTransparent(cfg, before);
      assert before + [c] == s;
      ScanSnoc(cfg, before, c);
      assert Offers(before) + [Offered(c)] == Offers(s);
    }
  }

  lemma ScanNothing(cfg: Config)
    ensures Scan(cfg, []) == Scanned([], Transparent, false) && Offers([]) == []
  {
  }
}
