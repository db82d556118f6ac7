/** The table of managed terminals in term.cpp, and the devices behind it. */
module TermTable {
  import opened Termios

  const MAX_TERMS := 16

  datatype Error =
    | EOK | ENOINIT | EFULL | ENOTFOUND | EEXISTS | EATEXIT | EISATTY | EFLUSH | EGETATTR | ESETATTR
    | EBAUD | ESETOSPEED | EPARITY | EDATABITS | ESTOPBITS | EFLOW | EDRAIN | EGETSPEED

  /** A slot of the table; `captured` and `hup` record what term_add() found and the last apply set. */
  datatype Slot = Slot(fd: int, orig: Termios, curr: Termios, next: Termios, captured: Termios, hup: bool)

  /**
   * The table and the devices. `attrs` holds the settings of the devices that are terminals, `store`
   * is what a device makes of the settings it is given, and `script` says which of the coming calls
   * succeed: when it is used up, all do.
   */
  datatype World = World(init: bool, slots: seq<Slot>, attrs: map<int, Termios>, script: seq<bool>,
                         store: Termios -> Termios)

  /** The world after a library call and the error it reports, EOK for none. */
  datatype Done = Done(w: World, err: Error)

  // ---------------------------------------------------------------------
  // Devices
  // ---------------------------------------------------------------------

  function Willing(w: World): bool {
    w.script == [] || w.script[0]
  }

  function Asked(w: World): World {
    w.(script := if w.script == [] then [] else w.script[1..])
  }

  datatype Answer = Answer(w: World, ok: bool)

  /** Any call that can only succeed or fail: tcflush(), tcdrain(), atexit(). */
  function Call(w: World, fd: int): Answer {
    Answer(Asked(w), Willing(w) && fd in w.attrs)
  }

  /** The mark glibc keeps among the input modes is not handed to the device. */
  function Unmark(t: Termios): Termios {
    t.(iflag := t.iflag - {IBAUD0})
  }

  predicate Unmarked(t: Termios) {
    IBAUD0 !in t.iflag
  }

  lemma UnmarkedStays(t: Termios)
    requires Unmarked(t)
    ensures Unmark(t) == t
  {
    assert t.iflag - {IBAUD0} == t.iflag;
  }

  function TcSet(w: World, fd: int, t: Termios): Answer {
    if Willing(w) && fd in w.attrs then Answer(Asked(w).(attrs := w.attrs[fd := Unmark(w.store(t))]), true)
    else Answer(Asked(w), false)
  }

  datatype Got = Got(w: World, t: Option<Termios>)

  datatype Option<T> = None | Some(value: T)

  function TcGet(w: World, fd: int): Got {
    Got(Asked(w), if Willing(w) && fd in w.attrs then Some(w.attrs[fd]) else None)
  }

  // ---------------------------------------------------------------------
  // The table
  // ---------------------------------------------------------------------

  function FindFrom(slots: seq<Slot>, fd: int, i: nat): (r: int)
    requires i <= |slots|
    ensures -1 <= r < |slots| && (r >= 0 ==> i <= r && slots[r].fd == fd)
    ensures forall k | i <= k < (if r < 0 then |slots| else r) :: slots[k].fd != fd
    decreases |slots| - i
  {
    if i == |slots| then -1 else if slots[i].fd == fd then i else FindFrom(slots, fd, i + 1)
  }

  /** term_find(); it fails when the library is not initialized, too. */
  function Find(w: World, fd: int): (r: int)
    ensures -1 <= r < |w.slots| && (r >= 0 ==> w.slots[r].fd == fd)
    ensures w.init && r < 0 ==> forall k | 0 <= k < |w.slots| :: w.slots[k].fd != fd
  {
    if w.init then FindFrom(w.slots, fd, 0) else -1
  }

  function NotFound(w: World): Done {
    Done(w, if w.init then ENOTFOUND else ENOINIT)
  }

  function SetHup(t: Termios, on: bool): Termios {
    t.(cflag := WithHupcl(t.cflag, on))
  }

  function Put(w: World, i: nat, s: Slot): World
    requires i < |w.slots|
  {
    w.(slots := w.slots[i := s])
  }

  function Add(w: World, fd: int): Done {
    if Find(w, fd) >= 0 then Done(w, EEXISTS)
    else if fd !in w.attrs then Done(w, EISATTY)
    else if !w.init then Done(w, ENOINIT)
    else
      var i := FindFrom(w.slots, -1, 0);
      if i < 0 then Done(w, EFULL)
      else
        var got := TcGet(w, fd);
        if got.t.None? then Done(got.w, EGETATTR)
        else
          var t := got.t.value;
          Done(Put(got.w, i, Slot(fd, t, t, t, t, HUPCL in t.cflag)), EOK)
  }

  function Remove(w: World, fd: int): Done {
    var i := Find(w, fd);
    if i < 0 then NotFound(w)
    else
      var flushed := Call(w, fd);
      if !flushed.ok then Done(Put(flushed.w, i, w.slots[i].(fd := -1)), EFLUSH)
      else
        var wrote := TcSet(flushed.w, fd, w.slots[i].orig);
        Done(Put(wrote.w, i, w.slots[i].(fd := -1)), if wrote.ok then EOK else ESETATTR)
  }

  function Erase(w: World, fd: int): Done {
    var i := Find(w, fd);
    if i < 0 then NotFound(w) else Done(Put(w, i, w.slots[i].(fd := -1)), EOK)
  }

  function Replace(w: World, oldfd: int, newfd: int): Done {
    var i := Find(w, oldfd);
    if i < 0 then NotFound(w)
    else
      var wrote := TcSet(w, newfd, w.slots[i].curr);
      if !wrote.ok then Done(wrote.w, ESETATTR)
      else
        var got := TcGet(wrote.w, newfd);
        if got.t.None? then Done(got.w, EGETATTR)
        else Done(Put(got.w, i, w.slots[i].(curr := got.t.value, fd := newfd)), EOK)
  }

  function Reset(w: World, fd: int): Done {
    var i := Find(w, fd);
    if i < 0 then NotFound(w)
    else
      var flushed := Call(w, fd);
      if !flushed.ok then Done(flushed.w, EFLUSH)
      else
        var wrote := TcSet(flushed.w, fd, w.slots[i].orig);
        if !wrote.ok then Done(wrote.w, ESETATTR)
        else
          var got := TcGet(wrote.w, fd);
          if got.t.None? then Done(got.w, EGETATTR)
          else Done(Put(got.w, i, w.slots[i].(curr := got.t.value, next := got.t.value)), EOK)
  }

  function Revert(w: World, fd: int): Done {
    var i := Find(w, fd);
    if i < 0 then NotFound(w) else Done(Put(w, i, w.slots[i].(next := w.slots[i].curr)), EOK)
  }

  function Refresh(w: World, fd: int): Done {
    var i := Find(w, fd);
    if i < 0 then NotFound(w)
    else
      var got := TcGet(w, fd);
      if got.t.None? then Done(got.w, EGETATTR)
      else Done(Put(got.w, i, w.slots[i].(curr := got.t.value)), EOK)
  }

  function Apply(w: World, fd: int): Done {
    var i := Find(w, fd);
    if i < 0 then NotFound(w)
    else
      var wrote := TcSet(w, fd, w.slots[i].next);
      if !wrote.ok then Done(wrote.w, ESETATTR)
      else
        var got := TcGet(wrote.w, fd);
        if got.t.None? then Done(got.w, EGETATTR)
        else
          var t := got.t.value;
          Done(Put(got.w, i, w.slots[i].(next := t, curr := t, orig := SetHup(w.slots[i].orig, HUPCL in t.cflag),
                                         hup := HUPCL in t.cflag)), EOK)
  }

  function Drain(w: World, fd: int): Done {
    if Find(w, fd) < 0 then NotFound(w)
    else
      var drained := Call(w, fd);
      Done(drained.w, if drained.ok then EOK else EDRAIN)
  }

  function Flush(w: World, fd: int): Done {
    if Find(w, fd) < 0 then NotFound(w)
    else
      var flushed := Call(w, fd);
      Done(flushed.w, if flushed.ok then EOK else EFLUSH)
  }

  function FakeFlush(w: World, fd: int): Done {
    var i := Find(w, fd);
    if i < 0 then NotFound(w)
    else
      var got := TcGet(w, fd);
      if got.t.None? then Done(got.w, EGETATTR)
      else
        var t := got.t.value;
        var w1 := Put(got.w, i, w.slots[i].(curr := t));
        var none := t.(cflag := WithFlow(t.cflag, FC_NONE), iflag := WithXon(t.iflag, FC_NONE));
        var wrote := TcSet(w1, fd, none);
        if !wrote.ok then Done(wrote.w, ESETATTR)
        else
          var drained := Call(wrote.w, fd);
          if !drained.ok then Done(drained.w, EDRAIN)
          else
            var back := TcSet(drained.w, fd, t);
            Done(back.w, if back.ok then EOK else ESETATTR)
  }

  /** The settings after the setters of term_set() up to the first that fails, and how it fails. */
  datatype Tried = Tried(t: Termios, err: Error)

  function BaudError(baud: int, custom: bool): Error {
    if BaudOk(baud, custom) then EOK else if custom then ESETOSPEED else EBAUD
  }

  function TryLine(t: Termios, req: Request): Tried {
    if !ParityOk(req.parity) then Tried(t, EPARITY)
    else
      var t1 := t.(cflag := WithParity(t.cflag, req.parity));
      if !DatabitsOk(req.databits) then Tried(t1, EDATABITS)
      else
        var t2 := t1.(cflag := WithDatabits(t1.cflag, req.databits));
        if !StopbitsOk(req.stopbits) then Tried(t2, ESTOPBITS)
        else
          var t3 := t2.(cflag := WithStopbits(t2.cflag, req.stopbits));
          if !FlowOk(req.flow) then Tried(t3, EFLOW)
          else
            var t4 := t3.(cflag := WithFlow(t3.cflag, req.flow), iflag := WithXon(t3.iflag, req.flow));
            Tried(SetHup(t4.(cflag := WithLocal(t4.cflag, req.local)), req.hupcl), EOK)
  }

  function TrySet(t: Termios, req: Request, custom: bool): Tried {
    var t1 := if req.raw then SetRaw(t) else t;
    if !BaudOk(req.baud, custom) then Tried(t1, BaudError(req.baud, custom))
    else TryLine(SetBaudrate(t1, req.baud, custom), req)
  }

  function PutNext(w: World, i: nat, t: Termios): World
    requires i < |w.slots|
  {
    Put(w, i, w.slots[i].(next := t))
  }

  /** What is to be applied next may be chosen again: the terminal stays in its slot, and the last choice counts. */
  lemma NextAgain(w: World, fd: int, t: Termios, u: Termios)
    requires Find(w, fd) >= 0
    ensures var i := Find(w, fd);
            var v := PutNext(w, i, t);
            |v.slots| == |w.slots| && v.slots[i].next == t && Find(v, fd) == i && PutNext(v, i, u) == PutNext(w, i, u)
  {
    hide FindFrom;
    var i := Find(w, fd);
    var v := PutNext(w, i, t);
    FindSame(w.slots, v.slots, fd, 0);
    assert v.slots[i := v.slots[i].(next := u)] == w.slots[i := w.slots[i].(next := u)];
  }

  lemma {:induction false} FindSame(a: seq<Slot>, b: seq<Slot>, fd: int, i: nat)
    requires |a| == |b| && i <= |a| && forall k | 0 <= k < |a| :: a[k].fd == b[k].fd
    ensures FindFrom(a, fd, i) == FindFrom(b, fd, i)
    decreases |a| - i
  {
    if i < |a| { FindSame(a, b, fd, i + 1); }
  }

  lemma AddFinds(w: World, fd: int)
    requires Add(w, fd).err == EOK
    ensures 0 <= Find(Add(w, fd).w, fd) < |Add(w, fd).w.slots|
  {
    hide FindFrom;
    var i := FindFrom(w.slots, -1, 0);
    assert Add(w, fd).w.slots[i].fd == fd;
  }

  /** term_set(). A terminal that is not managed yet is added first; term_add() then returns 0, not its slot. */
  function Set(w: World, fd: int, req: Request, custom: bool): Done {
    var i := Find(w, fd);
    var added := if i < 0 then Add(w, fd) else Done(w, EOK);
    if added.err != EOK then added
    else
      var k := Find(added.w, fd);
      if k < 0 then added
      else
        var tried := TrySet(added.w.slots[k].next, req, custom);
        var edited := PutNext(added.w, k, tried.t);
        if tried.err == EOK then Done(edited, EOK)
        else if i < 0 then Done(Put(edited, 0, edited.slots[0].(fd := -1)), tried.err)
        else Done(w, tried.err)
  }

  /** Change the settings to apply next. */
  function Edit(w: World, fd: int, f: Termios -> Termios): Done {
    var i := Find(w, fd);
    if i < 0 then NotFound(w) else Done(Put(w, i, w.slots[i].(next := f(w.slots[i].next))), EOK)
  }

  /** A setter that accepts only some arguments. */
  function Setter(w: World, fd: int, f: Termios -> Termios, ok: bool, err: Error): Done {
    if Find(w, fd) >= 0 && !ok then Done(w, err) else Edit(w, fd, f)
  }

  /** Put the original settings back on every managed terminal from slot `i` on, and let go of it. */
  function RestoreFrom(w: World, i: nat, drain: bool): World
    requires i <= |w.slots|
    decreases |w.slots| - i
  {
    if i == |w.slots| then w
    else if w.slots[i].fd == -1 then RestoreFrom(w, i + 1, drain)
    else RestoreFrom(RestoreOne(w, i, drain), i + 1, drain)
  }

  /** Drained or not, the device is flushed and set, whatever comes of it; then the slot is given up. */
  function RestoreOne(w: World, i: nat, drain: bool): (v: World)
    requires i < |w.slots|
    ensures |v.slots| == |w.slots|
  {
    var fd := w.slots[i].fd;
    var drained := if drain then Drain(w, fd).w else w;
    Put(TcSet(Call(drained, fd).w, fd, w.slots[i].orig).w, i, w.slots[i].(fd := -1))
  }

  /** term_exitfunc() */
  function Exit(w: World): World {
    if w.init then RestoreFrom(w, 0, true) else w
  }

  /** term_lib_init() */
  function LibInit(w: World): Done {
    if w.init then Done(RestoreFrom(w, 0, false), EOK)
    else
      var free := w.(slots := seq(|w.slots|, i requires 0 <= i < |w.slots| => w.slots[i].(fd := -1)));
      if Willing(w) then Done(Asked(free).(init := true), EOK) else Done(Asked(free), EATEXIT)
  }

  /** What cleanup() in ppcom.cpp does to the terminal `tty`. */
  function Cleanup(w: World, tty: int, drain: bool, noreset: bool, hup: bool, flow: Flow): World {
    var drained := if drain then Drain(w, tty).w else w;
    var flushed := Flush(drained, tty).w;
    var w1 := if flow != FC_NONE then FakeFlush(flushed, tty).w else flushed;
    var w2 := Edit(w1, tty, t => SetHup(t, !noreset || hup)).w;
    var w3 := Apply(w2, tty).w;
    if noreset then Erase(w3, tty).w else w3
  }

  // ---------------------------------------------------------------------
  // Every sequence of calls
  // ---------------------------------------------------------------------

  datatype Op =
    | OpAdd(fd: int) | OpRemove(fd: int) | OpErase(fd: int) | OpReplace(fd: int, newfd: int) | OpReset(fd: int)
    | OpRevert(fd: int) | OpRefresh(fd: int) | OpApply(fd: int) | OpFakeFlush(fd: int)
    | OpSet(fd: int, req: Request, custom: bool) | OpEdit(fd: int, f: Termios -> Termios) | OpInit
    | OpDrain(fd: int) | OpFlush(fd: int)

  function Step(w: World, op: Op): World {
    match op
    case OpAdd(fd) => Add(w, fd).w
    case OpRemove(fd) => Remove(w, fd).w
    case OpErase(fd) => Erase(w, fd).w
    case OpReplace(fd, newfd) => Replace(w, fd, newfd).w
    case OpReset(fd) => Reset(w, fd).w
    case OpRevert(fd) => Revert(w, fd).w
    case OpRefresh(fd) => Refresh(w, fd).w
    case OpApply(fd) => Apply(w, fd).w
    case OpFakeFlush(fd) => FakeFlush(w, fd).w
    case OpSet(fd, req, custom) => Set(w, fd, req, custom).w
    case OpEdit(fd, f) => Edit(w, fd, f).w
    case OpInit => LibInit(w).w
    case OpDrain(fd) => Drain(w, fd).w
    case OpFlush(fd) => Flush(w, fd).w
  }

  predicate Managed(w: World, fd: int) {
    fd != -1 && exists i | 0 <= i < |w.slots| :: w.slots[i].fd == fd
  }

  /** The managed descriptors are distinct terminals, and the original settings are those captured but for HUPCL. */
  ghost predicate Inv(w: World) {
    && |w.slots| == MAX_TERMS
    && -1 !in w.attrs
    && (forall fd | fd in w.attrs :: Unmarked(w.attrs[fd]))
    && (forall i, j | 0 <= i < j < |w.slots| :: w.slots[i].fd != -1 ==> w.slots[i].fd != w.slots[j].fd)
    && (forall i | 0 <= i < |w.slots| && w.slots[i].fd != -1 ::
          && w.slots[i].fd in w.attrs && Unmarked(w.slots[i].captured)
          && w.slots[i].orig == SetHup(w.slots[i].captured, w.slots[i].hup))
  }

  /** The one thing a caller must see to: replace a managed descriptor by one that is not in use elsewhere. */
  predicate Sound(w: World, op: Op) {
    op.OpReplace? ==> op.fd != -1 && (op.newfd == op.fd || !Managed(w, op.newfd))
  }

  /** A managed descriptor is found in the one slot that holds it. */
  lemma FoundAt(w: World, fd: int, i: nat)
    requires Inv(w) && w.init && fd != -1 && i < |w.slots| && w.slots[i].fd == fd
    ensures Find(w, fd) == i
  {
    hide FindFrom;
  }

  lemma HupTwice(t: Termios, a: bool, b: bool)
    ensures SetHup(SetHup(t, a), b) == SetHup(t, b)
  {
    assert WithHupcl(WithHupcl(t.cflag, a), b) == WithHupcl(t.cflag, b);
  }

  lemma HupSame(t: Termios)
    ensures SetHup(t, HUPCL in t.cflag) == t
  {
    assert WithHupcl(t.cflag, HUPCL in t.cflag) == t.cflag;
  }

  /** Draining and flushing change nothing that the library keeps. */
  lemma DrainKeepsInv(w: World, fd: int)
    requires Inv(w)
    ensures Inv(Drain(w, fd).w) && Inv(Flush(w, fd).w)
  {
  }

  lemma {:induction false} RestoreOneKeepsInv(w: World, i: nat, drain: bool)
    requires Inv(w) && i < |w.slots|
    ensures Inv(RestoreOne(w, i, drain))
  {
  }

  lemma {:induction false} RestoreKeepsInv(w: World, i: nat, drain: bool)
    requires Inv(w) && i <= |w.slots|
    ensures Inv(RestoreFrom(w, i, drain))
    decreases |w.slots| - i
  {
    hide Inv, RestoreOne;
    if i < |w.slots| {
      if w.slots[i].fd == -1 {
        RestoreKeepsInv(w, i + 1, drain);
      } else {
        RestoreOneKeepsInv(w, i, drain);
        RestoreKeepsInv(RestoreOne(w, i, drain), i + 1, drain);
      }
    }
  }

  lemma PutKeepsInv(w: World, v: World, i: nat, s: Slot)
    requires Inv(w) && i < |w.slots|
    requires v.slots == w.slots && -1 !in v.attrs && w.attrs.Keys <= v.attrs.Keys
    requires forall fd | fd in v.attrs :: Unmarked(v.attrs[fd])
    requires s.fd == -1 || (s.fd in v.attrs && Unmarked(s.captured) && s.orig == SetHup(s.captured, s.hup))
    requires s.fd == -1 || forall j | 0 <= j < |w.slots| && j != i :: w.slots[j].fd != s.fd
    ensures Inv(Put(v, i, s))
  {
  }

  lemma {:induction false} AddKeepsInv(w: World, fd: int)
    requires Inv(w)
    ensures Inv(Add(w, fd).w)
  {
    if Add(w, fd).err == EOK {
      var i := FindFrom(w.slots, -1, 0);
      var t := w.attrs[fd];
      HupSame(t);
      PutKeepsInv(w, Asked(w), i, Slot(fd, t, t, t, t, HUPCL in t.cflag));
    }
  }

  lemma {:induction false} ApplyKeepsInv(w: World, fd: int)
    requires Inv(w)
    ensures Inv(Apply(w, fd).w)
  {
    var i := Find(w, fd);
    if Apply(w, fd).err == EOK {
      var wrote := TcSet(w, fd, w.slots[i].next);
      var t := wrote.w.attrs[fd];
      var s := w.slots[i];
      HupTwice(s.captured, s.hup, HUPCL in t.cflag);
      PutKeepsInv(w, Asked(wrote.w), i,
                  s.(next := t, curr := t, orig := SetHup(s.orig, HUPCL in t.cflag), hup := HUPCL in t.cflag));
    }
  }

  lemma {:induction false} SetKeepsInv(w: World, fd: int, req: Request, custom: bool)
    requires Inv(w)
    ensures Inv(Set(w, fd, req, custom).w)
  {
    hide TrySet, Add;
    var i := Find(w, fd);
    AddKeepsInv(w, fd);
    var v := if i < 0 then Add(w, fd).w else w;
    var k := Find(v, fd);
    if k >= 0 {
      var tried := TrySet(v.slots[k].next, req, custom);
      var s := v.slots[k].(next := tried.t);
      PutKeepsInv(v, v, k, s);
      var edited := Put(v, k, s);
      PutKeepsInv(edited, edited, 0, edited.slots[0].(fd := -1));
    }
  }

  lemma {:induction false} InitKeepsInv(w: World)
    requires Inv(w)
    ensures Inv(LibInit(w).w)
  {
    RestoreKeepsInv(w, 0, false);
  }

  lemma {:induction false} ReplaceKeepsInv(w: World, fd: int, newfd: int)
    requires Inv(w) && fd != -1 && (newfd == fd || !Managed(w, newfd))
    ensures Inv(Replace(w, fd, newfd).w)
  {
    var i := Find(w, fd);
    if Replace(w, fd, newfd).err == EOK {
      var wrote := TcSet(w, newfd, w.slots[i].curr);
      var s := w.slots[i].(curr := wrote.w.attrs[newfd], fd := newfd);
      PutKeepsInv(w, Asked(wrote.w), i, s);
    }
  }

  lemma {:induction false} RemoveKeepsInv(w: World, fd: int)
    requires Inv(w)
    ensures Inv(Remove(w, fd).w)
  {
    var i := Find(w, fd);
    if i >= 0 {
      var flushed := Call(w, fd);
      PutKeepsInv(w, flushed.w, i, w.slots[i].(fd := -1));
      PutKeepsInv(w, TcSet(flushed.w, fd, w.slots[i].orig).w, i, w.slots[i].(fd := -1));
    }
  }

  lemma {:induction false} ResetKeepsInv(w: World, fd: int)
    requires Inv(w)
    ensures Inv(Reset(w, fd).w)
  {
    var i := Find(w, fd);
    if i >= 0 {
      var flushed := Call(w, fd);
      var wrote := TcSet(flushed.w, fd, w.slots[i].orig);
      if Reset(w, fd).err == EOK {
        var t := wrote.w.attrs[fd];
        PutKeepsInv(w, Asked(wrote.w), i, w.slots[i].(curr := t, next := t));
      }
    }
  }

  lemma WriteKeepsInv(w: World, fd: int, t: Termios)
    requires Inv(w)
    ensures Inv(TcSet(w, fd, t).w) && Inv(Call(w, fd).w)
  {
  }

  lemma {:induction false} FakeFlushKeepsInv(w: World, fd: int)
    requires Inv(w)
    ensures Inv(FakeFlush(w, fd).w)
  {
    var i := Find(w, fd);
    if i >= 0 && TcGet(w, fd).t.Some? {
      hide Inv, TcSet, Call, WithFlow, WithXon;
      var t := w.attrs[fd];
      CurrKeepsInv(w, i, t);
      var w1 := Put(TcGet(w, fd).w, i, w.slots[i].(curr := t));
      var none := t.(cflag := WithFlow(t.cflag, FC_NONE), iflag := WithXon(t.iflag, FC_NONE));
      WriteKeepsInv(w1, fd, none);
      var w2 := TcSet(w1, fd, none).w;
      WriteKeepsInv(w2, fd, t);
      WriteKeepsInv(Call(w2, fd).w, fd, t);
    } else {
      CallKeepsInv(w);
    }
  }

  lemma CallKeepsInv(w: World)
    requires Inv(w)
    ensures Inv(Asked(w))
  {
  }

  lemma CurrKeepsInv(w: World, i: nat, t: Termios)
    requires Inv(w) && i < |w.slots|
    ensures Inv(Put(Asked(w), i, w.slots[i].(curr := t)))
  {
    PutKeepsInv(w, Asked(w), i, w.slots[i].(curr := t));
  }

  /** Calls that change neither descriptors nor original settings. */
  lemma {:induction false} EditsKeepInv(w: World, fd: int, f: Termios -> Termios)
    requires Inv(w)
    ensures Inv(Erase(w, fd).w) && Inv(Revert(w, fd).w) && Inv(Refresh(w, fd).w) && Inv(Edit(w, fd, f).w)
  {
    var i := Find(w, fd);
    if i >= 0 {
      var s := w.slots[i];
      PutKeepsInv(w, w, i, s.(fd := -1));
      PutKeepsInv(w, w, i, s.(next := s.curr));
      PutKeepsInv(w, w, i, s.(next := f(s.next)));
      if TcGet(w, fd).t.Some? {
        PutKeepsInv(w, Asked(w), i, s.(curr := w.attrs[fd]));
      }
    }
  }

  lemma {:induction false} StepKeepsInv(w: World, op: Op)
    requires Inv(w) && Sound(w, op)
    ensures Inv(Step(w, op))
  {
    hide Inv, Add, Remove, Erase, Replace, Reset, Revert, Refresh, Apply, FakeFlush, Set, Edit, LibInit,
         Managed, Drain, Flush;
    match op
    case OpAdd(fd) => AddKeepsInv(w, fd);
    case OpRemove(fd) => RemoveKeepsInv(w, fd);
    case OpErase(fd) => EditsKeepInv(w, fd, t => t);
    case OpReplace(fd, newfd) => ReplaceKeepsInv(w, fd, newfd);
    case OpReset(fd) => ResetKeepsInv(w, fd);
    case OpRevert(fd) => EditsKeepInv(w, fd, t => t);
    case OpRefresh(fd) => EditsKeepInv(w, fd, t => t);
    case OpApply(fd) => ApplyKeepsInv(w, fd);
    case OpFakeFlush(fd) => FakeFlushKeepsInv(w, fd);
    case OpSet(fd, req, custom) => SetKeepsInv(w, fd, req, custom);
    case OpEdit(fd, f) => EditsKeepInv(w, fd, f);
    case OpInit => InitKeepsInv(w);
    case OpDrain(fd) => DrainKeepsInv(w, fd);
    case OpFlush(fd) => DrainKeepsInv(w, fd);
  }

  function Run(w: World, ops: seq<Op>): World
    decreases |ops|
  {
    if ops == [] then w else Run(Step(w, ops[0]), ops[1..])
  }

  predicate AllSound(w: World, ops: seq<Op>)
    decreases |ops|
  {
    ops == [] || (Sound(w, ops[0]) && AllSound(Step(w, ops[0]), ops[1..]))
  }

  /** On every run, whatever the devices answer and store, the originals stay what was captured but for HUPCL. */
  lemma {:induction false} RunKeepsInv(w: World, ops: seq<Op>)
    requires Inv(w) && AllSound(w, ops)
    ensures Inv(Run(w, ops))
    decreases |ops|
  {
    hide Inv, Step;
    if ops != [] {
      StepKeepsInv(w, ops[0]);
      RunKeepsInv(Step(w, ops[0]), ops[1..]);
    }
  }

  /** Initialized with nothing managed yet, the table is in order whatever it held. */
  lemma InitStarts(w: World)
    requires |w.slots| == MAX_TERMS && -1 !in w.attrs && !w.init && forall fd | fd in w.attrs :: Unmarked(w.attrs[fd])
    ensures Inv(LibInit(w).w)
    ensures forall fd :: !Managed(LibInit(w).w, fd)
  {
  }

  /**
   * As long as a slot is in use, the settings it has captured stay what they are, and the HUPCL it
   * remembers is what the device stored at the last apply that worked.
   */
  predicate Remembers(w: World, op: Op, v: World, i: nat)
    requires i < |w.slots|
  {
    && |v.slots| == |w.slots|
    && v.slots[i].captured == w.slots[i].captured
    && (if op.OpApply? && Find(w, op.fd) == i && Apply(w, op.fd).err == EOK
        then op.fd in v.attrs && v.slots[i].hup == (HUPCL in v.attrs[op.fd].cflag)
        else v.slots[i].hup == w.slots[i].hup)
  }

  lemma {:induction false} SlotRemembers(w: World, op: Op, i: nat)
    requires i < |w.slots| && w.slots[i].fd != -1 && op != OpInit
    ensures Remembers(w, op, Step(w, op), i)
  {
    if op.OpSet? {
      SetRemembers(w, op, i);
    } else if op.OpApply? {
      ApplyRemembers(w, op, i);
    } else if op.OpFakeFlush? {
      FakeFlushRemembers(w, op, i);
    } else {
      OthersRemember(w, op, i);
    }
  }

  lemma SetRemembers(w: World, op: Op, i: nat)
    requires i < |w.slots| && w.slots[i].fd != -1 && op.OpSet?
    ensures Remembers(w, op, Step(w, op), i)
  {
    hide TrySet, Apply;
    assert Add(w, op.fd).err == EOK ==> Add(w, op.fd).w.slots[i] == w.slots[i];
  }

  lemma ApplyRemembers(w: World, op: Op, i: nat)
    requires i < |w.slots| && w.slots[i].fd != -1 && op.OpApply?
    ensures Remembers(w, op, Step(w, op), i)
  {
    hide SetHup, FindFrom;
    assert Step(w, op) == Apply(w, op.fd).w;
  }

  lemma WriteLeavesSlots(w: World, fd: int, t: Termios)
    ensures TcSet(w, fd, t).w.slots == w.slots
  {
  }

  lemma CallLeavesSlots(w: World, fd: int)
    ensures Call(w, fd).w.slots == w.slots
  {
  }

  lemma FakeFlushRemembers(w: World, op: Op, i: nat)
    requires i < |w.slots| && w.slots[i].fd != -1 && op.OpFakeFlush?
    ensures Remembers(w, op, Step(w, op), i)
  {
    hide WithFlow, WithXon, FindFrom, TcSet, Call, SetHup;
    assert Step(w, op) == FakeFlush(w, op.fd).w;
    forall v, fd, t ensures TcSet(v, fd, t).w.slots == v.slots {
      WriteLeavesSlots(v, fd, t);
    }
    forall v, fd ensures Call(v, fd).w.slots == v.slots {
      CallLeavesSlots(v, fd);
    }
  }

  lemma OthersRemember(w: World, op: Op, i: nat)
    requires i < |w.slots| && w.slots[i].fd != -1 && op != OpInit
    requires !op.OpSet? && !op.OpApply? && !op.OpFakeFlush?
    ensures Remembers(w, op, Step(w, op), i)
  {
    hide FindFrom;
  }

  /** Replacing by a descriptor that is managed already leaves it in two slots. */
  lemma ReplaceMustBeSound(w: World, fd: int, newfd: int)
    requires Inv(w) && fd != newfd && Managed(w, fd) && Managed(w, newfd) && w.init && w.script == []
    ensures !Inv(Replace(w, fd, newfd).w)
  {
    var i, j := Find(w, fd), Find(w, newfd);
    var v := Replace(w, fd, newfd).w;
    assert v.slots[i].fd == v.slots[j].fd == newfd;
  }

  // ---------------------------------------------------------------------
  // Restoration
  // ---------------------------------------------------------------------

  /** From here on every call succeeds and the devices keep what they are given. */
  ghost predicate Storing(w: World) {
    w.script == [] && forall t {:trigger w.store(t)} :: w.store(t) == t
  }

  /** Every slot from `i` on is let go of, and no device comes or goes. */
  lemma {:induction false} LetsGo(w: World, i: nat, drain: bool)
    requires i <= |w.slots|
    ensures var v := RestoreFrom(w, i, drain);
            && |v.slots| == |w.slots| && v.attrs.Keys == w.attrs.Keys
            && (forall k | i <= k < |w.slots| :: v.slots[k].fd == -1)
            && (forall k | 0 <= k < i :: v.slots[k] == w.slots[k])
    decreases |w.slots| - i
  {
    hide RestoreOne;
    if i < |w.slots| {
      if w.slots[i].fd == -1 {
        LetsGo(w, i + 1, drain);
      } else {
        RestoreOneDoes(w, i, drain);
        LetsGo(RestoreOne(w, i, drain), i + 1, drain);
      }
    }
  }

  /** One device at most is written to, and only its own slot changes. */
  lemma {:induction false} RestoreOneDoes(w: World, i: nat, drain: bool)
    requires i < |w.slots|
    ensures var v := RestoreOne(w, i, drain);
            var fd := w.slots[i].fd;
            && v.slots == w.slots[i := w.slots[i].(fd := -1)] && v.init == w.init && v.attrs.Keys == w.attrs.Keys
            && (forall f | f in w.attrs && f != fd :: v.attrs[f] == w.attrs[f])
            && (Storing(w) ==> Storing(v) && (fd in w.attrs ==> v.attrs[fd] == Unmark(w.slots[i].orig)))
  {
    hide Unmark;
  }

  lemma {:induction false} LeavesAlone(w: World, i: nat, drain: bool, fd: int)
    requires i <= |w.slots| && fd in w.attrs && forall k | i <= k < |w.slots| :: w.slots[k].fd != fd
    ensures var v := RestoreFrom(w, i, drain); fd in v.attrs && v.attrs[fd] == w.attrs[fd]
    decreases |w.slots| - i
  {
    hide RestoreOne;
    if i < |w.slots| {
      if w.slots[i].fd == -1 {
        LeavesAlone(w, i + 1, drain, fd);
      } else {
        RestoreOneDoes(w, i, drain);
        LeavesAlone(RestoreOne(w, i, drain), i + 1, drain, fd);
      }
    }
  }

  lemma OrigUnmarked(w: World, i: nat)
    requires Inv(w) && i < |w.slots| && w.slots[i].fd != -1
    ensures Unmark(w.slots[i].orig) == w.slots[i].orig
  {
    UnmarkedStays(w.slots[i].orig);
  }

  lemma {:induction false} RestoresFrom(w: World, i: nat, drain: bool, k: nat)
    requires Inv(w) && Storing(w) && i <= k < |w.slots| && w.slots[k].fd != -1
    ensures var v := RestoreFrom(w, i, drain);
            w.slots[k].fd in v.attrs && v.attrs[w.slots[k].fd] == w.slots[k].orig
    decreases k - i
  {
    hide SetHup, RestoreOne, Storing;
    if w.slots[i].fd == -1 {
      RestoresFrom(w, i + 1, drain, k);
    } else {
      RestoreOneDoes(w, i, drain);
      var u := RestoreOne(w, i, drain);
      if i == k {
        OrigUnmarked(w, i);
        LeavesAlone(u, i + 1, drain, w.slots[i].fd);
      } else {
        RestoreOneKeepsInv(w, i, drain);
        RestoresFrom(u, i + 1, drain, k);
      }
    }
  }

  /** However the run went, at exit every managed terminal gets its original settings back, and no other is touched. */
  lemma {:induction false} ExitRestores(w: World)
    requires Inv(w) && Storing(w) && w.init
    ensures var v := Exit(w);
            && (forall fd :: !Managed(v, fd))
            && (forall k | 0 <= k < |w.slots| && w.slots[k].fd != -1 ::
                  w.slots[k].fd in v.attrs && v.attrs[w.slots[k].fd] == SetHup(w.slots[k].captured, w.slots[k].hup))
            && (forall fd | fd in w.attrs && !Managed(w, fd) :: fd in v.attrs && v.attrs[fd] == w.attrs[fd])
  {
    hide RestoreFrom, SetHup;
    LetsGo(w, 0, true);
    forall k | 0 <= k < |w.slots| && w.slots[k].fd != -1
      ensures w.slots[k].fd in Exit(w).attrs
           && Exit(w).attrs[w.slots[k].fd] == SetHup(w.slots[k].captured, w.slots[k].hup)
    {
      RestoresFrom(w, 0, true, k);
    }
    forall fd | fd in w.attrs && !Managed(w, fd) ensures fd in Exit(w).attrs && Exit(w).attrs[fd] == w.attrs[fd] {
      LeavesAlone(w, 0, true, fd);
    }
  }

  /** Resetting undoes whatever was applied, and removing does so too and lets go of the terminal. */
  lemma {:induction false} ResetUndoes(w: World, fd: int)
    requires Inv(w) && Storing(w) && w.init && Managed(w, fd)
    ensures var i := Find(w, fd);
            var v := Reset(w, fd);
            var u := Remove(w, fd);
            && v.err == EOK && v.w.attrs == w.attrs[fd := w.slots[i].orig] && u.w.attrs == v.w.attrs
            && v.w.slots == w.slots[i := w.slots[i].(curr := w.slots[i].orig, next := w.slots[i].orig)]
            && u.err == EOK && !Managed(u.w, fd)
  {
    hide SetHup;
    var i := Find(w, fd);
    OrigUnmarked(w, i);
    assert Asked(w) == w;
  }

  /** Reverting forgets what was set and not applied: applying then puts in force what was in force. */
  lemma {:induction false} RevertForgets(w: World, fd: int, f: Termios -> Termios)
    requires Inv(w) && Storing(w) && w.init && Managed(w, fd)
    ensures var i := Find(w, fd);
            var v := Revert(Edit(w, fd, f).w, fd);
            && v == Revert(w, fd) && v.err == EOK
            && Apply(v.w, fd).w.attrs == w.attrs[fd := Unmark(w.slots[i].curr)]
  {
    hide Apply, Unmark;
    var i := Find(w, fd);
    EditsKeepInv(w, fd, f);
    var edited := Edit(w, fd, f).w;
    FoundAt(edited, fd, i);
    EditsKeepInv(edited, fd, f);
    var v := Revert(edited, fd).w;
    assert v.slots == w.slots[i := w.slots[i].(next := w.slots[i].curr)];
    FoundAt(v, fd, i);
    ApplyStores(v, fd);
  }

  /** Another descriptor takes over the settings in force, and what is to be restored in the end. */
  lemma {:induction false} ReplaceTakesOver(w: World, fd: int, newfd: int)
    requires Inv(w) && Storing(w) && w.init && Managed(w, fd) && !Managed(w, newfd) && newfd in w.attrs
    ensures var i := Find(w, fd);
            var v := Replace(w, fd, newfd);
            && v.err == EOK && Inv(v.w) && Find(v.w, newfd) == i && !Managed(v.w, fd)
            && v.w.attrs == w.attrs[newfd := Unmark(w.slots[i].curr)]
            && v.w.slots[i].orig == w.slots[i].orig && v.w.slots[i].captured == w.slots[i].captured
  {
    hide SetHup, Unmark;
    var i := Find(w, fd);
    assert Asked(w) == w;
    ReplaceKeepsInv(w, fd, newfd);
    var v := Replace(w, fd, newfd).w;
    FoundAt(v, newfd, i);
  }

  /** The table and the devices after cleanup(), when nothing fails. */
  lemma {:induction false} CleanupWorks(w: World, tty: int, drain: bool, noreset: bool, hup: bool, flow: Flow)
    requires Inv(w) && Storing(w) && w.init && Managed(w, tty)
    ensures var v := Cleanup(w, tty, drain, noreset, hup, flow);
            var i := Find(w, tty);
            && Inv(v) && Storing(v) && v.init && 0 <= i < |w.slots| == |v.slots|
            && v.attrs == w.attrs[tty := SetHup(Unmark(w.slots[i].next), !noreset || hup)]
            && v.slots[i].orig == SetHup(w.slots[i].captured, !noreset || hup)
            && v.slots[i].fd == (if noreset then -1 else tty)
            && (forall k | 0 <= k < |w.slots| && k != i :: v.slots[k] == w.slots[k])
  {
    hide Apply, FakeFlush, SetHup, Inv, FindFrom, Drain, Flush;
    var i := Find(w, tty);
    var on := !noreset || hup;
    DrainStores(w, tty);
    FakeFlushStores(w, tty);
    var w1 := if flow != FC_NONE then FakeFlush(w, tty).w else w;
    FoundAt(w1, tty, i);
    EditsKeepInv(w1, tty, t => SetHup(t, on));
    var w2 := Edit(w1, tty, t => SetHup(t, on)).w;
    FoundAt(w2, tty, i);
    ApplyStores(w2, tty);
    ApplyKeepsInv(w2, tty);
    var w3 := Apply(w2, tty).w;
    HupIn(w.slots[i].next, on);
    HupSetLast(w1, i, on);
    FoundAt(w3, tty, i);
    EditsKeepInv(w3, tty, t => t);
  }

  lemma DrainStores(w: World, fd: int)
    requires Storing(w)
    ensures Drain(w, fd).w == w && Flush(w, fd).w == w
  {
    assert Asked(w) == w;
  }

  lemma HupIn(t: Termios, on: bool)
    ensures HUPCL in SetHup(t, on).cflag <==> on
    ensures Unmark(SetHup(t, on)) == SetHup(Unmark(t), on)
  {
  }

  lemma HupSetLast(w: World, i: nat, on: bool)
    requires Inv(w) && i < |w.slots| && w.slots[i].fd != -1
    ensures SetHup(w.slots[i].orig, on) == SetHup(w.slots[i].captured, on)
  {
    HupTwice(w.slots[i].captured, w.slots[i].hup, on);
  }

  lemma {:induction false} ApplyStores(w: World, fd: int)
    requires Inv(w) && Storing(w) && w.init && Managed(w, fd)
    ensures var v := Apply(w, fd).w;
            var i := Find(w, fd);
            && Apply(w, fd).err == EOK && Storing(v) && v.init && i >= 0
            && v.attrs == w.attrs[fd := Unmark(w.slots[i].next)]
            && v.slots == w.slots[i := v.slots[i]] && v.slots[i].fd == fd
            && v.slots[i].curr == v.slots[i].next == Unmark(w.slots[i].next)
            && v.slots[i].captured == w.slots[i].captured
            && v.slots[i].orig == SetHup(w.slots[i].orig, HUPCL in w.slots[i].next.cflag)
  {
    var wrote := TcSet(w, fd, w.slots[Find(w, fd)].next);
    assert Asked(w) == w;
  }

  lemma {:induction false} FakeFlushStores(w: World, fd: int)
    requires Inv(w) && Storing(w) && w.init && Managed(w, fd)
    ensures var v := FakeFlush(w, fd).w;
            var i := Find(w, fd);
            && i >= 0 && Inv(v) && Storing(v) && v.init && v.attrs == w.attrs
            && v.slots == w.slots[i := w.slots[i].(curr := w.attrs[fd])]
  {
    FakeFlushKeepsInv(w, fd);
    assert Asked(w) == w;
    var t := w.attrs[fd];
    UnmarkedStays(t);
    var none := t.(cflag := WithFlow(t.cflag, FC_NONE), iflag := WithXon(t.iflag, FC_NONE));
    assert w.attrs[fd := none][fd := t] == w.attrs;
  }

  /**
   * However the run went: after cleanup() and term_exitfunc() the port hangs up on close exactly as
   * asked. Its other settings are the captured ones unless the reset was to be skipped, when they are
   * the last ones chosen. Every other managed terminal is back to what was captured, HUPCL apart.
   */
  lemma {:induction false} Restored(w: World, tty: int, drain: bool, noreset: bool, hup: bool, flow: Flow)
    requires Inv(w) && Storing(w) && w.init && Managed(w, tty)
    ensures var v := Exit(Cleanup(w, tty, drain, noreset, hup, flow));
            var i := Find(w, tty);
            && 0 <= i < |w.slots| && tty in v.attrs
            && (HUPCL in v.attrs[tty].cflag <==> !noreset || hup)
            && v.attrs[tty] == SetHup(if noreset then Unmark(w.slots[i].next) else w.slots[i].captured, !noreset || hup)
            && (forall k | 0 <= k < |w.slots| && w.slots[k].fd != -1 && k != i ::
                  w.slots[k].fd in v.attrs && v.attrs[w.slots[k].fd] == SetHup(w.slots[k].captured, w.slots[k].hup))
            && (forall fd :: !Managed(v, fd))
  {
    hide Cleanup, RestoreFrom;
    CleanupWorks(w, tty, drain, noreset, hup, flow);
    var c := Cleanup(w, tty, drain, noreset, hup, flow);
    LetsGo(c, 0, true);
    var i := Find(w, tty);
    var v := Exit(c);
    if noreset {
      LeavesAlone(c, 0, true, tty);
    } else {
      RestoresFrom(c, 0, true, i);
    }
    forall k | 0 <= k < |w.slots| && w.slots[k].fd != -1 && k != i
      ensures w.slots[k].fd in v.attrs && v.attrs[w.slots[k].fd] == SetHup(w.slots[k].captured, w.slots[k].hup)
    {
      assert c.slots[k] == w.slots[k];
      RestoresFrom(c, 0, true, k);
    }
  }

  /** The same over a whole run of the library from its initialization, whatever happened in between. */
  lemma {:induction false} RunRestores(w0: World, ops: seq<Op>, tty: int, drain: bool, noreset: bool, hup: bool,
                                       flow: Flow)
    requires |w0.slots| == MAX_TERMS && -1 !in w0.attrs && !w0.init
    requires forall fd | fd in w0.attrs :: Unmarked(w0.attrs[fd])
    requires AllSound(LibInit(w0).w, ops)
    requires var w := Run(LibInit(w0).w, ops); Storing(w) && w.init && Managed(w, tty)
    ensures var w := Run(LibInit(w0).w, ops);
            var v := Exit(Cleanup(w, tty, drain, noreset, hup, flow));
            var i := Find(w, tty);
            && 0 <= i < |w.slots| && tty in v.attrs
            && (HUPCL in v.attrs[tty].cflag <==> !noreset || hup)
            && v.attrs[tty] == SetHup(if noreset then Unmark(w.slots[i].next) else w.slots[i].captured, !noreset || hup)
            && (forall k | 0 <= k < |w.slots| && w.slots[k].fd != -1 && k != i ::
                  w.slots[k].fd in v.attrs && v.attrs[w.slots[k].fd] == SetHup(w.slots[k].captured, w.slots[k].hup))
            && (forall fd :: !Managed(v, fd))
  {
    hide Cleanup, Exit, LibInit, SetHup, Run, AllSound;
    InitStarts(w0);
    var w1 := LibInit(w0).w;
    RunKeepsInv(w1, ops);
    Restored(Run(w1, ops), tty, drain, noreset, hup, flow);
  }

  /** A slot that is in use, and stays so through the calls. */
  predicate StaysInUse(w: World, ops: seq<Op>, i: nat)
    decreases |ops|
  {
    i < |w.slots| && w.slots[i].fd != -1 && (ops == [] || StaysInUse(Step(w, ops[0]), ops[1..], i))
  }

  lemma InitFrees(w: World, i: nat)
    requires i < |w.slots|
    ensures var v := Step(w, OpInit); |v.slots| == |w.slots| && v.slots[i].fd == -1
  {
    hide RestoreFrom;
    LetsGo(w, 0, false);
  }

  /** What was captured for it stays captured. */
  lemma {:induction false} CapturedStays(w: World, ops: seq<Op>, i: nat)
    requires StaysInUse(w, ops, i)
    ensures var v := Run(w, ops);
            |v.slots| == |w.slots| && v.slots[i].fd != -1 && v.slots[i].captured == w.slots[i].captured
    decreases |ops|
  {
    hide Step;
    if ops != [] {
      if ops[0] == OpInit {
        InitFrees(w, i);
      } else {
        SlotRemembers(w, ops[0], i);
        hide Remembers;
      }
      CapturedStays(Step(w, ops[0]), ops[1..], i);
    }
  }

  /** A call that puts settings in force on the terminal in slot `i`, and works. */
  predicate AppliesTo(w: World, op: Op, i: nat) {
    op.OpApply? && Find(w, op.fd) == i && Apply(w, op.fd).err == EOK
  }

  /** Whether the device of slot `i` hangs up on close: as found, and then as it stores at each apply that works. */
  function LastApplied(w: World, ops: seq<Op>, i: nat, found: bool): bool
    decreases |ops|
  {
    if ops == [] then found
    else
      var v := Step(w, ops[0]);
      var now := if AppliesTo(w, ops[0], i) then ops[0].fd in v.attrs && HUPCL in v.attrs[ops[0].fd].cflag else found;
      LastApplied(v, ops[1..], i, now)
  }

  lemma {:induction false} HupFollowsApply(w: World, ops: seq<Op>, i: nat)
    requires StaysInUse(w, ops, i)
    ensures var v := Run(w, ops);
            |v.slots| == |w.slots| && v.slots[i].hup == LastApplied(w, ops, i, w.slots[i].hup)
    decreases |ops|
  {
    hide Step, Apply, Find;
    if ops != [] {
      if ops[0] == OpInit {
        InitFrees(w, i);
      } else {
        SlotRemembers(w, ops[0], i);
      }
      HupFollowsApply(Step(w, ops[0]), ops[1..], i);
    }
  }

  /** Once initialized, the library stays so. */
  lemma StepStaysInit(w: World, op: Op)
    requires w.init
    ensures Step(w, op).init
  {
    hide FindFrom, TrySet, SetHup, Unmark, WithFlow, WithXon, RestoreFrom;
    if op == OpInit { RestoreStaysInit(w, 0, false); }
  }

  lemma {:induction false} RestoreStaysInit(w: World, i: nat, drain: bool)
    requires i <= |w.slots|
    ensures RestoreFrom(w, i, drain).init == w.init
    decreases |w.slots| - i
  {
    hide RestoreOne;
    if i < |w.slots| {
      if w.slots[i].fd == -1 {
        RestoreStaysInit(w, i + 1, drain);
      } else {
        RestoreOneDoes(w, i, drain);
        RestoreStaysInit(RestoreOne(w, i, drain), i + 1, drain);
      }
    }
  }

  lemma {:induction false} RunStaysInit(w: World, ops: seq<Op>)
    requires w.init
    ensures Run(w, ops).init
    decreases |ops|
  {
    hide Step;
    if ops != [] {
      StepStaysInit(w, ops[0]);
      RunStaysInit(Step(w, ops[0]), ops[1..]);
    }
  }

  /** term_add() takes what the device holds for the settings to restore. */
  lemma {:induction false} AddCaptures(w: World, fd: int)
    requires Inv(w) && Add(w, fd).err == EOK
    ensures var v := Add(w, fd).w;
            var i := Find(v, fd);
            && w.init && v.init && fd in w.attrs && fd != -1 && 0 <= i < |v.slots| == |w.slots|
            && v.slots[i].captured == v.slots[i].orig == w.attrs[fd] && v.slots[i].hup == (HUPCL in w.attrs[fd].cflag)
  {
    hide FindFrom, SetHup;
    AddKeepsInv(w, fd);
    var v := Add(w, fd).w;
    var free := FindFrom(w.slots, -1, 0);
    FoundAt(v, fd, free);
  }

  /**
   * What the device held when it was added is what it holds after the program, if its slot was in use
   * all along, whatever was set, applied, reset, or failed in between; but HUPCL is as at the last
   * apply that worked, or as found.
   */
  lemma {:induction false} FoundIsRestored(w0: World, fd: int, ops: seq<Op>)
    requires Inv(w0) && Add(w0, fd).err == EOK
    requires var w1 := Add(w0, fd).w; AllSound(w1, ops) && Find(w1, fd) >= 0 && StaysInUse(w1, ops, Find(w1, fd))
    requires Storing(Run(Add(w0, fd).w, ops))
    ensures var i := Find(Add(w0, fd).w, fd);
            var w := Run(Add(w0, fd).w, ops);
            var v := Exit(w);
            && fd in w0.attrs && 0 <= i < |w.slots| && w.slots[i].fd in v.attrs
            && v.attrs[w.slots[i].fd]
               == SetHup(w0.attrs[fd], LastApplied(Add(w0, fd).w, ops, i, HUPCL in w0.attrs[fd].cflag))
  {
    hide Add, Run, AllSound, StaysInUse, Exit, SetHup, Inv, Storing, LastApplied;
    AddKeepsInv(w0, fd);
    AddCaptures(w0, fd);
    var w1 := Add(w0, fd).w;
    var i := Find(w1, fd);
    CapturedStays(w1, ops, i);
    HupFollowsApply(w1, ops, i);
    RunKeepsInv(w1, ops);
    RunStaysInit(w1, ops);
    ExitRestores(Run(w1, ops));
  }

  // ---------------------------------------------------------------------
  // term_set()
  // ---------------------------------------------------------------------

  /** All setters succeed exactly for acceptable arguments, and then give what they give together. */
  lemma TrySetSucceeds(t: Termios, req: Request, custom: bool)
    ensures TrySet(t, req, custom).err == EOK <==> Acceptable(req, custom)
    ensures Acceptable(req, custom) ==> TrySet(t, req, custom).t == SetAll(t, req, custom)
  {
    hide SetBaudrate, BaudOk, SetRaw, WithParity, WithDatabits, WithStopbits, WithFlow, WithXon, WithLocal, WithHupcl;
  }

  /** On a managed terminal term_set() either sets everything or changes nothing. */
  lemma {:induction false} SetIsAtomic(w: World, fd: int, req: Request, custom: bool)
    requires Find(w, fd) >= 0
    ensures var r := Set(w, fd, req, custom);
            var i := Find(w, fd);
            && (r.err == EOK <==> Acceptable(req, custom))
            && r.w == if r.err == EOK then Put(w, i, w.slots[i].(next := SetAll(w.slots[i].next, req, custom))) else w
  {
    hide TrySet, Acceptable, SetAll;
    TrySetSucceeds(w.slots[Find(w, fd)].next, req, custom);
  }

  lemma ReadsUnmarked(t: Termios, req: Request, custom: bool)
    ensures Reads(Unmark(t), req, custom) == Reads(t, req, custom)
  {
    hide SpeedOf, RateCode;
  }

  /**
   * Set and applied on a storing device, the settings are read back as requested, whatever was there
   * before; in raw mode the device neither edits lines nor echoes, nor makes signals of characters.
   */
  lemma {:induction false} SetApplyReads(w: World, fd: int, req: Request, custom: bool)
    requires Inv(w) && Storing(w) && w.init && Managed(w, fd) && Acceptable(req, custom)
    ensures var v := Apply(Set(w, fd, req, custom).w, fd);
            var i := Find(v.w, fd);
            && v.err == EOK && 0 <= i < |v.w.slots| && Reads(v.w.slots[i].curr, req, custom)
            && fd in v.w.attrs && v.w.attrs[fd] == v.w.slots[i].curr
            && (req.raw ==> forall b | b in {0, 1, 3, 6, 15} :: b !in v.w.attrs[fd].lflag)
  {
    hide SetAll, Acceptable, TrySet, Reads;
    var i := Find(w, fd);
    var u := Set(w, fd, req, custom).w;
    SetIsAtomic(w, fd, req, custom);
    SetKeepsInv(w, fd, req, custom);
    FoundAt(u, fd, i);
    ApplyStores(u, fd);
    ApplyKeepsInv(u, fd);
    FoundAt(Apply(u, fd).w, fd, i);
    SetAllReads(w.slots[i].next, req, custom);
    ReadsUnmarked(SetAll(w.slots[i].next, req, custom), req, custom);
  }

  /**
   * When term_set() fails on a terminal it has just added, it takes slot 0 out of the table. That
   * leaves the managed descriptors as they were exactly when slot 0 had been the free one.
   */
  lemma {:induction false} SetNewFails(w: World, fd: int, req: Request, custom: bool)
    requires Inv(w) && fd != -1 && Find(w, fd) < 0 && Add(w, fd).err == EOK && !Acceptable(req, custom)
    ensures var v := Set(w, fd, req, custom).w;
            && |v.slots| == |w.slots|
            && ((forall k | 0 <= k < |w.slots| :: v.slots[k].fd == w.slots[k].fd) <==> w.slots[0].fd == -1)
            && (w.slots[0].fd != -1 ==> Managed(v, fd) && !Managed(v, w.slots[0].fd))
  {
    hide TrySet, Acceptable;
    var free := FindFrom(w.slots, -1, 0);
    var a := Add(w, fd).w;
    AddKeepsInv(w, fd);
    var k := Find(a, fd);
    assert a.slots[free].fd == fd;
    assert k == free;
    TrySetSucceeds(a.slots[k].next, req, custom);
    var v := Set(w, fd, req, custom).w;
    if free != 0 {
      assert v.slots[free].fd == fd && v.slots[0].fd == -1;
    }
  }

  /** So it goes with the second of two terminals: the first is let go of without being restored, the second stays. */
  lemma {:induction false} SecondSetLosesFirst(w0: World, a: int, b: int, req: Request, custom: bool)
    requires |w0.slots| == MAX_TERMS && -1 !in w0.attrs && !w0.init && w0.script == []
    requires forall fd | fd in w0.attrs :: Unmarked(w0.attrs[fd])
    requires a in w0.attrs && b in w0.attrs && a != b && !Acceptable(req, custom)
    ensures var w1 := Add(LibInit(w0).w, a);
            var w2 := Set(w1.w, b, req, custom);
            w1.err == EOK && Managed(w1.w, a) && w2.err != EOK && !Managed(w2.w, a) && Managed(w2.w, b)
  {
    hide TrySet, Acceptable, FindFrom;
    InitStarts(w0);
    var w := LibInit(w0).w;
    FirstFree(w.slots);
    AddKeepsInv(w, a);
    var w1 := Add(w, a).w;
    assert w1.slots[0].fd == a;
    assert w1.slots[1].fd == -1;
    FoundNowhere(w1, b);
    SomewhereFree(w1.slots, 1);
    assert Add(w1, b).err == EOK;
    SetNewFails(w1, b, req, custom);
    TrySetSucceeds(w1.slots[0].next, req, custom);
    SetFailsNew(w1, b, req, custom);
  }

  lemma FirstFree(slots: seq<Slot>)
    requires slots != [] && slots[0].fd == -1
    ensures FindFrom(slots, -1, 0) == 0
  {
  }

  lemma SomewhereFree(slots: seq<Slot>, i: nat)
    requires i < |slots| && slots[i].fd == -1
    ensures FindFrom(slots, -1, 0) >= 0
  {
  }

  lemma FoundNowhere(w: World, fd: int)
    requires forall k | 0 <= k < |w.slots| :: w.slots[k].fd != fd
    ensures Find(w, fd) == -1
  {
  }

  lemma SetFailsNew(w: World, fd: int, req: Request, custom: bool)
    requires Find(w, fd) < 0 && Add(w, fd).err == EOK && !Acceptable(req, custom)
    ensures Set(w, fd, req, custom).err != EOK
  {
    hide TrySet, Acceptable, Add;
    AddFinds(w, fd);
    var v := Add(w, fd).w;
    TrySetSucceeds(v.slots[Find(v, fd)].next, req, custom);
  }
}
