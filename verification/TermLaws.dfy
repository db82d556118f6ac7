/** The calls of term.cpp one by one: what fails, what a failure leaves, and what each device call is for. */
module TermLaws {
  import opened Termios
  import opened TermTable
  import opened TermiosLaws

  /** Whether the `k`-th coming call on a device that is a terminal works. */
  predicate Works(w: World, k: nat) {
    k < |w.script| ==> w.script[k]
  }

  /** The world after `k` calls on devices. */
  predicate Made(w: World, v: World, k: nat) {
    v.script == if k <= |w.script| then w.script[k..] else []
  }

  /** What the device makes of settings. */
  function Stored(w: World, t: Termios): Termios {
    var s := w.store(t);
    s.(iflag := s.iflag - {31})
  }

  /** term_add(): every error has its exact condition, none changes the table, and what a new slot holds. */
  lemma {:induction false} AddOutcome(w: World, fd: int)
    requires Inv(w)
    ensures var r := Add(w, fd);
            && r.w.attrs == w.attrs && r.w.init == w.init
            && (if w.init && exists k | 0 <= k < 16 :: w.slots[k].fd == fd then r == Done(w, EEXISTS)
                else if fd !in w.attrs then r == Done(w, EISATTY)
                else if !w.init then r == Done(w, ENOINIT)
                else if forall k | 0 <= k < 16 :: w.slots[k].fd != -1 then r == Done(w, EFULL)
                else if !Works(w, 0) then r.err == EGETATTR && r.w.slots == w.slots && Made(w, r.w, 1)
                else r.err == EOK && Made(w, r.w, 1)
                     && exists k | 0 <= k < 16 ::
                          && w.slots[k].fd == -1 && (forall j | 0 <= j < k :: w.slots[j].fd != -1)
                          && r.w.slots[k].fd == fd && (forall j | 0 <= j < 16 && j != k :: r.w.slots[j] == w.slots[j])
                          && r.w.slots[k].curr == r.w.slots[k].next == r.w.slots[k].orig == w.attrs[fd])
  {
    var i := Find(w, fd);
    var free := FindFrom(w.slots, -1, 0);
    if i < 0 && w.init && fd in w.attrs && free >= 0 && Works(w, 0) {
      assert Add(w, fd).w.slots[free].fd == fd && w.slots[free].fd == -1;
    }
  }

  /** Only a managed terminal of an initialized library can be worked on. */
  lemma {:induction false} NeedsManaged(w: World, fd: int, newfd: int, f: Termios -> Termios)
    requires !w.init || forall k | 0 <= k < |w.slots| :: w.slots[k].fd != fd
    ensures var no := Done(w, if w.init then ENOTFOUND else ENOINIT);
            && Remove(w, fd) == no && Erase(w, fd) == no && Replace(w, fd, newfd) == no && Reset(w, fd) == no
            && Revert(w, fd) == no && Refresh(w, fd) == no && Apply(w, fd) == no && FakeFlush(w, fd) == no
            && Drain(w, fd) == no && Flush(w, fd) == no && Edit(w, fd, f) == no
  {
  }

  /** The calls that do not touch the device, on the terminal in slot `i`. */
  lemma {:induction false} QuietCalls(w: World, fd: int, i: nat, f: Termios -> Termios)
    requires Inv(w) && w.init && fd != -1 && i < |w.slots| && w.slots[i].fd == fd
    ensures var s := w.slots[i];
            && Erase(w, fd) == Done(w.(slots := w.slots[i := s.(fd := -1)]), EOK)
            && Revert(w, fd) == Done(w.(slots := w.slots[i := s.(next := s.curr)]), EOK)
            && Edit(w, fd, f) == Done(w.(slots := w.slots[i := s.(next := f(s.next))]), EOK)
  {
    FoundAt(w, fd, i);
  }

  /** term_refresh(): the settings in force are read from the device, and nothing is chosen for it. */
  lemma {:induction false} RefreshOutcome(w: World, fd: int, i: nat)
    requires Inv(w) && w.init && fd != -1 && i < |w.slots| && w.slots[i].fd == fd
    ensures var r := Refresh(w, fd);
            && r.w == w.(script := r.w.script, attrs := r.w.attrs, slots := r.w.slots)
            && r.err == (if Works(w, 0) then EOK else EGETATTR) && Made(w, r.w, 1) && r.w.attrs == w.attrs
            && r.w.slots == w.slots[i := w.slots[i].(curr := if Works(w, 0) then w.attrs[fd] else w.slots[i].curr)]
  {
    FoundAt(w, fd, i);
  }

  /** term_apply(): what was chosen is stored, then read back; a failure records nothing. */
  lemma {:induction false} ApplyOutcome(w: World, fd: int, i: nat)
    requires Inv(w) && w.init && fd != -1 && i < |w.slots| && w.slots[i].fd == fd
    ensures var r, t := Apply(w, fd), Stored(w, w.slots[i].next);
            && r.w == w.(script := r.w.script, attrs := r.w.attrs, slots := r.w.slots)
            && r.err == (if !Works(w, 0) then ESETATTR else if !Works(w, 1) then EGETATTR else EOK)
            && Made(w, r.w, if Works(w, 0) then 2 else 1)
            && r.w.attrs == (if Works(w, 0) then w.attrs[fd := t] else w.attrs)
            && (r.err != EOK ==> r.w.slots == w.slots)
            && (r.err == EOK ==>
                  var s := r.w.slots[i];
                  && s.fd == fd && s.curr == s.next == t && r.w.slots == w.slots[i := s]
                  && (10 in s.orig.cflag <==> 10 in t.cflag)
                  && s.orig == w.slots[i].orig.(cflag := s.orig.cflag)
                  && s.orig.cflag - {10} == w.slots[i].orig.cflag - {10})
  {
    FoundAt(w, fd, i);
  }

  /** term_reset(): the original settings are stored, then read back as the ones in force and to apply. */
  lemma {:induction false} ResetOutcome(w: World, fd: int, i: nat)
    requires Inv(w) && w.init && fd != -1 && i < |w.slots| && w.slots[i].fd == fd
    ensures var r, t := Reset(w, fd), Stored(w, w.slots[i].orig);
            var stored := Works(w, 0) && Works(w, 1);
            && r.w == w.(script := r.w.script, attrs := r.w.attrs, slots := r.w.slots)
            && r.err == (if !Works(w, 0) then EFLUSH else if !Works(w, 1) then ESETATTR
                         else if !Works(w, 2) then EGETATTR else EOK)
            && Made(w, r.w, if !Works(w, 0) then 1 else if !Works(w, 1) then 2 else 3)
            && r.w.attrs == (if stored then w.attrs[fd := t] else w.attrs)
            && r.w.slots == if r.err == EOK then w.slots[i := w.slots[i].(curr := t, next := t)] else w.slots
  {
    FoundAt(w, fd, i);
  }

  /** term_remove(): the slot is given up, whether or not the device could be flushed and set back. */
  lemma {:induction false} RemoveOutcome(w: World, fd: int, i: nat)
    requires Inv(w) && w.init && fd != -1 && i < |w.slots| && w.slots[i].fd == fd
    ensures var r, t := Remove(w, fd), Stored(w, w.slots[i].orig);
            && r.w == w.(script := r.w.script, attrs := r.w.attrs, slots := r.w.slots)
            && r.err == (if !Works(w, 0) then EFLUSH else if !Works(w, 1) then ESETATTR else EOK)
            && Made(w, r.w, if Works(w, 0) then 2 else 1)
            && r.w.attrs == (if r.err == EOK then w.attrs[fd := t] else w.attrs)
            && r.w.slots == w.slots[i := w.slots[i].(fd := -1)]
  {
    FoundAt(w, fd, i);
  }

  /** term_replace(): the settings in force are stored in another device, which then has the slot. */
  lemma {:induction false} ReplaceOutcome(w: World, fd: int, i: nat, newfd: int)
    requires Inv(w) && w.init && fd != -1 && i < |w.slots| && w.slots[i].fd == fd && newfd in w.attrs
    ensures var r, t := Replace(w, fd, newfd), Stored(w, w.slots[i].curr);
            && r.w == w.(script := r.w.script, attrs := r.w.attrs, slots := r.w.slots)
            && r.err == (if !Works(w, 0) then ESETATTR else if !Works(w, 1) then EGETATTR else EOK)
            && Made(w, r.w, if Works(w, 0) then 2 else 1)
            && r.w.attrs == (if Works(w, 0) then w.attrs[newfd := t] else w.attrs)
            && r.w.slots == if r.err == EOK then w.slots[i := w.slots[i].(fd := newfd, curr := t)] else w.slots
  {
    FoundAt(w, fd, i);
  }

  /** term_drain() and term_flush() ask the device once and record nothing. */
  lemma {:induction false} DrainOutcome(w: World, fd: int, i: nat)
    requires Inv(w) && w.init && fd != -1 && i < |w.slots| && w.slots[i].fd == fd
    ensures var r := Drain(w, fd);
            && r.err == (if Works(w, 0) then EOK else EDRAIN)
            && r.w == w.(script := r.w.script) && Made(w, r.w, 1)
    ensures var r := Flush(w, fd);
            && r.err == (if Works(w, 0) then EOK else EFLUSH)
            && r.w == w.(script := r.w.script) && Made(w, r.w, 1)
  {
    FoundAt(w, fd, i);
  }

  lemma NoFlow(t: Termios)
    ensures WithFlow(t.cflag, FC_NONE) == t.cflag - {31} && WithXon(t.iflag, FC_NONE) == t.iflag - {10, 11, 12}
  {
  }

  lemma IsStored(w: World, t: Termios)
    ensures Unmark(w.store(t)) == Stored(w, t)
  {
  }

  /** term_fake_flush(): four calls on the device, up to the first that fails; the first tells what is in force. */
  lemma {:induction false} FakeFlushCalls(w: World, fd: int, i: nat)
    requires Inv(w) && w.init && fd != -1 && i < |w.slots| && w.slots[i].fd == fd
    ensures var r := FakeFlush(w, fd);
            && r.w == w.(script := r.w.script, attrs := r.w.attrs, slots := r.w.slots)
            && r.err == (if !Works(w, 0) then EGETATTR else if !Works(w, 1) then ESETATTR
                         else if !Works(w, 2) then EDRAIN else if !Works(w, 3) then ESETATTR else EOK)
            && Made(w, r.w, if !Works(w, 0) then 1 else if !Works(w, 1) then 2 else if !Works(w, 2) then 3 else 4)
            && r.w.slots == if Works(w, 0) then w.slots[i := w.slots[i].(curr := w.attrs[fd])] else w.slots
  {
    FoundAt(w, fd, i);
    hide FindFrom, Find, WithFlow, WithXon, Unmark;
  }

  /**
   * The device is drained with flow control off, and set as it was; should it not drain, it is left with
   * flow control off.
   */
  lemma {:induction false} FakeFlushOutcome(w: World, fd: int, i: nat)
    requires Inv(w) && w.init && fd != -1 && i < |w.slots| && w.slots[i].fd == fd
    ensures var t := w.attrs[fd];
            var none := t.(cflag := t.cflag - {31}, iflag := t.iflag - {10, 11, 12});
            FakeFlush(w, fd).w.attrs ==
              if !Works(w, 0) || !Works(w, 1) then w.attrs
              else if !Works(w, 2) || !Works(w, 3) then w.attrs[fd := Stored(w, none)]
              else w.attrs[fd := Stored(w, t)]
  {
    FoundAt(w, fd, i);
    assert fd in w.attrs;
    hide FindFrom, Find, Inv, WithFlow, WithXon, Unmark;
    var t := w.attrs[fd];
    var none := t.(cflag := t.cflag - {31}, iflag := t.iflag - {10, 11, 12});
    NoFlow(t);
    IsStored(w, t);
    IsStored(w, none);
    assert w.attrs[fd := Stored(w, none)][fd := Stored(w, t)] == w.attrs[fd := Stored(w, t)];
  }

  /**
   * One terminal at exit: it is drained, unless the library is only being initialized again, flushed,
   * and set to its original settings, even if it could be neither drained nor flushed; its slot is free.
   */
  lemma {:induction false} RestoreOutcome(w: World, i: nat, drain: bool)
    requires Inv(w) && w.init && i < |w.slots| && w.slots[i].fd != -1
    ensures var v, fd, k := RestoreOne(w, i, drain), w.slots[i].fd, if drain then 2 else 1;
            && Made(w, v, k + 1) && v.slots == w.slots[i := w.slots[i].(fd := -1)]
            && v.attrs == if Works(w, k) then w.attrs[fd := Stored(w, w.slots[i].orig)] else w.attrs
  {
    FoundAt(w, w.slots[i].fd, i);
  }

  /** What term_set() accepts: a standard rate, or any positive one if the system has custom rates, and so on. */
  lemma {:induction false} AcceptableMeans(req: Request, custom: bool)
    ensures Acceptable(req, custom) <==>
            && (req.baud in SPEEDS || (custom && req.baud > 0))
            && !req.parity.P_ERROR? && req.databits in {5, 6, 7, 8} && req.stopbits in {1, 2}
            && !req.flow.FC_OTHER? && !req.flow.FC_ERROR?
  {
    hide SPEEDS, CodeFrom;
    RateAccepted(req.baud, custom);
  }

  lemma {:induction false} RateAccepted(baud: int, custom: bool)
    ensures BaudOk(baud, custom) <==> baud in SPEEDS || (custom && baud > 0)
  {
    hide SPEEDS, CodeFrom;
    CodesOfSpeeds(baud);
    if baud in SPEEDS {
      var i :| 0 <= i < |SPEEDS| && SPEEDS[i] == baud;
      assert CodeOf(SPEEDS[i]) >= 0;
    }
  }

  /** The error of term_set() on a managed terminal is that of the first argument that is not accepted. */
  lemma {:induction false} SetErrors(w: World, fd: int, i: nat, req: Request, custom: bool)
    requires Inv(w) && w.init && fd != -1 && i < |w.slots| && w.slots[i].fd == fd
    ensures Set(w, fd, req, custom).err ==
            if req.baud !in SPEEDS && !(custom && req.baud > 0) then if custom then ESETOSPEED else EBAUD
            else if req.parity.P_ERROR? then EPARITY
            else if req.databits !in {5, 6, 7, 8} then EDATABITS
            else if req.stopbits !in {1, 2} then ESTOPBITS
            else if req.flow.FC_OTHER? || req.flow.FC_ERROR? then EFLOW
            else EOK
  {
    FoundAt(w, fd, i);
    hide SPEEDS, CodeFrom, FindFrom, WithParity, WithDatabits, WithStopbits, WithFlow, WithXon, SetBaudrate;
    RateAccepted(req.baud, custom);
  }

  /** A terminal that is not managed is added first, if it can be; then it is the same as for any other. */
  lemma {:induction false} SetAdds(w: World, fd: int, req: Request, custom: bool)
    requires Inv(w) && fd != -1 && Find(w, fd) < 0
    ensures var a, r := Add(w, fd), Set(w, fd, req, custom);
            if a.err != EOK then r == a
            else
              && r.err == TrySet(w.attrs[fd], req, custom).err && r.w == a.w.(slots := r.w.slots)
              && (Acceptable(req, custom) ==>
                    && r.err == EOK && Find(r.w, fd) >= 0
                    && r.w.slots == a.w.slots[Find(r.w, fd) := r.w.slots[Find(r.w, fd)]]
                    && r.w.slots[Find(r.w, fd)] == a.w.slots[Find(r.w, fd)].(next := SetAll(w.attrs[fd], req, custom)))
  {
    hide TrySet, Acceptable, SetAll;
    if Add(w, fd).err == EOK {
      var free := FindFrom(w.slots, -1, 0);
      var a := Add(w, fd).w;
      AddKeepsInv(w, fd);
      FoundAt(a, fd, free);
      var t := a.slots[free].next;
      TrySetSucceeds(t, req, custom);
      NextAgain(a, fd, TrySet(t, req, custom).t, t);
    }
  }

  /** The first initialization: it fails only if the exit function cannot be registered, and manages nothing. */
  lemma InitOutcome(w: World)
    requires !w.init
    ensures var r := LibInit(w);
            && r.err == (if Works(w, 0) then EOK else EATEXIT) && r.w.init == Works(w, 0)
            && Made(w, r.w, 1) && r.w.attrs == w.attrs && |r.w.slots| == |w.slots|
            && forall k | 0 <= k < |w.slots| :: r.w.slots[k].fd == -1
  {
  }

  /** How many calls on devices restoring the slots from `i` up to `k` takes, with so many for each one in use. */
  function CallsBefore(slots: seq<Slot>, i: nat, k: nat, each: nat): nat
    requires i <= k <= |slots|
    decreases k - i
  {
    if i == k then 0 else (if slots[i].fd != -1 then each else 0) + CallsBefore(slots, i + 1, k, each)
  }

  /**
   * However the devices fail at exit, or when the library is initialized again: every managed terminal is
   * set to its original settings exactly if its own tcsetattr() works, whatever became of the others and
   * of draining and flushing it; otherwise it is as it was.
   */
  lemma {:induction false} RestoresEach(w: World, i: nat, drain: bool, k: nat)
    requires Inv(w) && w.init && i <= k < |w.slots| && w.slots[k].fd != -1
    ensures var v, fd, each := RestoreFrom(w, i, drain), w.slots[k].fd, if drain then 3 else 2;
            && fd in v.attrs
            && v.attrs[fd] == if Works(w, CallsBefore(w.slots, i, k, each) + each - 1) then Stored(w, w.slots[k].orig)
                              else w.attrs[fd]
    decreases k - i
  {
    hide RestoreOne, Stored, Inv;
    var each := if drain then 3 else 2;
    HoldsDevice(w, k);
    if w.slots[i].fd == -1 {
      RestoresEach(w, i + 1, drain, k);
    } else {
      var u := RestoreOne(w, i, drain);
      RestoreOutcome(w, i, drain);
      RestoreOneKeepsInv(w, i, drain);
      RestoreOneDoes(w, i, drain);
      SameDevices(w, i, drain);
      if i == k {
        OnlyOnce(w, i);
        LeavesAlone(u, i + 1, drain, w.slots[i].fd);
      } else {
        OnlyOnce(w, i);
        RestoresEach(u, i + 1, drain, k);
        SameCalls(w.slots, u.slots, i + 1, k, each);
        StoredAlike(w, u, w.slots[k].orig);
      }
    }
  }

  lemma HoldsDevice(w: World, k: nat)
    requires Inv(w) && k < |w.slots| && w.slots[k].fd != -1
    ensures w.slots[k].fd in w.attrs
  {
  }

  lemma OnlyOnce(w: World, i: nat)
    requires Inv(w) && i < |w.slots| && w.slots[i].fd != -1
    ensures forall k | 0 <= k < |w.slots| && k != i :: w.slots[k].fd != w.slots[i].fd
  {
  }

  lemma SameDevices(w: World, i: nat, drain: bool)
    requires i < |w.slots|
    ensures RestoreOne(w, i, drain).store == w.store
  {
  }

  lemma StoredAlike(w: World, u: World, t: Termios)
    requires u.store == w.store
    ensures Stored(u, t) == Stored(w, t)
  {
  }

  lemma {:induction false} SameCalls(a: seq<Slot>, b: seq<Slot>, i: nat, k: nat, each: nat)
    requires |a| == |b| && i <= k <= |a| && forall j | i <= j < k :: a[j].fd == b[j].fd
    ensures CallsBefore(a, i, k, each) == CallsBefore(b, i, k, each)
    decreases k - i
  {
    if i < k { SameCalls(a, b, i + 1, k, each); }
  }

  lemma Continued(w: World, v: World, a: nat, u: World, b: nat)
    requires Made(w, v, a) && Made(v, u, b)
    ensures Made(w, u, a + b)
  {
  }

  lemma WorkOn(w: World, v: World, a: nat, n: nat)
    requires Made(w, v, a) && forall k | 0 <= k < a + n :: Works(w, k)
    ensures forall k | 0 <= k < n :: Works(v, k)
  {
    forall k | 0 <= k < n ensures Works(v, k) { assert Works(w, a + k); }
  }

  /** One call after another on a device that is willing. */
  lemma {:induction false} ThenDrains(w: World, tty: int, i: nat, n: nat)
    requires Inv(w) && w.init && tty != -1 && i < |w.slots| && w.slots[i].fd == tty
    requires n >= 1 && forall k | 0 <= k < n :: Works(w, k)
    ensures var d := Drain(w, tty).w;
            && Made(w, d, 1) && Inv(d) && d == w.(script := d.script) && forall k | 0 <= k < n - 1 :: Works(d, k)
    ensures var d := Flush(w, tty).w;
            && Made(w, d, 1) && Inv(d) && d == w.(script := d.script) && forall k | 0 <= k < n - 1 :: Works(d, k)
  {
    hide Works, Made, Drain, Flush, Inv;
    DrainOutcome(w, tty, i);
    DrainKeepsInv(w, tty);
    WorkOn(w, Drain(w, tty).w, 1, n - 1);
    WorkOn(w, Flush(w, tty).w, 1, n - 1);
  }

  lemma {:induction false} ThenFakeFlushes(w: World, tty: int, i: nat, n: nat)
    requires Inv(w) && w.init && tty != -1 && i < |w.slots| && w.slots[i].fd == tty
    requires n >= 4 && forall k | 0 <= k < n :: Works(w, k)
    ensures var d := FakeFlush(w, tty).w;
            && Made(w, d, 4) && Inv(d) && d.init && |d.slots| == |w.slots| && d.slots[i].fd == tty
            && forall k | 0 <= k < n - 4 :: Works(d, k)
  {
    hide Works, Made, FakeFlush, Inv;
    FakeFlushCalls(w, tty, i);
    FakeFlushKeepsInv(w, tty);
    WorkOn(w, FakeFlush(w, tty).w, 4, n - 4);
  }

  /** cleanup() asks the device that often: it drains only if told to, and fakes a flush only under flow control. */
  lemma {:induction false} CleanupCalls(w: World, tty: int, i: nat, drain: bool, noreset: bool, hup: bool, flow: Flow)
    requires Inv(w) && w.init && tty != -1 && i < |w.slots| && w.slots[i].fd == tty
    requires forall k | 0 <= k < 8 :: Works(w, k)
    ensures var n := (if drain then 1 else 0) + 1 + (if flow != FC_NONE then 4 else 0) + 2;
            Made(w, Cleanup(w, tty, drain, noreset, hup, flow), n)
  {
    hide Drain, Flush, FakeFlush, Apply, Inv, Find, Works, Made;
    var a, b := if drain then 1 else 0, if flow != FC_NONE then 4 else 0;
    ThenDrains(w, tty, i, 8);
    var w0 := if drain then Drain(w, tty).w else w;
    ThenDrains(w0, tty, i, 7);
    var w1 := Flush(w0, tty).w;
    ThenFakeFlushes(w1, tty, i, 6);
    var w2 := if flow != FC_NONE then FakeFlush(w1, tty).w else w1;
    NoneMade(w);
    NoneMade(w1);
    Continued(w, w0, a, w1, 1);
    Continued(w, w1, a + 1, w2, b);
    CleanupEnds(w2, tty, i, noreset, hup);
    var w3 := Edit(w2, tty, t => SetHup(t, !noreset || hup)).w;
    var w4 := Apply(w3, tty).w;
    Continued(w, w2, a + 1 + b, w4, 2);
    EraseAsksNothing(w4, tty);
    Continued(w, w4, a + 1 + b + 2, Erase(w4, tty).w, 0);
  }

  lemma NoneMade(w: World)
    ensures Made(w, w, 0)
  {
  }

  lemma EraseAsksNothing(w: World, tty: int)
    ensures Made(w, Erase(w, tty).w, 0)
  {
  }

  lemma {:induction false} CleanupEnds(w: World, tty: int, i: nat, noreset: bool, hup: bool)
    requires Inv(w) && w.init && tty != -1 && i < |w.slots| && w.slots[i].fd == tty
    requires Works(w, 0) && Works(w, 1)
    ensures Made(w, Apply(Edit(w, tty, t => SetHup(t, !noreset || hup)).w, tty).w, 2)
  {
    hide Apply, Inv, Made;
    var f: Termios -> Termios := t => SetHup(t, !noreset || hup);
    QuietCalls(w, tty, i, f);
    EditsKeepInv(w, tty, f);
    var w3 := Edit(w, tty, f).w;
    SameScript(w, w3);
    ApplyOutcome(w3, tty, i);
    Continued(w, w3, 0, Apply(w3, tty).w, 2);
    assert w3 == Edit(w, tty, t => SetHup(t, !noreset || hup)).w;
  }

  lemma SameScript(w: World, v: World)
    requires v.script == w.script
    ensures Made(w, v, 0) && forall k: nat :: Works(v, k) == Works(w, k)
  {
  }
}
