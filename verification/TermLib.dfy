/** The terminal settings library itself, term.cpp, over arrays that are changed in place. */
module TermLib {
  import opened Termios
  import S = Termios
  import T = TermTable

  class Term {
    // The devices: what they hold, which of the coming calls succeed, and what they make of settings.
    var attrs: map<int, Termios>
    var script: seq<bool>
    const store: Termios -> Termios

    var init: bool
    const fd: array<int>
    const orig: array<Termios>
    const curr: array<Termios>
    const next: array<Termios>
    var termErrno: T.Error
    const custom: bool

    /** The table as a value, with what each slot has captured. */
    ghost var slots: seq<T.Slot>

    ghost predicate Valid()
      reads this, fd, orig, curr, next
    {
      && fd.Length == orig.Length == curr.Length == next.Length == |slots| == T.MAX_TERMS
      && orig != curr && orig != next && curr != next
      && forall i | 0 <= i < |slots| ::
           slots[i].fd == fd[i] && slots[i].orig == orig[i] && slots[i].curr == curr[i] && slots[i].next == next[i]
    }

    ghost function World(): T.World
      reads this
    {
      T.World(init, slots, attrs, script, store)
    }

    /** The call has done what `d` says, and reports it: 0, or -1 and an error number. */
    ghost predicate Reports(r: int, d: T.Done)
      reads this
    {
      World() == d.w && if d.err == T.EOK then r == 0 else r == -1 && termErrno == d.err
    }

    constructor (attrs: map<int, Termios>, script: seq<bool>, store: Termios -> Termios, custom: bool)
      ensures Valid() && !init && fresh(fd) && fresh(orig) && fresh(curr) && fresh(next)
      ensures this.attrs == attrs && this.script == script && this.store == store && this.custom == custom
    {
      this.attrs, this.script, this.store, this.custom := attrs, script, store, custom;
      init, termErrno := false, T.EOK;
      fd := new int[T.MAX_TERMS];
      orig, curr, next := new Termios[T.MAX_TERMS], new Termios[T.MAX_TERMS], new Termios[T.MAX_TERMS];
      new;
      var f, o, c, n := fd, orig, curr, next;
      slots := seq(T.MAX_TERMS, i requires 0 <= i < T.MAX_TERMS reads f, o, c, n =>
                     T.Slot(f[i], o[i], c[i], n[i], o[i], false));
    }

    // -------------------------------------------------------------------
    // Devices
    // -------------------------------------------------------------------

    method Answer() returns (ok: bool)
      modifies `script
      ensures ok == T.Willing(old(World())) && World() == T.Asked(old(World()))
    {
      ok := script == [] || script[0];
      script := if script == [] then [] else script[1..];
    }

    method Call(f: int) returns (ok: bool)
      modifies `script
      ensures var d := T.Call(old(World()), f); World() == d.w && ok == d.ok
    {
      ok := Answer();
      ok := ok && f in attrs;
    }

    method TcSetAttr(f: int, t: Termios) returns (ok: bool)
      modifies `script, `attrs
      ensures var d := T.TcSet(old(World()), f, t); World() == d.w && ok == d.ok
    {
      ok := Answer();
      ok := ok && f in attrs;
      if ok { attrs := attrs[f := T.Unmark(store(t))]; }
    }

    method TcGetAttr(f: int) returns (t: T.Option<Termios>)
      modifies `script
      ensures var d := T.TcGet(old(World()), f); World() == d.w && t == d.t
    {
      var ok := Answer();
      t := if ok && f in attrs then T.Some(attrs[f]) else T.None;
    }

    // -------------------------------------------------------------------
    // The table
    // -------------------------------------------------------------------

    method Find(f: int) returns (r: int)
      requires Valid()
      modifies `termErrno
      ensures r == T.Find(World(), f)
      ensures termErrno == if r < 0 then T.NotFound(World()).err else old(termErrno)
    {
      if !init {
        termErrno := T.ENOINIT;
        return -1;
      }
      var i := 0;
      while i < T.MAX_TERMS && fd[i] != f
        invariant i <= T.MAX_TERMS && T.FindFrom(slots, f, i) == T.FindFrom(slots, f, 0)
      {
        i := i + 1;
      }
      if i == T.MAX_TERMS {
        termErrno := T.ENOTFOUND;
        return -1;
      }
      r := i;
    }

    method FindNextFree() returns (r: int)
      requires Valid()
      modifies `termErrno
      ensures r == if init then T.FindFrom(slots, -1, 0) else -1
      ensures r < 0 ==> termErrno == if init then T.EFULL else T.ENOINIT
    {
      if !init {
        termErrno := T.ENOINIT;
        return -1;
      }
      var i := 0;
      while i < T.MAX_TERMS && fd[i] != -1
        invariant i <= T.MAX_TERMS && T.FindFrom(slots, -1, i) == T.FindFrom(slots, -1, 0)
      {
        i := i + 1;
      }
      if i == T.MAX_TERMS {
        termErrno := T.EFULL;
        return -1;
      }
      r := i;
    }

    method Add(f: int) returns (r: int)
      requires Valid()
      modifies this, fd, orig, curr, next
      ensures Valid() && Reports(r, T.Add(old(World()), f))
    {
      hide T.FindFrom;
      var i := Find(f);
      if i >= 0 {
        termErrno := T.EEXISTS;
        return -1;
      }
      if f !in attrs {
        termErrno := T.EISATTY;
        return -1;
      }
      i := FindNextFree();
      if i < 0 { return -1; }
      var t := TcGetAttr(f);
      if t.None? {
        termErrno := T.EGETATTR;
        return -1;
      }
      orig[i], curr[i], next[i], fd[i] := t.value, t.value, t.value, f;
      slots := slots[i := T.Slot(f, t.value, t.value, t.value, t.value, HUPCL in t.value.cflag)];
      r := 0;
    }

    /** Take the terminal out of its slot. */
    method Free(i: nat)
      requires Valid() && i < T.MAX_TERMS
      modifies `slots, fd
      ensures Valid() && slots == old(slots)[i := old(slots[i]).(fd := -1)]
    {
      fd[i] := -1;
      slots := slots[i := slots[i].(fd := -1)];
    }

    method PutCurr(i: nat, t: Termios)
      requires Valid() && i < T.MAX_TERMS
      modifies `slots, curr
      ensures Valid() && slots == old(slots)[i := old(slots[i]).(curr := t)]
      ensures curr[i] == t
    {
      curr[i] := t;
      slots := slots[i := slots[i].(curr := t)];
    }

    method Remove(f: int) returns (r: int)
      requires Valid()
      modifies this, fd
      ensures Valid() && Reports(r, T.Remove(old(World()), f))
    {
      hide T.Find, T.TcSet, T.TcGet, T.Call;
      var i := Find(f);
      if i < 0 { return -1; }
      r := 0;
      var ok := Call(fd[i]);
      if !ok {
        termErrno, r := T.EFLUSH, -1;
      } else {
        ok := TcSetAttr(fd[i], orig[i]);
        if !ok { termErrno, r := T.ESETATTR, -1; }
      }
      Free(i);
    }

    method Erase(f: int) returns (r: int)
      requires Valid()
      modifies this, fd
      ensures Valid() && Reports(r, T.Erase(old(World()), f))
    {
      hide T.FindFrom;
      var i := Find(f);
      if i < 0 { return -1; }
      Free(i);
      r := 0;
    }

    method Replace(oldfd: int, newfd: int) returns (r: int)
      requires Valid()
      modifies this, fd, curr
      ensures Valid() && Reports(r, T.Replace(old(World()), oldfd, newfd))
    {
      hide T.Find, T.TcSet, T.TcGet, T.Call;
      var i := Find(oldfd);
      if i < 0 { return -1; }
      var ok := TcSetAttr(newfd, curr[i]);
      if !ok {
        termErrno := T.ESETATTR;
        return -1;
      }
      var t := TcGetAttr(newfd);
      if t.None? {
        termErrno := T.EGETATTR;
        return -1;
      }
      curr[i], fd[i] := t.value, newfd;
      slots := slots[i := slots[i].(curr := t.value, fd := newfd)];
      r := 0;
    }

    method Reset(f: int) returns (r: int)
      requires Valid()
      modifies this, curr, next
      ensures Valid() && Reports(r, T.Reset(old(World()), f))
    {
      hide T.Find, T.TcSet, T.TcGet, T.Call;
      var i := Find(f);
      if i < 0 { return -1; }
      var ok := Call(fd[i]);
      if !ok {
        termErrno := T.EFLUSH;
        return -1;
      }
      ok := TcSetAttr(fd[i], orig[i]);
      if !ok {
        termErrno := T.ESETATTR;
        return -1;
      }
      var t := TcGetAttr(fd[i]);
      if t.None? {
        termErrno := T.EGETATTR;
        return -1;
      }
      curr[i] := t.value;
      next[i] := curr[i];
      slots := slots[i := slots[i].(curr := t.value, next := t.value)];
      r := 0;
    }

    method Revert(f: int) returns (r: int)
      requires Valid()
      modifies this, next
      ensures Valid() && Reports(r, T.Revert(old(World()), f))
    {
      hide T.FindFrom;
      var i := Find(f);
      if i < 0 { return -1; }
      next[i] := curr[i];
      slots := slots[i := slots[i].(next := slots[i].curr)];
      r := 0;
    }

    method Refresh(f: int) returns (r: int)
      requires Valid()
      modifies this, curr
      ensures Valid() && Reports(r, T.Refresh(old(World()), f))
    {
      hide T.FindFrom;
      var i := Find(f);
      if i < 0 { return -1; }
      var t := TcGetAttr(f);
      if t.None? {
        termErrno := T.EGETATTR;
        return -1;
      }
      PutCurr(i, t.value);
      r := 0;
    }

    method Apply(f: int) returns (r: int)
      requires Valid()
      modifies this, orig, curr, next
      ensures Valid() && Reports(r, T.Apply(old(World()), f))
    {
      hide T.Find, T.TcSet, T.TcGet, T.Call;
      var i := Find(f);
      if i < 0 { return -1; }
      var ok := TcSetAttr(fd[i], next[i]);
      if !ok {
        termErrno := T.ESETATTR;
        return -1;
      }
      var t := TcGetAttr(fd[i]);
      if t.None? {
        termErrno := T.EGETATTR;
        return -1;
      }
      next[i] := t.value;
      curr[i] := next[i];
      if HUPCL in curr[i].cflag {
        orig[i] := orig[i].(cflag := orig[i].cflag + {HUPCL});
      } else {
        orig[i] := orig[i].(cflag := orig[i].cflag - {HUPCL});
      }
      slots := slots[i := slots[i].(next := t.value, curr := t.value, hup := HUPCL in t.value.cflag,
                                    orig := T.SetHup(slots[i].orig, HUPCL in t.value.cflag))];
      r := 0;
    }

    method Drain(f: int) returns (r: int)
      requires Valid()
      modifies `script, `termErrno
      ensures Valid() && Reports(r, T.Drain(old(World()), f))
    {
      hide T.FindFrom;
      var i := Find(f);
      if i < 0 { return -1; }
      var ok := Call(f);
      if !ok {
        termErrno := T.EDRAIN;
        return -1;
      }
      r := 0;
    }

    method Flush(f: int) returns (r: int)
      requires Valid()
      modifies `script, `termErrno
      ensures Valid() && Reports(r, T.Flush(old(World()), f))
    {
      hide T.FindFrom;
      var i := Find(f);
      if i < 0 { return -1; }
      var ok := Call(f);
      if !ok {
        termErrno := T.EFLUSH;
        return -1;
      }
      r := 0;
    }

    method FakeFlush(f: int) returns (r: int)
      requires Valid()
      modifies `slots, `script, `attrs, `termErrno, curr
      ensures Valid() && Reports(r, T.FakeFlush(old(World()), f))
    {
      hide T.Find, T.TcSet, T.TcGet, T.Call, WithFlow, WithXon;
      var i := Find(f);
      if i < 0 { return -1; }
      var tio := TcGetAttr(f);
      if tio.None? {
        termErrno := T.EGETATTR;
        return -1;
      }
      PutCurr(i, tio.value);
      var t := tio.value;
      NoFlow(t);
      var ok := TcSetAttr(f, t.(cflag := t.cflag - {CRTSCTS}, iflag := t.iflag - {IXON, IXOFF, IXANY}));
      if !ok {
        termErrno := T.ESETATTR;
        return -1;
      }
      ok := Call(f);
      if !ok {
        termErrno := T.EDRAIN;
        return -1;
      }
      ok := TcSetAttr(f, curr[i]);
      if !ok {
        termErrno := T.ESETATTR;
        return -1;
      }
      r := 0;
    }

    static lemma NoFlow(t: Termios)
      ensures WithFlow(t.cflag, FC_NONE) == t.cflag - {CRTSCTS}
      ensures WithXon(t.iflag, FC_NONE) == t.iflag - {IXON, IXOFF, IXANY}
    {
    }

    // -------------------------------------------------------------------
    // Setters and getters
    // -------------------------------------------------------------------

    /** Put settings in the slot of a terminal, to be applied next. */
    method PutNext(i: nat, t: Termios)
      requires Valid() && i < T.MAX_TERMS
      modifies `slots, next
      ensures Valid() && slots == old(slots)[i := old(slots[i]).(next := t)]
    {
      next[i] := t;
      slots := slots[i := slots[i].(next := t)];
    }

    method SetRaw(f: int) returns (r: int)
      requires Valid()
      modifies `slots, `termErrno, next
      ensures Valid() && Reports(r, T.Edit(old(World()), f, t => S.SetRaw(t)))
    {
      hide T.FindFrom, S.SetRaw;
      var i := Find(f);
      if i < 0 { return -1; }
      PutNext(i, S.SetRaw(next[i]));
      r := 0;
    }

    method SetBaudrate(f: int, baud: int) returns (r: int)
      requires Valid()
      modifies `slots, `termErrno, next
      ensures Valid()
      ensures Reports(r, T.Setter(old(World()), f, t => S.SetBaudrate(t, baud, custom), BaudOk(baud, custom),
                                  T.BaudError(baud, custom)))
    {
      hide T.FindFrom, CodeFrom, CfSetOspeed, Cf2SetIspeed;
      var i := Find(f);
      if i < 0 { return -1; }
      var tio := next[i];
      var code := Bcode(baud);
      if code != BNONE {
        tio := CfSetOspeed(tio, code);
      } else {
        if !custom {
          termErrno := T.EBAUD;
          return -1;
        }
        if baud <= 0 {
          termErrno := T.ESETOSPEED;
          return -1;
        }
        tio := Cf2SetOspeedCustom(tio, baud);
      }
      tio := Cf2SetIspeed(tio, 0, custom);
      PutNext(i, tio);
      r := 0;
    }

    method SetParity(f: int, parity: Parity) returns (r: int)
      requires Valid()
      modifies `slots, `termErrno, next
      ensures Valid()
      ensures Reports(r, T.Setter(old(World()), f, (t: Termios) => t.(cflag := WithParity(t.cflag, parity)),
                                  ParityOk(parity), T.EPARITY))
    {
      hide T.FindFrom, WithParity;
      var i := Find(f);
      if i < 0 { return -1; }
      if parity == P_ERROR {
        termErrno := T.EPARITY;
        return -1;
      }
      PutNext(i, next[i].(cflag := WithParity(next[i].cflag, parity)));
      r := 0;
    }

    method SetDatabits(f: int, bits: int) returns (r: int)
      requires Valid()
      modifies `slots, `termErrno, next
      ensures Valid()
      ensures Reports(r, T.Setter(old(World()), f, (t: Termios) => t.(cflag := WithDatabits(t.cflag, bits)),
                                  DatabitsOk(bits), T.EDATABITS))
    {
      hide T.FindFrom, WithDatabits;
      var i := Find(f);
      if i < 0 { return -1; }
      if bits < 5 || bits > 8 {
        termErrno := T.EDATABITS;
        return -1;
      }
      PutNext(i, next[i].(cflag := WithDatabits(next[i].cflag, bits)));
      r := 0;
    }

    method SetStopbits(f: int, bits: int) returns (r: int)
      requires Valid()
      modifies `slots, `termErrno, next
      ensures Valid()
      ensures Reports(r, T.Setter(old(World()), f, (t: Termios) => t.(cflag := WithStopbits(t.cflag, bits)),
                                  StopbitsOk(bits), T.ESTOPBITS))
    {
      hide T.FindFrom, WithStopbits;
      var i := Find(f);
      if i < 0 { return -1; }
      if bits != 1 && bits != 2 {
        termErrno := T.ESTOPBITS;
        return -1;
      }
      PutNext(i, next[i].(cflag := WithStopbits(next[i].cflag, bits)));
      r := 0;
    }

    method SetFlow(f: int, flow: Flow) returns (r: int)
      requires Valid()
      modifies `slots, `termErrno, next
      ensures Valid()
      ensures Reports(r, T.Setter(old(World()), f,
                                  (t: Termios) => t.(cflag := WithFlow(t.cflag, flow), iflag := WithXon(t.iflag, flow)),
                                  FlowOk(flow), T.EFLOW))
    {
      hide T.FindFrom, WithFlow, WithXon;
      var i := Find(f);
      if i < 0 { return -1; }
      if flow == FC_OTHER || flow == FC_ERROR {
        termErrno := T.EFLOW;
        return -1;
      }
      PutNext(i, next[i].(cflag := WithFlow(next[i].cflag, flow), iflag := WithXon(next[i].iflag, flow)));
      r := 0;
    }

    method SetLocal(f: int, on: bool) returns (r: int)
      requires Valid()
      modifies `slots, `termErrno, next
      ensures Valid() && Reports(r, T.Edit(old(World()), f, (t: Termios) => t.(cflag := WithLocal(t.cflag, on))))
    {
      hide T.FindFrom, WithLocal;
      var i := Find(f);
      if i < 0 { return -1; }
      PutNext(i, next[i].(cflag := WithLocal(next[i].cflag, on)));
      r := 0;
    }

    method SetHupcl(f: int, on: bool) returns (r: int)
      requires Valid()
      modifies `slots, `termErrno, next
      ensures Valid() && Reports(r, T.Edit(old(World()), f, t => T.SetHup(t, on)))
    {
      hide T.FindFrom, WithHupcl;
      var i := Find(f);
      if i < 0 { return -1; }
      PutNext(i, next[i].(cflag := WithHupcl(next[i].cflag, on)));
      r := 0;
    }

    /** The setters of term_set() in turn, up to the first that fails: those of the rate, */
    method SetRate(f: int, req: Request) returns (r: int)
      requires Valid() && T.Find(World(), f) >= 0
      modifies `slots, `termErrno, next
      ensures Valid()
      ensures var w := old(World());
              var k := T.Find(w, f);
              var t := if req.raw then S.SetRaw(w.slots[k].next) else w.slots[k].next;
              var u := if BaudOk(req.baud, custom) then S.SetBaudrate(t, req.baud, custom) else t;
              Reports(r, T.Done(T.PutNext(w, k, u), T.BaudError(req.baud, custom)))
    {
      hide T.Find, BaudOk, S.SetBaudrate, S.SetRaw;
      ghost var w := World();
      ghost var k := T.Find(w, f);
      ghost var t := w.slots[k].next;
      T.NextAgain(w, f, t, t);
      if req.raw {
        r := SetRaw(f);
        t := S.SetRaw(t);
      }
      T.NextAgain(w, f, t, S.SetBaudrate(t, req.baud, custom));
      r := SetBaudrate(f, req.baud);
    }

    /** and those of the line. */
    method SetLine(f: int, req: Request) returns (r: int)
      requires Valid() && T.Find(World(), f) >= 0
      modifies `slots, `termErrno, next
      ensures Valid()
      ensures var w := old(World());
              var k := T.Find(w, f);
              var tried := T.TryLine(w.slots[k].next, req);
              Reports(r, T.Done(T.PutNext(w, k, tried.t), tried.err))
    {
      hide T.Find, WithHupcl, WithLocal, WithFlow, WithXon, WithStopbits, WithDatabits, WithParity;
      ghost var w := World();
      ghost var t := w.slots[T.Find(w, f)].next;
      r := SetParity(f, req.parity);
      if r < 0 { return; }
      ghost var t1 := t.(cflag := WithParity(t.cflag, req.parity));
      ghost var t2 := t1.(cflag := WithDatabits(t1.cflag, req.databits));
      T.NextAgain(w, f, t1, t2);
      r := SetDatabits(f, req.databits);
      if r < 0 { return; }
      ghost var t3 := t2.(cflag := WithStopbits(t2.cflag, req.stopbits));
      T.NextAgain(w, f, t2, t3);
      r := SetStopbits(f, req.stopbits);
      if r < 0 { return; }
      ghost var t4 := t3.(cflag := WithFlow(t3.cflag, req.flow), iflag := WithXon(t3.iflag, req.flow));
      T.NextAgain(w, f, t3, t4);
      r := SetFlow(f, req.flow);
      if r < 0 { return; }
      ghost var t5 := t4.(cflag := WithLocal(t4.cflag, req.local));
      T.NextAgain(w, f, t4, t5);
      r := SetLocal(f, req.local);
      ghost var t6 := T.SetHup(t5, req.hupcl);
      T.NextAgain(w, f, t5, t6);
      r := SetHupcl(f, req.hupcl);
    }

    method SetEach(f: int, req: Request) returns (r: int)
      requires Valid() && T.Find(World(), f) >= 0
      modifies `slots, `termErrno, next
      ensures Valid()
      ensures var w := old(World());
              var k := T.Find(w, f);
              var tried := T.TrySet(w.slots[k].next, req, custom);
              Reports(r, T.Done(T.PutNext(w, k, tried.t), tried.err))
    {
      hide T.Find, T.TryLine, BaudOk, S.SetBaudrate, S.SetRaw;
      ghost var w := World();
      ghost var k := T.Find(w, f);
      ghost var t1 := if req.raw then S.SetRaw(w.slots[k].next) else w.slots[k].next;
      ghost var t2 := S.SetBaudrate(t1, req.baud, custom);
      T.NextAgain(w, f, t2, T.TryLine(t2, req).t);
      r := SetRate(f, req);
      if r < 0 { return; }
      r := SetLine(f, req);
    }

    /** term_set(); the slot of a terminal it adds is taken to be what term_add() returns. */
    method Set(f: int, req: Request) returns (r: int)
      requires Valid()
      modifies this, fd, orig, curr, next
      ensures Valid() && Reports(r, T.Set(old(World()), f, req, custom))
    {
      hide T.FindFrom, T.TrySet, T.Add;
      var i := Find(f);
      var ni := i;
      if i < 0 {
        ni := Add(f);
        if ni < 0 { return -1; }
        T.AddFinds(old(World()), f);
      }
      var tio := next[ni];
      r := SetEach(f, req);
      if r < 0 {
        if i < 0 {
          Free(ni);
        } else {
          PutNext(ni, tio);
        }
      }
    }

    /** term_get_baudrate(), with the input rate beside it; that is set only for a managed terminal. */
    method GetBaudrate(f: int) returns (ospeed: int, ispeed: int)
      requires Valid()
      modifies `termErrno
      ensures var i := T.Find(World(), f);
              && ospeed == (if i < 0 then -1 else S.GetBaudrate(slots[i].curr, custom))
              && (i >= 0 ==> ispeed == S.GetInputRate(slots[i].curr, custom))
              && termErrno == if i < 0 then T.NotFound(World()).err
                              else if ospeed < 0 then T.EGETSPEED else old(termErrno)
    {
      hide T.FindFrom, SpeedFrom, RateCode, InputCode;
      ispeed := 0;
      var i := Find(f);
      if i < 0 { return -1, ispeed; }
      ispeed := Bspeed(CfGetIspeed(curr[i], custom));
      SpeedNegative(CfGetIspeed(curr[i], custom), 0);
      if custom && ispeed < 0 {
        ispeed := curr[i].ispeed;
      }
      ospeed := Bspeed(RateCode(curr[i].cflag));
      SpeedNegative(RateCode(curr[i].cflag), 0);
      if ospeed < 0 {
        if !custom {
          termErrno := T.EGETSPEED;
          return;
        }
        ospeed := curr[i].ospeed;
        if ospeed < 0 { termErrno := T.EGETSPEED; }
      }
    }

    // -------------------------------------------------------------------
    // The end of the program, and a second initialization
    // -------------------------------------------------------------------

    /** One managed terminal is flushed, and before that drained, as far as it lets; then it is set and let go of. */
    method RestoreOne(i: nat, drain: bool)
      requires Valid() && i < T.MAX_TERMS
      modifies this, fd
      ensures Valid() && World() == T.RestoreOne(old(World()), i, drain)
    {
      hide T.Find, T.TcSet, T.Call, T.Drain;
      if drain {
        var _ := Drain(fd[i]);
      }
      var _ := Call(fd[i]);
      var _ := TcSetAttr(fd[i], orig[i]);
      Free(i);
    }

    /** Put the original settings back on all managed terminals, as far as the devices let it. */
    method RestoreAll(drain: bool)
      requires Valid()
      modifies this, fd
      ensures Valid() && World() == T.RestoreFrom(old(World()), 0, drain)
    {
      hide T.RestoreOne;
      var i := 0;
      while i < T.MAX_TERMS
        invariant Valid() && i <= T.MAX_TERMS
        invariant T.RestoreFrom(World(), i, drain) == T.RestoreFrom(old(World()), 0, drain)
      {
        if fd[i] != -1 {
          RestoreOne(i, drain);
        }
        i := i + 1;
      }
    }

    method LibInit() returns (r: int)
      requires Valid()
      modifies this, fd
      ensures Valid() && Reports(r, T.LibInit(old(World())))
    {
      if init {
        RestoreAll(false);
        return 0;
      }
      ghost var was := slots;
      var i := 0;
      while i < T.MAX_TERMS
        invariant Valid() && i <= T.MAX_TERMS && World() == old(World()).(slots := slots)
        invariant forall k | 0 <= k < T.MAX_TERMS :: slots[k] == if k < i then was[k].(fd := -1) else was[k]
      {
        Free(i);
        i := i + 1;
      }
      assert slots == seq(T.MAX_TERMS, k requires 0 <= k < T.MAX_TERMS => was[k].(fd := -1));
      var ok := Answer();
      if !ok {
        termErrno := T.EATEXIT;
        return -1;
      }
      init := true;
      r := 0;
    }

    method ExitFunc()
      requires Valid()
      modifies this, fd
      ensures Valid() && World() == T.Exit(old(World()))
    {
      if init { RestoreAll(true); }
    }

    /** cleanup() of ppcom.cpp, as far as the terminal `tty` is concerned. */
    method Cleanup(tty: int, drain: bool, noreset: bool, hup: bool, flow: Flow)
      requires Valid()
      modifies this, fd, orig, curr, next
      ensures Valid() && World() == T.Cleanup(old(World()), tty, drain, noreset, hup, flow)
    {
      hide T.FakeFlush, T.Apply, T.Erase, T.SetHup, T.Find, T.Drain, T.Flush;
      if drain {
        var _ := Drain(tty);
      }
      var _ := Flush(tty);
      if flow != FC_NONE {
        var _ := FakeFlush(tty);
      }
      var _ := SetHupcl(tty, !noreset || hup);
      var _ := Apply(tty);
      if noreset {
        var _ := Erase(tty);
      }
    }
  }

  lemma {:induction false} SpeedNegative(code: int, i: nat)
    requires i <= BAUD_TABLE_SZ
    ensures SpeedFrom(code, i) < 0 ==> SpeedFrom(code, i) == -1
    decreases BAUD_TABLE_SZ - i
  {
    if i < BAUD_TABLE_SZ && BaudTable(i).code != code { SpeedNegative(code, i + 1); }
  }
}
