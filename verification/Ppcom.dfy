/** The program around the main loop: the globals of ppcom.cpp and the functions that update them. */
module Ppcom {
  import opened Bytes
  import opened CharMap
  import opened TtyQueue
  import M = MainLoop

  /** How a pass of the loop leaves it. */
  datatype Stop = Continue | Exit(why: M.Reason) | FatalExit

  ghost function Stopped(stop: Stop, st: M.State): M.Result {
    match stop
    case Continue => M.Going(st)
    case Exit(why) => M.Exited(why, st)
    case FatalExit => M.Fatal(st)
  }

  class Ppcom {
    const cfg: M.Config
    const q: TtyQ
    var mode: M.Mode
    var stdinClosed: bool
    var writeSz: nat
    var lecho: bool
    var noreset: bool
    var port: seq<byte>            // what the port was given
    ghost var typed: seq<byte>
    ghost var acts: seq<M.Act>
    ghost var taken: seq<byte>
    ghost var mark: nat
    ghost var parts: seq<M.Part>

    ghost predicate Valid()
      reads q, q.buff
    {
      q.Valid() && q.cap == cfg.cap
    }

    ghost function Now(): M.State
      requires Valid()
      reads this, q, q.buff
    {
      M.State(mode, stdinClosed, q.Value(), writeSz, lecho, noreset, typed, acts, taken, mark, parts, port)
    }

    constructor (cfg: M.Config, baud: int)
      ensures Valid() && this.cfg == cfg && Now() == M.Blank(cfg, baud) && fresh(q) && fresh(q.buff)
    {
      this.cfg := cfg;
      q := new TtyQ(cfg.cap);
      mode, stdinClosed := M.Transparent, cfg.exit;
      writeSz := M.WriteSize(baud);
      lecho, noreset, port := cfg.lecho, cfg.noreset, [];
      typed, acts, taken, mark, parts := [], [], [], 0, [];
    }

    /** tty_q_push() with the options in force. */
    method Push(s: seq<byte>, mem: nat) returns (n: nat)
      requires Valid()
      modifies `taken, q, q.buff
      ensures Valid() && (q.buff == old(q.buff) || fresh(q.buff))
      ensures Now() == M.OfferAll(cfg, old(Now()), s, mem)
      ensures n == TtyQueue.Push(old(q.Value()), s, cfg.omap, cfg.cap, mem).n
    {
      var echo;
      n, echo := q.TtyQPush(s, cfg.omap, lecho, cfg.emap, mem);
      taken := taken + s[..n];
    }

    /** The queue is primed with the init string; one that does not fit is fatal. */
    method Prime(init: seq<byte>, mem: nat, ghost baud: int) returns (ok: bool)
      requires Valid() && Now() == M.Blank(cfg, baud)
      modifies `taken, q, q.buff
      ensures Valid() && (q.buff == old(q.buff) || fresh(q.buff))
      ensures Now() == M.Start(cfg, baud, init, mem) && ok == M.Enters(cfg, baud, init, mem)
    {
      var n := Push(init, mem);
      ok := n == |init|;
    }

    /** Emptying the queue before the port is set up anew. */
    method Flush()
      requires Valid()
      modifies `mark, `parts, q`len
      ensures Valid() && Now() == M.Flush(old(Now()))
    {
      mark, parts := |taken|, parts + [M.Flushed(q.Value().bytes)];
      q.len := 0;
    }

    /** do_command() */
    method DoCommand(c: byte, env: M.Env) returns (exit: bool)
      requires Valid()
      modifies `taken, `mark, `parts, `writeSz, `lecho, `noreset, q, q.buff
      ensures Valid() && (q.buff == old(q.buff) || fresh(q.buff))
      ensures Now() == M.DoCommand(cfg, old(Now()), c, env) && exit == M.IsExit(c)
    {
      if c == 120 {
        return true;
      } else if c == 113 {
        noreset := true;
        return true;
      } else if c == 98 || c == 117 || c == 100 {
        if c == 98 && env.newBaud < 0 {
          return false;
        }
        Flush();
        writeSz := M.WriteSize(env.portBaud);
      } else if c == 102 || c == 121 || c == 105 || c == 106 {
        Flush();
      } else if c == 99 {
        lecho := !lecho;
      } else if c == 119 {
        var _ := Push(env.hex, env.mem);
      }
      return false;
    }

    /** The body of the loop over the bytes read from the terminal. */
    method PressKey(k: M.Key) returns (exit: bool)
      requires Valid()
      modifies `mode, `typed, `acts, `taken, `mark, `parts, `writeSz, `lecho, `noreset, q, q.buff
      ensures Valid() && (q.buff == old(q.buff) || fresh(q.buff))
      ensures M.PressKey(cfg, old(Now()), k) == M.Keyed(Now(), exit)
    {
      hide M.OfferAll, M.DoCommand;
      typed := typed + [k.c];
      exit := false;
      match mode
      case Command =>
        if k.c == cfg.escape {
          acts, mode := acts + [M.Offered(k.c)], M.Transparent;
          var _ := Push([k.c], k.env.mem);
        } else {
          acts := acts + [M.Executed(k.c)];
          exit := DoCommand(k.c, k.env);
          if exit {
            return;
          }
          mode := M.Transparent;
        }
      case Transparent =>
        if !cfg.noescape && k.c == cfg.escape {
          mode := M.Command;
        } else {
          acts := acts + [M.Offered(k.c)];
          var _ := Push([k.c], k.env.mem);
        }
    }

    method PressKeys(keys: seq<M.Key>) returns (exit: bool)
      requires Valid()
      modifies `mode, `typed, `acts, `taken, `mark, `parts, `writeSz, `lecho, `noreset, q, q.buff
      ensures Valid() && (q.buff == old(q.buff) || fresh(q.buff))
      ensures M.PressKeys(cfg, old(Now()), keys) == M.Keyed(Now(), exit)
    {
      hide M.PressKey;
      exit := false;
      assert keys[0..] == keys;
      for i := 0 to |keys|
        invariant Valid() && (q.buff == old(q.buff) || fresh(q.buff))
        invariant M.PressKeys(cfg, Now(), keys[i..]) == M.PressKeys(cfg, old(Now()), keys)
      {
        assert keys[i..][0] == keys[i] && keys[i..][1..] == keys[i + 1..];
        exit := PressKey(keys[i]);
        if exit {
          return;
        }
      }
      assert keys[|keys|..] == [];
    }

    /** Writing to the port. */
    method WritePort(out: M.PortOutput) returns (ok: bool)
      requires Valid()
      modifies `port, `parts, q`len, q.buff
      ensures Valid()
      ensures M.WritePort(old(Now()), out) == if ok then M.Going(Now()) else M.Fatal(Now())
    {
      var sz := if q.len < writeSz then q.len else writeSz;
      var n := if out.Takes? then M.Min(out.n, sz) else 0;
      if n == 0 {
        return false;
      }
      port := port + q.buff[..n];
      parts := parts + [M.Sent(q.buff[..n])];
      assert q.Value().bytes[..n] == q.buff[..n] && q.Value().bytes[n..] == q.buff[n..q.len];
      q.DropFront(n);
      return true;
    }

    /** The control line, in its zeroed buffer: pushed up to a NUL, which a line end is turned into. */
    method ReadCtl(bytes: seq<byte>, mem: nat)
      requires Valid() && |bytes| <= 1023
      modifies `taken, q, q.buff
      ensures Valid() && (q.buff == old(q.buff) || fresh(q.buff))
      ensures Now() == M.OfferEach(cfg, old(Now()), M.CtlBytes(bytes), mem)
    {
      hide M.OfferAll, M.Offer, M.OfferEach, M.CtlBytes;
      var buf := new byte[1024](i requires 0 <= i < 1024 => if i < |bytes| then bytes[i] else NUL);
      ghost var goal := M.OfferEach(cfg, Now(), M.CtlBytes(bytes), mem);
      ghost var ended := false;
      assert bytes[0..] == bytes;
      var i := 0;
      var n := StrLen(buf);
      while i < n
        invariant i <= 1023 && (n <= i || !ended)
        invariant 0 <= n <= 1023 && buf[n] == NUL && NUL !in buf[..n] && buf[1023] == NUL
        invariant Valid() && (q.buff == old(q.buff) || fresh(q.buff)) && fresh(buf) && buf != q.buff
        invariant if ended then n < i && goal == Now()
                  else
                    && i <= n && i <= |bytes|
                    && (forall k | 0 <= k < 1024 :: buf[k] == if k < |bytes| then bytes[k] else NUL)
                    && goal == M.OfferEach(cfg, Now(), M.CtlBytes(bytes[i..]), mem)
        decreases 1024 - i
      {
        var c := buf[i];
        ghost var rest := bytes[i..];
        assert rest[0] == c && rest[1..] == bytes[i + 1..];
        OneOffered(cfg, Now(), rest, mem);
        if c == LF || c == CR {
          buf[i] := NUL;
          ended := true;
        }
        OfferIsOne(cfg, Now(), c, mem);
        var _ := Push([c], mem);
        i := i + 1;
        n := StrLen(buf);
      }
      if !ended {
        assert bytes[i..] == [] || bytes[i..][0] == NUL;
        NoneOffered(cfg, Now(), bytes[i..], mem);
      }
    }

    /** The reads of a pass: from the terminal, then from the port. */
    method Gather(stdin: M.Input, tty: M.PortInput) returns (stop: Stop)
      requires Valid()
      modifies this, q, q.buff
      ensures Valid() && (q.buff == old(q.buff) || fresh(q.buff))
      ensures M.Gather(cfg, old(Now()), stdin, tty) == Stopped(stop, Now())
    {
      hide M.PressKeys;
      if !stdinClosed {
        match stdin
        case Eof => stdinClosed := true;
        case Fails => return FatalExit;
        case Data(keys) =>
          var exit := PressKeys(keys);
          if exit {
            return Exit(M.LE_CMD);
          }
        case _ =>
      }
      if !cfg.exit && (tty.PEof? || tty.PFails?) {
        return FatalExit;
      }
      return Continue;
    }

    /** One pass of loop(). */
    method Pass(ev: M.Event) returns (stop: Stop)
      requires Valid() && (ev.Ready? && ev.ctl.Line? ==> |ev.ctl.bytes| <= 1023)
      modifies this, q, q.buff
      ensures Valid() && (q.buff == old(q.buff) || fresh(q.buff))
      ensures M.Pass(cfg, old(Now()), ev) == Stopped(stop, Now())
    {
      hide M.Gather, M.WritePort, M.OfferEach, M.CtlBytes;
      if ev.Signal? {
        return Exit(M.LE_SIGNAL);
      }
      var pending := q.len != 0;
      if !pending && cfg.exitAfter < 0 && stdinClosed {
        return Exit(M.LE_STDIN);
      }
      match ev
      case Interrupted =>
        return Continue;
      case SelectFails =>
        return FatalExit;
      case Timeout =>
        return if !pending && cfg.exitAfter >= 0 then Exit(M.LE_IDLE) else Continue;
      case Ready(stdin, tty, out, ctl) =>
        stop := Gather(stdin, tty);
        if stop != Continue {
          return;
        }
        if pending && !out.Blocked? {
          var ok := WritePort(out);
          if !ok {
            return FatalExit;
          }
        }
        if ctl.Line? {
          ReadCtl(ctl.bytes, ctl.mem);
        }
        return Continue;
    }

    /** loop(), for as long as `evs` lasts. */
    method Loop(evs: seq<M.Event>) returns (stop: Stop)
      requires Valid()
      requires forall k | 0 <= k < |evs| :: evs[k].Ready? && evs[k].ctl.Line? ==> |evs[k].ctl.bytes| <= 1023
      modifies this, q, q.buff
      ensures Valid()
      ensures M.Run(cfg, old(Now()), evs) == Stopped(stop, Now())
    {
      hide M.Pass;
      assert evs[0..] == evs;
      for i := 0 to |evs|
        invariant Valid() && (q.buff == old(q.buff) || fresh(q.buff))
        invariant M.Run(cfg, Now(), evs[i..]) == M.Run(cfg, old(Now()), evs)
      {
        assert evs[i..][0] == evs[i] && evs[i..][1..] == evs[i + 1..];
        stop := Pass(evs[i]);
        if stop != Continue {
          return;
        }
      }
      assert evs[|evs|..] == [];
      return Continue;
    }
  }

  method StrLen(a: array<byte>) returns (n: nat)
    requires a.Length > 0 && a[a.Length - 1] == NUL
    ensures n < a.Length && a[n] == NUL && NUL !in a[..n]
  {
    n := 0;
    while a[n] != NUL
      invariant n < a.Length && NUL !in a[..n]
      decreases a.Length - n
    {
      n := n + 1;
    }
  }

  lemma OfferIsOne(cfg: M.Config, st: M.State, c: byte, mem: nat)
    ensures M.Offer(cfg, st, c, mem) == M.OfferAll(cfg, st, [c], mem)
  {
  }

  lemma NoneOffered(cfg: M.Config, st: M.State, rest: seq<byte>, mem: nat)
    requires rest == [] || rest[0] == NUL
    ensures M.OfferEach(cfg, st, M.CtlBytes(rest), mem) == st
  {
  }

  lemma OneOffered(cfg: M.Config, st: M.State, rest: seq<byte>, mem: nat)
    requires rest != [] && rest[0] != NUL
    ensures M.OfferEach(cfg, st, M.CtlBytes(rest), mem) ==
            if rest[0] == LF || rest[0] == CR then M.Offer(cfg, st, rest[0], mem)
            else M.OfferEach(cfg, M.Offer(cfg, st, rest[0], mem), M.CtlBytes(rest[1..]), mem)
  {
    hide M.OfferAll;
    var bytes := M.CtlBytes(rest);
    assert bytes[1..] == if rest[0] == LF || rest[0] == CR then [] else M.CtlBytes(rest[1..]);
  }
}
