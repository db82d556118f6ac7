/** The output queue of ppcom.cpp: bytes on their way to the port, in a buffer that doubles. */
module TtyQueue {
  import opened Bytes
  import opened CharMap

  const TTY_Q_SZ_MIN := 256

  // ---------------------------------------------------------------------
  // The queue as a value
  // ---------------------------------------------------------------------

  datatype Queue = Queue(bytes: seq<byte>, sz: nat)

  /** A queue whose buffer exists: doubling a size of zero would get nowhere. */
  type LiveQueue = q: Queue | q.sz > 0 witness Queue([], TTY_Q_SZ_MIN)

  /** 256 times a power of two. */
  predicate IsSize(sz: nat) {
    sz == TTY_Q_SZ_MIN || (sz > TTY_Q_SZ_MIN && sz % 2 == 0 && IsSize(sz / 2))
  }

  /** `cap` is TTY_Q_SZ; zero means no limit. */
  predicate Fits(q: Queue, cap: nat) {
    |q.bytes| <= q.sz && IsSize(q.sz) && (cap != 0 ==> q.sz <= cap)
  }

  /** Doubling is not possible: over the limit, or more than realloc() can provide. */
  predicate CannotDouble(sz: nat, cap: nat, mem: nat) {
    (cap != 0 && 2 * sz > cap) || 2 * sz > mem
  }

  /** The size after making room for one more mapped character, if possible. */
  function Grown(len: nat, sz: nat, cap: nat, mem: nat): (r: nat)
    requires sz > 0
    ensures r >= sz
    ensures IsSize(sz) ==> IsSize(r)
    ensures cap != 0 && sz <= cap ==> r <= cap
    ensures len + M_MAXMAP <= r || CannotDouble(r, cap, mem)
    ensures r > sz ==> r / 2 < len + M_MAXMAP
    decreases len + M_MAXMAP - sz
  {
    if len + M_MAXMAP <= sz || CannotDouble(sz, cap, mem) then sz else Grown(len, 2 * sz, cap, mem)
  }

  datatype Pushed = Pushed(q: LiveQueue, n: nat)

  /** tty_q_push(): the queue afterwards and how many bytes it took. */
  function Push(q: LiveQueue, s: seq<byte>, omap: Mapping, cap: nat, mem: nat): (r: Pushed)
    ensures r.n <= |s|
    decreases |s|
  {
    if s == [] then Pushed(q, 0)
    else
      var sz := Grown(|q.bytes|, q.sz, cap, mem);
      if |q.bytes| + M_MAXMAP > sz then Pushed(q.(sz := sz), 0)
      else
        var r := Push(Queue(q.bytes + DoMap(omap, s[0]), sz), s[1..], omap, cap, mem);
        Pushed(r.q, r.n + 1)
  }

  /**
   * A greedy bounded append: what was queued stays, the image of the accepted prefix follows it, and
   * a byte is refused only when it might not fit and the buffer cannot be doubled.
   */
  lemma {:induction false} PushAppends(q: LiveQueue, s: seq<byte>, omap: Mapping, cap: nat, mem: nat)
    requires Fits(q, cap)
    ensures var r := Push(q, s, omap, cap, mem);
            && Fits(r.q, cap)
            && r.q.bytes == q.bytes + Image(omap, s[..r.n])
            && (r.n < |s| ==>
                  |r.q.bytes| + 4 > r.q.sz && ((cap != 0 && 2 * r.q.sz > cap) || 2 * r.q.sz > mem))
            && r.q.sz >= q.sz
            && (r.q.sz > q.sz ==> r.q.sz / 2 < |r.q.bytes| + 4)
    decreases |s|
  {
    hide Grown, IsSize, DoMap;
    var r := Push(q, s, omap, cap, mem);
    if s != [] {
      var sz := Grown(|q.bytes|, q.sz, cap, mem);
      if |q.bytes| + M_MAXMAP <= sz {
        var next := Queue(q.bytes + DoMap(omap, s[0]), sz);
        PushAppends(next, s[1..], omap, cap, mem);
        assert s[..r.n][0] == s[0] && s[..r.n][1..] == s[1..][..r.n - 1];
        assert next.bytes + Image(omap, s[1..][..r.n - 1]) == q.bytes + Image(omap, s[..r.n]);
      }
    }
  }

  /** Pushing bytes one call at a time takes the same bytes as one call, up to the first refusal. */
  lemma {:induction false} PushConcat(q: LiveQueue, a: seq<byte>, b: seq<byte>, omap: Mapping, cap: nat, mem: nat)
    ensures var first := Push(q, a, omap, cap, mem);
            var once := Push(q, a + b, omap, cap, mem);
            if first.n < |a| then once == first
            else
              var second := Push(first.q, b, omap, cap, mem);
              once == Pushed(second.q, first.n + second.n)
    decreases |a|
  {
    if a == [] {
      assert a + b == b;
    } else {
      assert (a + b)[1..] == a[1..] + b;
      var sz := Grown(|q.bytes|, q.sz, cap, mem);
      if |q.bytes| + M_MAXMAP <= sz {
        PushConcat(Queue(q.bytes + DoMap(omap, a[0]), sz), a[1..], b, omap, cap, mem);
      }
    }
  }

  // ---------------------------------------------------------------------
  // The global structure
  // ---------------------------------------------------------------------

  class TtyQ {
    var sz: nat
    var len: nat
    var buff: array<byte>
    const cap: nat

    ghost predicate Valid()
      reads this
    {
      0 < sz && len <= sz && sz == buff.Length
    }

    ghost function Value(): LiveQueue
      requires Valid()
      reads this, buff
    {
      Queue(buff[..len], sz)
    }

    constructor (cap: nat)
      ensures Valid() && Value() == Queue([], TTY_Q_SZ_MIN) && this.cap == cap && fresh(buff)
    {
      buff := new byte[TTY_Q_SZ_MIN];
      sz, len, this.cap := TTY_Q_SZ_MIN, 0, cap;
    }

    /** realloc(), when there is enough memory. */
    method Realloc(double: nat)
      requires Valid() && sz <= double
      modifies `sz, `buff
      ensures Valid() && sz == double && buff[..len] == old(buff[..len]) && fresh(buff)
    {
      var bigger := new byte[double](_ => 0);
      forall i | 0 <= i < sz {
        bigger[i] := buff[i];
      }
      buff, sz := bigger, double;
    }

    /** The grow loop; `mem` is the largest block realloc() can provide. */
    method Grow(mem: nat) returns (ok: bool)
      requires Valid()
      modifies `sz, `buff
      ensures Valid() && buff[..len] == old(buff[..len])
      ensures sz == Grown(len, old(sz), cap, mem) && ok == (len + M_MAXMAP <= sz)
      ensures buff == old(buff) || fresh(buff)
    {
      hide IsSize;
      while len + M_MAXMAP > sz
        invariant Valid() && buff[..len] == old(buff[..len])
        invariant buff == old(buff) || fresh(buff)
        invariant Grown(len, sz, cap, mem) == Grown(len, old(sz), cap, mem)
        decreases len + M_MAXMAP - sz
      {
        var double := sz * 2;
        if cap != 0 && double > cap {
          return false;
        }
        if double > mem {
          return false;
        }
        Realloc(double);
      }
      return true;
    }

    /** do_map() straight into the buffer. */
    method Store(bytes: seq<byte>)
      requires Valid() && len + |bytes| <= sz
      modifies `len, buff
      ensures Valid() && buff[..len] == old(buff[..len]) + bytes
    {
      forall i | 0 <= i < |bytes| {
        buff[len + i] := bytes[i];
      }
      len := len + |bytes|;
    }

    /** tty_q_push(); `echo` is what goes to the terminal with local echo. */
    method TtyQPush(s: seq<byte>, omap: Mapping, lecho: bool, emap: Mapping, mem: nat)
      returns (n: nat, echo: seq<byte>)
      requires Valid()
      modifies this, buff
      ensures Valid() && (buff == old(buff) || fresh(buff))
      ensures Push(old(Value()), s, omap, cap, mem) == Pushed(Value(), n)
      ensures echo == if lecho then Image(emap, s[..n]) else []
    {
      hide Grown, DoMap, Image;
      NoImage(emap);
      n, echo := 0, [];
      ghost var goal := Push(Value(), s, omap, cap, mem);
      assert s[0..] == s;
      while n < |s|
        invariant n <= |s| && Valid() && (buff == old(buff) || fresh(buff))
        invariant var r := Push(Value(), s[n..], omap, cap, mem); goal == Pushed(r.q, n + r.n)
        invariant echo == if lecho then Image(emap, s[..n]) else []
      {
        ghost var q, rest := Value(), s[n..];
        assert rest[0] == s[n] && rest[1..] == s[n + 1..];
        var ok := Grow(mem);
        if !ok {
          return;
        }
        Store(DoMap(omap, s[n]));
        assert Value() == Queue(q.bytes + DoMap(omap, rest[0]), sz);
        if lecho {
          EchoOne(emap, s, n);
          echo := echo + DoMap(emap, s[n]);
        }
        n := n + 1;
      }
    }

    /** The memmove() after a write to the port: the first `n` bytes are gone. */
    method DropFront(n: nat)
      requires Valid() && n <= len
      modifies `len, buff
      ensures Valid() && Value() == Queue(old(buff[n..len]), old(sz))
    {
      forall i | 0 <= i < len - n {
        buff[i] := buff[i + n];
      }
      len := len - n;
    }
  }

  lemma NoImage(emap: Mapping)
    ensures Image(emap, []) == []
  {
  }

  lemma {:induction false} EchoOne(emap: Mapping, s: seq<byte>, n: nat)
    requires n < |s|
    ensures Image(emap, s[..n + 1]) == Image(emap, s[..n]) + DoMap(emap, s[n])
  {
    assert s[..n + 1] == s[..n] + [s[n]];
    ImageConcat(emap, s[..n], [s[n]]);
    ImageOne(emap, s[n]);
  }
}
