/** Terminal settings bit by bit, with the numbers of the bits. */
module TermiosLaws {
  import opened Termios

  /** Raw mode, as cfmakeraw() sets it: which bits of each word are one afterwards, and that the rest stays. */
  lemma RawBits(t: Termios, b: nat)
    ensures var u := SetRaw(t);
            // all but ISIG 0, ICANON 1, ECHO 3, ECHONL 6 and IEXTEN 15
            && (b in u.lflag <==> b in t.lflag && b !in {0, 1, 3, 6, 15})
            // all but OPOST 0
            && (b in u.oflag <==> b in t.oflag && b != 0)
            // all but IGNBRK 0, BRKINT 1, PARMRK 3, ISTRIP 5, INLCR 6, IGNCR 7, ICRNL 8 and IXON 10
            && (b in u.iflag <==> b in t.iflag && b !in {0, 1, 3, 5, 6, 7, 8, 10})
            // CS8 is 4 and 5; all but PARENB 8
            && (b in u.cflag <==> b == 4 || b == 5 || (b in t.cflag && b != 8))
            && u == t.(iflag := u.iflag, oflag := u.oflag, lflag := u.lflag, cflag := u.cflag, vmin := 1, vtime := 0)
  {
  }

  /** Every bit of every word after term_set(), whatever was there before; the rate apart. */
  lemma {:induction false} SetBits(t: Termios, req: Request, custom: bool, b: nat)
    requires Acceptable(req, custom)
    ensures var u := SetAll(t, req, custom);
            && (b in u.lflag <==> b in t.lflag && !(req.raw && b in {0, 1, 3, 6, 15}))
            && (b in u.oflag <==> b in t.oflag && !(req.raw && b == 0))
            && (b in u.iflag <==>
                  if b == 10 || b == 12 then req.flow.FC_XONXOFF?
                  else if b == 11 then req.flow.FC_XONXOFF? && b in t.iflag
                  else if b == 31 then !custom || b in t.iflag
                  else b in t.iflag && !(req.raw && b in {0, 1, 3, 5, 6, 7, 8}))
            && (b !in {0, 1, 2, 3, 12} ==>
                  (b in u.cflag <==>
                     match b
                     case 4 => req.databits == 6 || req.databits == 8
                     case 5 => req.databits == 7 || req.databits == 8
                     case 6 => req.stopbits == 2
                     case 8 => !req.parity.P_NONE?
                     case 9 => req.parity.P_ODD? || req.parity.P_MARK?
                     case 10 => req.hupcl
                     case 11 => req.local
                     case 30 => req.parity.P_MARK? || req.parity.P_SPACE?
                     case 31 => req.flow.FC_RTSCTS?
                     case 16 | 17 | 18 | 19 | 28 => !custom && b in t.cflag
                     case _ => b in t.cflag))
            && u.cc == t.cc && u.vmin == (if req.raw then 1 else t.vmin) && u.vtime == (if req.raw then 0 else t.vtime)
  {
    hide WithLine, CodeFrom;
    var t1 := if req.raw then SetRaw(t) else t;
    var t2 := SetBaudrate(t1, req.baud, custom);
    RawBits(t, b);
    RateLeaves(t1, req.baud, custom, b);
    LineBit(t2.cflag, req, b);
  }

  /** Setting the rate touches its own bits only. */
  lemma {:induction false} RateLeaves(t: Termios, baud: int, custom: bool, b: nat)
    requires BaudOk(baud, custom)
    ensures var u := SetBaudrate(t, baud, custom);
            && (b !in {0, 1, 2, 3, 12, 16, 17, 18, 19, 28} ==> (b in u.cflag <==> b in t.cflag))
            && (b in {16, 17, 18, 19, 28} ==> (b in u.cflag <==> !custom && b in t.cflag))
            && (b in u.iflag <==> if b == 31 && !custom then true else b in t.iflag)
            && u == t.(cflag := u.cflag, iflag := u.iflag, ospeed := u.ospeed, ispeed := u.ispeed)
  {
    hide CodeFrom;
    if CodeOf(baud) != BNONE { CodeInverse(baud, 0); }
  }

  /** The speeds that have a code, in the order of their codes; 16 is no code of theirs. */
  const SPEEDS: seq<int> :=
    [0, 50, 75, 110, 134, 150, 200, 300, 600, 1200, 1800, 2400, 4800, 9600, 19200, 38400,
     57600, 115200, 230400, 460800, 500000, 576000, 921600, 1000000, 1152000, 1500000,
     2000000, 2500000, 3000000, 3500000, 4000000]

  lemma RowHas(i: nat)
    requires i < BAUD_TABLE_SZ
    ensures BaudTable(i) == Rate(SPEEDS[i], if i < 16 then i else i + 1)
  {
  }

  /** The codes of the standard rates, and that no other rate has one. */
  lemma {:induction false} CodesOfSpeeds(baud: int)
    ensures forall i | 0 <= i < |SPEEDS| :: CodeOf(SPEEDS[i]) == if i < 16 then i else i + 1
    ensures baud !in SPEEDS ==> CodeOf(baud) == -1
  {
    hide BaudTable, SPEEDS, CodeFrom;
    forall i | 0 <= i < |SPEEDS|
      ensures CodeOf(SPEEDS[i]) == if i < 16 then i else i + 1
    {
      SizeOfSpeeds();
      RowHas(i);
      CodeOfRow(i, 0);
    }
    if baud !in SPEEDS { NoRow(baud, 0); }
  }

  lemma SizeOfSpeeds()
    ensures |SPEEDS| == BAUD_TABLE_SZ
  {
  }

  lemma {:induction false} CodeOfRow(i: nat, j: nat)
    requires j <= i < BAUD_TABLE_SZ
    ensures CodeFrom(BaudTable(i).speed, j) == BaudTable(i).code
    decreases i - j
  {
    hide BaudTable;
    if j < i {
      TableOrdered(j, i);
      CodeOfRow(i, j + 1);
    }
  }

  lemma {:induction false} NoRow(baud: int, i: nat)
    requires baud !in SPEEDS && i <= BAUD_TABLE_SZ
    ensures CodeFrom(baud, i) == -1
    decreases BAUD_TABLE_SZ - i
  {
    hide BaudTable, SPEEDS;
    if i < BAUD_TABLE_SZ {
      RowHas(i);
      SizeOfSpeeds();
      NoRow(baud, i + 1);
    }
  }

  /** The rate in the control modes after term_set(), in binary: its code, or 16 with the speed beside it. */
  lemma {:induction false} SetRateBits(t: Termios, req: Request, custom: bool)
    requires Acceptable(req, custom)
    ensures var u := SetAll(t, req, custom);
            var code := (if 0 in u.cflag then 1 else 0) + (if 1 in u.cflag then 2 else 0)
                      + (if 2 in u.cflag then 4 else 0) + (if 3 in u.cflag then 8 else 0)
                      + (if 12 in u.cflag then 16 else 0);
            if req.baud in SPEEDS then code == CodeOf(req.baud) >= 0
            else custom && code == 16 && u.ospeed == req.baud > 0
  {
    hide CodeFrom, RateBits, InputBits, SPEEDS;
    hide SetRaw, WithLine, WithXon;
    CodesOfSpeeds(req.baud);
    var t1 := if req.raw then SetRaw(t) else t;
    var t2 := SetBaudrate(t1, req.baud, custom);
    forall b | b in CBAUD
      ensures b in WithLine(t2.cflag, req) <==> b in t2.cflag
    {
      LineBit(t2.cflag, req, b);
    }
    if CodeOf(req.baud) != BNONE {
      CodeInverse(req.baud, 0);
      OutputRateSet(t1, CodeOf(req.baud));
      InputRateSet(CfSetOspeed(t1, CodeOf(req.baud)), 0);
    } else {
      OutputRateSet(t1, BOTHER);
      InputRateSet(Cf2SetOspeedCustom(t1, req.baud), 0);
    }
    assert RateCode(t2.cflag) == if CodeOf(req.baud) != BNONE then CodeOf(req.baud) else BOTHER;
    RatesIn(WithLine(t2.cflag, req), t2.cflag);
  }

  /** What the getters make of any control and input modes. */
  lemma GettersMean(c: Flags, i: Flags)
    ensures match ParityIn(c)
            case P_NONE => 8 !in c
            case P_EVEN => 8 in c && 9 !in c && 30 !in c
            case P_ODD => 8 in c && 9 in c && 30 !in c
            case P_MARK => 8 in c && 9 in c && 30 in c
            case P_SPACE => 8 in c && 9 !in c && 30 in c
            case P_ERROR => false
    ensures DatabitsIn(c) == 5 + (if 4 in c then 1 else 0) + (if 5 in c then 2 else 0)
    ensures StopbitsIn(c) == if 6 in c then 2 else 1
    ensures match FlowIn(c, i)
            case FC_RTSCTS => 31 in c && 10 !in i && 11 !in i && 12 !in i
            case FC_XONXOFF => 31 !in c && 12 in i && (10 in i || 11 in i)
            case FC_NONE => 31 !in c && 10 !in i && 11 !in i && 12 !in i
            case FC_OTHER => (31 in c && (10 in i || 11 in i || 12 in i))
                             || (31 !in c && (12 in i <==> 10 !in i && 11 !in i))
            case FC_ERROR => false
  {
    assert forall b | b in c * CSIZE :: b == 4 || b == 5;
    assert 4 in CS8 && 5 !in CS6 && 4 !in CS7;
    assert (4 in c && 5 in c) ==> c * CSIZE == CS8;
    assert (4 in c && 5 !in c) ==> c * CSIZE == CS6;
    assert (4 !in c && 5 in c) ==> c * CSIZE == CS7;
    assert (4 !in c && 5 !in c) ==> c * CSIZE == CS5;
  }

  /** The speed of each code, and that 16 and anything else has none. */
  lemma {:induction false} SpeedsOfCodes(code: int)
    requires 0 <= code < 32
    ensures SpeedOf(code) == if code == 16 then -1 else SPEEDS[if code < 16 then code else code - 1]
  {
    hide BaudTable, SPEEDS, SpeedFrom;
    SizeOfSpeeds();
    if code == 16 {
      OtherHasNoSpeed(0);
    } else {
      var i := if code < 16 then code else code - 1;
      RowHas(i);
      SpeedOfRow(i, 0);
    }
  }

  /** What the rate getters make of any settings: the speed of a code in binary, or the one beside it for code 16. */
  lemma {:induction false} RatesMean(t: Termios, custom: bool)
    ensures var code := (if 0 in t.cflag then 1 else 0) + (if 1 in t.cflag then 2 else 0)
                      + (if 2 in t.cflag then 4 else 0) + (if 3 in t.cflag then 8 else 0)
                      + (if 12 in t.cflag then 16 else 0);
            var input := (if 16 in t.cflag then 1 else 0) + (if 17 in t.cflag then 2 else 0)
                       + (if 18 in t.cflag then 4 else 0) + (if 19 in t.cflag then 8 else 0)
                       + (if 28 in t.cflag then 16 else 0);
            && GetBaudrate(t, custom) == (if code != 16 then SPEEDS[if code < 16 then code else code - 1]
                                          else if custom then t.ospeed else -1)
            && GetInputRate(t, custom) ==
                 if custom then if input != 16 then SPEEDS[if input < 16 then input else input - 1] else t.ispeed
                 else if 31 in t.iflag then 0
                 else if code != 16 then SPEEDS[if code < 16 then code else code - 1] else -1
  {
    hide SpeedFrom, BaudTable, SPEEDS;
    SizeOfSpeeds();
    SpeedsOfCodes(RateCode(t.cflag));
    SpeedsOfCodes(InputCode(t.cflag));
    SpeedsOfCodes(0);
    if RateCode(t.cflag) != 16 { SpeedsStand(RateCode(t.cflag)); }
    if InputCode(t.cflag) != 16 { SpeedsStand(InputCode(t.cflag)); }
    SpeedsStand(0);
  }

  lemma SpeedsStand(code: int)
    requires 0 <= code < 32 && code != 16
    ensures SPEEDS[if code < 16 then code else code - 1] >= 0 && SPEEDS[0] == 0
  {
  }
}
