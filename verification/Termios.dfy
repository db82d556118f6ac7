/** Terminal settings and the bits that term.cpp and termios2.cpp set in them, as on Linux. */
module Termios {

  /** A word of flags, as the positions of the bits that are one. */
  type Flags = set<nat>

  /** The settings of a device; of the control characters only the two that raw mode sets are named. */
  datatype Termios = Termios(iflag: Flags, oflag: Flags, cflag: Flags, lflag: Flags,
                             vmin: nat, vtime: nat, cc: seq<nat>, ispeed: int, ospeed: int)

  // Control modes, section 11.2.4 of the POSIX General Terminal Interface, and their Linux extensions.
  const CSIZE: Flags := {4, 5}
  const CS5: Flags := {}
  const CS6: Flags := {4}
  const CS7: Flags := {5}
  const CS8: Flags := {4, 5}
  const CSTOPB: nat := 6
  const PARENB: nat := 8
  const PARODD: nat := 9
  const HUPCL: nat := 10
  const CLOCAL: nat := 11
  const CMSPAR: nat := 30
  const CRTSCTS: nat := 31
  const CBAUD: Flags := {0, 1, 2, 3, 12}      // CBAUDEX is its bit 12
  const CIBAUD: Flags := {16, 17, 18, 19, 28}  // the same, shifted by IBSHIFT

  // Input modes, section 11.2.2, and the bit glibc keeps for "input speed as output speed".
  const IXON: nat := 10
  const IXANY: nat := 11
  const IXOFF: nat := 12
  const IBAUD0: nat := 31

  // What cfmakeraw() clears: IGNBRK BRKINT PARMRK ISTRIP INLCR IGNCR ICRNL IXON, OPOST, and
  // ISIG ICANON ECHO ECHONL IEXTEN.
  const RAW_IFLAGS: Flags := {0, 1, 3, 5, 6, 7, 8, 10}
  const RAW_OFLAGS: Flags := {0}
  const RAW_LFLAGS: Flags := {0, 1, 3, 6, 15}

  // ---------------------------------------------------------------------
  // Rates
  // ---------------------------------------------------------------------

  /** A rate code is the number its CBAUD bits spell, bit 12 counting 16: B50 is 1, B57600 is 17. */
  datatype Rate = Rate(speed: int, code: int)

  const BOTHER := 16
  const BNONE := -1

  const BAUD_TABLE_SZ := 31

  /** Row `i` of the table, with the high rates. */
  function BaudTable(i: nat): Rate
    requires i < BAUD_TABLE_SZ
  {
    match i
    case 0 => Rate(0, 0)
    case 1 => Rate(50, 1)
    case 2 => Rate(75, 2)
    case 3 => Rate(110, 3)
    case 4 => Rate(134, 4)
    case 5 => Rate(150, 5)
    case 6 => Rate(200, 6)
    case 7 => Rate(300, 7)
    case 8 => Rate(600, 8)
    case 9 => Rate(1200, 9)
    case 10 => Rate(1800, 10)
    case 11 => Rate(2400, 11)
    case 12 => Rate(4800, 12)
    case 13 => Rate(9600, 13)
    case 14 => Rate(19200, 14)
    case 15 => Rate(38400, 15)
    case 16 => Rate(57600, 17)
    case 17 => Rate(115200, 18)
    case 18 => Rate(230400, 19)
    case 19 => Rate(460800, 20)
    case 20 => Rate(500000, 21)
    case 21 => Rate(576000, 22)
    case 22 => Rate(921600, 23)
    case 23 => Rate(1000000, 24)
    case 24 => Rate(1152000, 25)
    case 25 => Rate(1500000, 26)
    case 26 => Rate(2000000, 27)
    case 27 => Rate(2500000, 28)
    case 28 => Rate(3000000, 29)
    case 29 => Rate(3500000, 30)
    case _ => Rate(4000000, 31)
  }

  /** Speeds and codes both ascend, and no code is that of a custom rate. */
  lemma TableAscends(i: nat)
    requires i + 1 < BAUD_TABLE_SZ
    ensures BaudTable(i).speed < BaudTable(i + 1).speed && BaudTable(i).code < BaudTable(i + 1).code
    ensures 0 <= BaudTable(i).code && BaudTable(i + 1).code < 32 && BaudTable(i + 1).code != BOTHER
  {
  }

  lemma {:induction false} TableOrdered(i: nat, j: nat)
    requires i < j < BAUD_TABLE_SZ
    ensures BaudTable(i).speed < BaudTable(j).speed && BaudTable(i).code < BaudTable(j).code
    ensures 0 <= BaudTable(i).code && BaudTable(j).code < 32 && BaudTable(j).code != BOTHER
    decreases j
  {
    hide BaudTable;
    TableAscends(j - 1);
    if i < j - 1 { TableOrdered(i, j - 1); }
  }

  /** The code of the first row from `i` with the given speed. */
  function CodeFrom(speed: int, i: nat): int
    requires i <= BAUD_TABLE_SZ
    decreases BAUD_TABLE_SZ - i
  {
    if i == BAUD_TABLE_SZ then BNONE
    else if BaudTable(i).speed == speed then BaudTable(i).code
    else CodeFrom(speed, i + 1)
  }

  function SpeedFrom(code: int, i: nat): int
    requires i <= BAUD_TABLE_SZ
    decreases BAUD_TABLE_SZ - i
  {
    if i == BAUD_TABLE_SZ then -1
    else if BaudTable(i).code == code then BaudTable(i).speed
    else SpeedFrom(code, i + 1)
  }

  function CodeOf(speed: int): int {
    CodeFrom(speed, 0)
  }

  function SpeedOf(code: int): int {
    SpeedFrom(code, 0)
  }

  method Bcode(speed: int) returns (code: int)
    ensures code == CodeOf(speed)
  {
    hide BaudTable;
    code := BNONE;
    for i := 0 to BAUD_TABLE_SZ
      invariant CodeFrom(speed, 0) == CodeFrom(speed, i) && code == BNONE
    {
      if BaudTable(i).speed == speed {
        code := BaudTable(i).code;
        break;
      }
    }
  }

  method Bspeed(code: int) returns (speed: int)
    ensures speed == SpeedOf(code)
  {
    hide BaudTable;
    speed := -1;
    for i := 0 to BAUD_TABLE_SZ
      invariant SpeedFrom(code, 0) == SpeedFrom(code, i) && speed == -1
    {
      if BaudTable(i).code == code {
        speed := BaudTable(i).speed;
        break;
      }
    }
  }

  /** Looking up a row's code finds that row's speed: no code comes earlier in the table. */
  lemma {:induction false} SpeedOfRow(i: nat, j: nat)
    requires j <= i < BAUD_TABLE_SZ
    ensures SpeedFrom(BaudTable(i).code, j) == BaudTable(i).speed
    decreases i - j
  {
    hide BaudTable;
    if j < i {
      TableOrdered(j, i);
      SpeedOfRow(i, j + 1);
    }
  }

  /** A speed with a code is the speed of that code. */
  lemma {:induction false} CodeInverse(speed: int, i: nat)
    requires i <= BAUD_TABLE_SZ && CodeFrom(speed, i) != BNONE
    ensures SpeedOf(CodeFrom(speed, i)) == speed && 0 <= CodeFrom(speed, i) < 32
    decreases BAUD_TABLE_SZ - i
  {
    hide BaudTable;
    if BaudTable(i).speed == speed {
      SpeedOfRow(i, 0);
      TableCode(i);
    } else {
      CodeInverse(speed, i + 1);
    }
  }

  lemma TableCode(i: nat)
    requires i < BAUD_TABLE_SZ
    ensures 0 <= BaudTable(i).code < 32 && BaudTable(i).code != BOTHER
  {
  }

  /** The code for custom rates is not in the table. */
  lemma {:induction false} OtherHasNoSpeed(i: nat)
    requires i <= BAUD_TABLE_SZ
    ensures SpeedFrom(BOTHER, i) == -1
    decreases BAUD_TABLE_SZ - i
  {
    hide BaudTable;
    if i < BAUD_TABLE_SZ {
      TableCode(i);
      OtherHasNoSpeed(i + 1);
    }
  }

  // ---------------------------------------------------------------------
  // Setters, each for the word of flags it changes
  // ---------------------------------------------------------------------

  datatype Parity = P_NONE | P_EVEN | P_ODD | P_MARK | P_SPACE | P_ERROR
  datatype Flow = FC_NONE | FC_RTSCTS | FC_XONXOFF | FC_OTHER | FC_ERROR

  predicate ParityOk(parity: Parity) {
    !parity.P_ERROR?
  }

  /** term_set_parity() */
  function WithParity(c: Flags, parity: Parity): Flags {
    match parity
    case P_EVEN => (c - {PARODD, CMSPAR}) + {PARENB}
    case P_ODD => (c - {CMSPAR}) + {PARENB, PARODD}
    case P_MARK => c + {PARENB, PARODD, CMSPAR}
    case P_SPACE => (c - {PARODD}) + {PARENB, CMSPAR}
    case P_NONE => c - {PARENB, PARODD, CMSPAR}
    case P_ERROR => c
  }

  predicate DatabitsOk(bits: int) {
    5 <= bits <= 8
  }

  /** term_set_databits() */
  function WithDatabits(c: Flags, bits: int): Flags {
    if bits == 5 then (c - CSIZE) + CS5
    else if bits == 6 then (c - CSIZE) + CS6
    else if bits == 7 then (c - CSIZE) + CS7
    else if bits == 8 then (c - CSIZE) + CS8
    else c
  }

  predicate StopbitsOk(bits: int) {
    1 <= bits <= 2
  }

  /** term_set_stopbits() */
  function WithStopbits(c: Flags, bits: int): Flags {
    if bits == 1 then c - {CSTOPB} else if bits == 2 then c + {CSTOPB} else c
  }

  predicate FlowOk(flow: Flow) {
    !flow.FC_OTHER? && !flow.FC_ERROR?
  }

  /** term_set_flowcntrl(), for the control modes and for the input modes. */
  function WithFlow(c: Flags, flow: Flow): Flags {
    match flow
    case FC_RTSCTS => c + {CRTSCTS}
    case FC_XONXOFF | FC_NONE => c - {CRTSCTS}
    case _ => c
  }

  function WithXon(i: Flags, flow: Flow): Flags {
    match flow
    case FC_XONXOFF => i + {IXON, IXOFF}
    case FC_RTSCTS | FC_NONE => i - {IXON, IXOFF, IXANY}
    case _ => i
  }

  /** term_set_local() */
  function WithLocal(c: Flags, on: bool): Flags {
    if on then c + {CLOCAL} else c - {CLOCAL}
  }

  /** term_set_hupcl() */
  function WithHupcl(c: Flags, on: bool): Flags {
    if on then c + {HUPCL} else c - {HUPCL}
  }

  /** The CBAUD bits that spell a code. */
  function RateBits(code: int): Flags {
    (if code % 2 == 1 then {0} else {}) + (if code / 2 % 2 == 1 then {1} else {})
    + (if code / 4 % 2 == 1 then {2} else {}) + (if code / 8 % 2 == 1 then {3} else {})
    + (if code / 16 % 2 == 1 then {12} else {})
  }

  /** The same bits, shifted to where the input rate is kept. */
  function InputBits(code: int): Flags {
    (if code % 2 == 1 then {16} else {}) + (if code / 2 % 2 == 1 then {17} else {})
    + (if code / 4 % 2 == 1 then {18} else {}) + (if code / 8 % 2 == 1 then {19} else {})
    + (if code / 16 % 2 == 1 then {28} else {})
  }

  /** cfsetospeed() of glibc, for a code of the table. */
  function CfSetOspeed(t: Termios, code: int): Termios {
    t.(cflag := (t.cflag - CBAUD) + RateBits(code), ospeed := code)
  }

  /** cf2setispeed(); without custom rates it is glibc's cfsetispeed(). */
  function Cf2SetIspeed(t: Termios, code: int, custom: bool): Termios {
    if custom then t.(cflag := (t.cflag - CIBAUD) + InputBits(code), ispeed := code)
    else if code == 0 then t.(iflag := t.iflag + {IBAUD0})
    else t.(iflag := t.iflag - {IBAUD0}, cflag := (t.cflag - CBAUD) + RateBits(code))
  }

  /** cf2setospeed_custom(), which refuses speeds that are not positive. */
  function Cf2SetOspeedCustom(t: Termios, speed: int): Termios {
    if speed <= 0 then t else t.(cflag := (t.cflag - CBAUD) + RateBits(BOTHER), ospeed := speed)
  }

  /** cf2setispeed_custom() */
  function Cf2SetIspeedCustom(t: Termios, speed: int): Termios {
    if speed < 0 then t
    else if speed == 0 then t.(cflag := t.cflag - CIBAUD)
    else t.(cflag := (t.cflag - CIBAUD) + InputBits(BOTHER), ispeed := speed)
  }

  predicate BaudOk(baud: int, custom: bool) {
    CodeOf(baud) != BNONE || (custom && baud > 0)
  }

  /** term_set_baudrate(): the output speed by its code or as it is, and an input speed of B0. */
  function SetBaudrate(t: Termios, baud: int, custom: bool): Termios {
    if CodeOf(baud) != BNONE then Cf2SetIspeed(CfSetOspeed(t, CodeOf(baud)), 0, custom)
    else if custom && baud > 0 then Cf2SetIspeed(Cf2SetOspeedCustom(t, baud), 0, custom)
    else t
  }

  /** term_set_raw() */
  function SetRaw(t: Termios): Termios {
    t.(iflag := t.iflag - RAW_IFLAGS, oflag := t.oflag - RAW_OFLAGS, lflag := t.lflag - RAW_LFLAGS,
       cflag := (t.cflag - CSIZE - {PARENB}) + CS8, vmin := 1, vtime := 0)
  }

  // ---------------------------------------------------------------------
  // Getters
  // ---------------------------------------------------------------------

  /** The number the CBAUD bits spell. */
  function RateCode(c: Flags): int {
    (if 0 in c then 1 else 0) + (if 1 in c then 2 else 0) + (if 2 in c then 4 else 0)
    + (if 3 in c then 8 else 0) + (if 12 in c then 16 else 0)
  }

  /** The number the CIBAUD bits spell. */
  function InputCode(c: Flags): int {
    (if 16 in c then 1 else 0) + (if 17 in c then 2 else 0) + (if 18 in c then 4 else 0)
    + (if 19 in c then 8 else 0) + (if 28 in c then 16 else 0)
  }

  /** term_get_baudrate() */
  function GetBaudrate(t: Termios, custom: bool): int {
    var speed := SpeedOf(RateCode(t.cflag));
    if speed >= 0 then speed else if custom then t.ospeed else -1
  }

  /** cf2getispeed(); without custom rates it is glibc's cfgetispeed(). */
  function CfGetIspeed(t: Termios, custom: bool): int {
    if custom then InputCode(t.cflag) else if IBAUD0 in t.iflag then 0 else RateCode(t.cflag)
  }

  /** The input speed that term_get_baudrate() reports beside it. */
  function GetInputRate(t: Termios, custom: bool): int {
    var speed := SpeedOf(CfGetIspeed(t, custom));
    if custom && speed < 0 then t.ispeed else speed
  }

  /** term_get_parity() */
  function ParityIn(c: Flags): Parity {
    if PARENB !in c then P_NONE
    else if CMSPAR in c then if PARODD in c then P_MARK else P_SPACE
    else if PARODD in c then P_ODD else P_EVEN
  }

  /** term_get_databits() */
  function DatabitsIn(c: Flags): int {
    if c * CSIZE == CS5 then 5 else if c * CSIZE == CS6 then 6 else if c * CSIZE == CS7 then 7 else 8
  }

  /** term_get_stopbits() */
  function StopbitsIn(c: Flags): int {
    if CSTOPB in c then 2 else 1
  }

  /** term_get_flowcntrl() */
  function FlowIn(c: Flags, i: Flags): Flow {
    var rtscts, xoff, xon := CRTSCTS in c, IXOFF in i, IXON in i || IXANY in i;
    if rtscts && !xoff && !xon then FC_RTSCTS
    else if !rtscts && xoff && xon then FC_XONXOFF
    else if !rtscts && !xoff && !xon then FC_NONE
    else FC_OTHER
  }

  // ---------------------------------------------------------------------
  // term_set(): everything at once
  // ---------------------------------------------------------------------

  datatype Request = Request(raw: bool, baud: int, parity: Parity, databits: int, stopbits: int,
                             flow: Flow, local: bool, hupcl: bool)

  /** The arguments term_set() accepts. */
  predicate Acceptable(req: Request, custom: bool) {
    && BaudOk(req.baud, custom) && ParityOk(req.parity)
    && DatabitsOk(req.databits) && StopbitsOk(req.stopbits) && FlowOk(req.flow)
  }

  /** The settings after each setter in turn. */
  function SetAll(t: Termios, req: Request, custom: bool): Termios {
    var t1 := if req.raw then SetRaw(t) else t;
    var t2 := SetBaudrate(t1, req.baud, custom);
    t2.(cflag := WithLine(t2.cflag, req), iflag := WithXon(t2.iflag, req.flow))
  }

  /** The control modes after everything but the rate. */
  function WithLine(c: Flags, req: Request): Flags {
    WithHupcl(WithLocal(WithFlow(WithStopbits(WithDatabits(WithParity(c,
      req.parity), req.databits), req.stopbits), req.flow), req.local), req.hupcl)
  }

  /** All the getters agree with the request. */
  predicate Reads(t: Termios, req: Request, custom: bool) {
    && GetBaudrate(t, custom) == req.baud
    && ParityIn(t.cflag) == req.parity
    && DatabitsIn(t.cflag) == req.databits
    && StopbitsIn(t.cflag) == req.stopbits
    && FlowIn(t.cflag, t.iflag) == req.flow
    && (CLOCAL in t.cflag) == req.local
    && (HUPCL in t.cflag) == req.hupcl
  }

  /** The control bits other than those of the settings. */
  function Rest(c: Flags): Flags {
    c - CBAUD - CIBAUD - CSIZE - {CSTOPB, PARENB, PARODD, HUPCL, CLOCAL, CMSPAR, CRTSCTS}
  }

  /** The bits that spell a number of data bits. */
  function SizeBits(bits: int): Flags {
    if bits == 5 then CS5 else if bits == 6 then CS6 else if bits == 7 then CS7 else CS8
  }

  /** Where each bit comes from in the end: the setting it belongs to, or else what it was. */
  lemma LineBit(c: Flags, req: Request, b: nat)
    requires DatabitsOk(req.databits) && StopbitsOk(req.stopbits) && FlowOk(req.flow)
    ensures b in WithLine(c, req) <==>
            if b == HUPCL then req.hupcl
            else if b == CLOCAL then req.local
            else if b == CRTSCTS then req.flow.FC_RTSCTS?
            else if b == CSTOPB then req.stopbits == 2
            else if b in CSIZE then b in SizeBits(req.databits)
            else b in WithParity(c, req.parity)
  {
    hide WithParity;
    var c1 := WithParity(c, req.parity);
    var c2 := WithDatabits(c1, req.databits);
    assert b in c2 <==> if b in CSIZE then b in SizeBits(req.databits) else b in c1;
    var c3 := WithStopbits(c2, req.stopbits);
    var c4 := WithFlow(c3, req.flow);
  }

  lemma ParityRead(c: Flags, parity: Parity)
    requires ParityOk(parity)
    ensures ParityIn(WithParity(c, parity)) == parity
  {
    match parity
    case P_NONE =>
    case P_EVEN =>
    case P_ODD =>
    case P_MARK =>
    case P_SPACE =>
  }

  /** Everything asked for is what the control modes say in the end. */
  lemma {:induction false} LineAsRequested(c: Flags, i: Flags, req: Request)
    requires ParityOk(req.parity) && DatabitsOk(req.databits) && StopbitsOk(req.stopbits) && FlowOk(req.flow)
    ensures var d := WithLine(c, req);
            && ParityIn(d) == req.parity && DatabitsIn(d) == req.databits && StopbitsIn(d) == req.stopbits
            && FlowIn(d, WithXon(i, req.flow)) == req.flow
            && (CLOCAL in d) == req.local && (HUPCL in d) == req.hupcl
  {
    hide WithLine, WithParity;
    var d := WithLine(c, req);
    ParityRead(c, req.parity);
    LineBit(c, req, PARENB);
    LineBit(c, req, PARODD);
    LineBit(c, req, CMSPAR);
    LineBit(c, req, CSTOPB);
    LineBit(c, req, CRTSCTS);
    LineBit(c, req, CLOCAL);
    LineBit(c, req, HUPCL);
    LineBit(c, req, 4);
    LineBit(c, req, 5);
    assert d * CSIZE == SizeBits(req.databits);
  }

  /** And nothing else has changed. */
  lemma {:induction false} LineLeavesRest(c: Flags, req: Request)
    requires DatabitsOk(req.databits) && StopbitsOk(req.stopbits) && FlowOk(req.flow)
    ensures var d := WithLine(c, req);
            RateCode(d) == RateCode(c) && InputCode(d) == InputCode(c) && Rest(d) == Rest(c)
  {
    hide WithLine;
    forall b | b in CBAUD || b in CIBAUD || b in Rest(c) || b in Rest(WithLine(c, req))
      ensures b in WithLine(c, req) <==> b in c
    {
      LineBit(c, req, b);
    }
  }

  /** The bits spell the code, and lie where the rates are kept. */
  lemma RateSpelled(code: int)
    requires 0 <= code < 32
    ensures RateCode(RateBits(code)) == code && RateBits(code) <= CBAUD
  {
  }

  lemma InputSpelled(code: int)
    requires 0 <= code < 32
    ensures InputCode(InputBits(code)) == code && InputBits(code) <= CIBAUD
  {
  }

  /** The rates depend on their own bits only. */
  lemma RatesIn(c: Flags, d: Flags)
    ensures (forall b | b in CBAUD :: b in c <==> b in d) ==> RateCode(c) == RateCode(d)
    ensures (forall b | b in CIBAUD :: b in c <==> b in d) ==> InputCode(c) == InputCode(d)
  {
  }

  lemma OutputRateSet(t: Termios, code: int)
    requires 0 <= code < 32
    ensures var c := CfSetOspeed(t, code).cflag;
            && RateCode(c) == code && InputCode(c) == InputCode(t.cflag) && Rest(c) == Rest(t.cflag)
            && CfSetOspeed(t, code).ospeed == code
  {
    hide RateCode, InputCode, RateBits;
    var c := CfSetOspeed(t, code).cflag;
    RateSpelled(code);
    RatesIn(c, RateBits(code));
    RatesIn(c, t.cflag);
  }

  /** A standard input rate is read back from its own bits, and does not touch the output rate. */
  lemma InputRateSet(t: Termios, code: int)
    requires 0 <= code < 32
    ensures var c := Cf2SetIspeed(t, code, true).cflag;
            InputCode(c) == code && RateCode(c) == RateCode(t.cflag) && Rest(c) == Rest(t.cflag)
  {
    hide RateCode, InputCode, RateBits, InputBits;
    var c := Cf2SetIspeed(t, code, true).cflag;
    InputSpelled(code);
    RatesIn(c, InputBits(code));
    RatesIn(c, t.cflag);
  }

  /** A custom output rate is the one stored beside its code. */
  lemma OutputRateCustom(t: Termios, speed: int)
    requires speed > 0
    ensures var u := Cf2SetOspeedCustom(t, speed);
            && GetBaudrate(u, true) == speed && u.ospeed == speed && u.ispeed == t.ispeed
            && RateCode(u.cflag) == BOTHER && InputCode(u.cflag) == InputCode(t.cflag) && Rest(u.cflag) == Rest(t.cflag)
  {
    hide SpeedFrom, RateCode, InputCode, Rest, RateBits;
    OtherHasNoSpeed(0);
    OutputRateSet(t, BOTHER);
  }

  /** A custom input rate, and 0 for "as the output rate". */
  lemma InputRateCustom(t: Termios, speed: int)
    requires speed >= 0
    ensures var u := Cf2SetIspeedCustom(t, speed);
            GetInputRate(u, true) == speed && RateCode(u.cflag) == RateCode(t.cflag) && u.ospeed == t.ospeed
  {
    hide SpeedFrom;
    OtherHasNoSpeed(0);
    SpeedOfRow(0, 0);
    InputRateSet(t, BOTHER);
    InputRateSet(t, 0);
    assert t.cflag - CIBAUD == (t.cflag - CIBAUD) + InputBits(0);
  }

  /**
   * A standard rate is read back from its code, any other positive one from the speed beside it. The
   * input rate is the one that stands for the output rate.
   */
  lemma {:induction false} RateRead(t: Termios, baud: int, custom: bool)
    requires BaudOk(baud, custom)
    ensures var u := SetBaudrate(t, baud, custom);
            GetBaudrate(u, custom) == baud && GetInputRate(u, custom) == 0 && Rest(u.cflag) == Rest(t.cflag)
  {
    hide RateCode, InputCode, RateBits, InputBits, SpeedFrom, CodeFrom, Rest;
    OtherHasNoSpeed(0);
    SpeedOfRow(0, 0);
    if CodeOf(baud) != BNONE {
      CodeInverse(baud, 0);
      OutputRateSet(t, CodeOf(baud));
      InputRateSet(CfSetOspeed(t, CodeOf(baud)), 0);
      SpeedsPositive(baud);
    } else {
      OutputRateSet(t, BOTHER);
      InputRateSet(Cf2SetOspeedCustom(t, baud), 0);
    }
  }

  lemma SpeedsPositive(baud: int)
    requires CodeOf(baud) != BNONE
    ensures baud >= 0
  {
    SomeRow(baud, 0);
  }

  lemma {:induction false} SomeRow(baud: int, i: nat)
    requires i <= BAUD_TABLE_SZ && CodeFrom(baud, i) != BNONE
    ensures baud >= 0
    decreases BAUD_TABLE_SZ - i
  {
    if BaudTable(i).speed != baud { SomeRow(baud, i + 1); }
  }

  /**
   * term_set() is canonical: whatever the settings were, every getter then returns what was asked
   * for, the remaining control bits are as they were, and so are local and output modes but for what
   * raw mode turns off: ISIG 0, ICANON 1, ECHO 3, ECHONL 6 and IEXTEN 15, and OPOST 0.
   */
  lemma {:induction false} SetAllReads(t: Termios, req: Request, custom: bool)
    requires Acceptable(req, custom)
    ensures var u := SetAll(t, req, custom);
            && Reads(u, req, custom)
            && Rest(u.cflag) == Rest(t.cflag)
            && u.lflag == (if req.raw then t.lflag - {0, 1, 3, 6, 15} else t.lflag)
            && u.oflag == (if req.raw then t.oflag - {0} else t.oflag)
            && u.vmin == (if req.raw then 1 else t.vmin) && u.vtime == (if req.raw then 0 else t.vtime)
            && u.cc == t.cc
  {
    hide WithLine, RateCode, ParityIn, DatabitsIn, StopbitsIn, FlowIn, Rest, WithXon;
    var t1 := if req.raw then SetRaw(t) else t;
    var t2 := SetBaudrate(t1, req.baud, custom);
    RawLeavesRest(t);
    RateRead(t1, req.baud, custom);
    LineAsRequested(t2.cflag, t2.iflag, req);
    LineLeavesRest(t2.cflag, req);
  }

  /** Raw mode reads as eight data bits and no parity, one byte at a time, and is there to stay. */
  lemma {:induction false} RawReads(t: Termios)
    ensures var u := SetRaw(t);
            && DatabitsIn(u.cflag) == 8 && ParityIn(u.cflag) == P_NONE && u.vmin == 1 && u.vtime == 0
            && RateCode(u.cflag) == RateCode(t.cflag) && StopbitsIn(u.cflag) == StopbitsIn(t.cflag)
            && !FlowIn(u.cflag, u.iflag).FC_XONXOFF? == (CRTSCTS in t.cflag || IXOFF !in t.iflag || IXANY !in t.iflag)
            && SetRaw(u) == u
  {
    var u := SetRaw(t);
    assert u.cflag * CSIZE == CS8;
    assert SetRaw(u).cflag == u.cflag && SetRaw(u).iflag == u.iflag;
    assert SetRaw(u).oflag == u.oflag && SetRaw(u).lflag == u.lflag;
  }

  lemma RawLeavesRest(t: Termios)
    ensures Rest(SetRaw(t).cflag) == Rest(t.cflag)
  {
  }
}
