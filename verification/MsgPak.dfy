/** The message of msgpak.cpp: two numbers and a text, written with bars in between. */
module MsgPak {
  const INT_MAX := 0x7fff_ffff
  const INT_MIN := -0x8000_0000
  const SIZE := 0x1_0000_0000_0000_0000

  /** std::string::npos, the largest size_t; `npos + 1` is 0. */
  const NPOS := SIZE - 1

  predicate IsInt(i: int) {
    INT_MIN <= i <= INT_MAX
  }

  predicate IsDigit(c: char) {
    '0' <= c <= '9'
  }

  // ---------------------------------------------------------------------
  // Decimal numbers
  // ---------------------------------------------------------------------

  function Digits(n: nat): (r: string)
    ensures r != [] && forall k | 0 <= k < |r| :: IsDigit(r[k])
  {
    var last := ['0' + (n % 10) as char];
    if n < 10 then last else Digits(n / 10) + last
  }

  /** Decimal, the last digit being that of the ones. */
  lemma DigitsWritten(n: nat)
    ensures var d := Digits(n);
            d[|d| - 1] as int == 48 + n % 10 && d[..|d| - 1] == if n < 10 then "" else Digits(n / 10)
  {
  }

  /** std::to_string() */
  function ToString(i: int): string {
    if i < 0 then "-" + Digits(-i) else Digits(i)
  }

  /** The number that the digits at the start of `s` continue. */
  function Number(s: string, acc: nat): nat
    decreases |s|
  {
    if s == [] || !IsDigit(s[0]) then acc else Number(s[1..], 10 * acc + (s[0] - '0') as nat)
  }

  predicate IsSpace(c: char) {
    c == ' ' || 9 as char <= c <= 13 as char
  }

  function SkipSpace(s: string): string
    decreases |s|
  {
    if s != [] && IsSpace(s[0]) then SkipSpace(s[1..]) else s
  }

  datatype Parsed = Int(value: int) | InvalidArgument | OutOfRange

  /** std::stoi(): white space, a sign, and as many digits as there are; what follows does not matter. */
  function Stoi(s: string): (r: Parsed)
    ensures r.Int? ==> IsInt(r.value)
  {
    var t := SkipSpace(s);
    var u := if t != [] && (t[0] == '-' || t[0] == '+') then t[1..] else t;
    if u == [] || !IsDigit(u[0]) then InvalidArgument
    else
      var n: int := Number(u, 0);
      var v := if t[0] == '-' then -n else n;
      if IsInt(v) then Int(v) else OutOfRange
  }

  lemma {:induction false} NumberGoesOn(a: string, b: string, acc: nat)
    requires forall k | 0 <= k < |a| :: IsDigit(a[k])
    ensures Number(a + b, acc) == Number(b, Number(a, acc))
    decreases |a|
  {
    if a == [] {
      assert a + b == b;
    } else {
      assert (a + b)[1..] == a[1..] + b;
      NumberGoesOn(a[1..], b, 10 * acc + (a[0] - '0') as nat);
    }
  }

  lemma {:induction false} DigitsRead(n: nat, rest: string)
    requires rest == [] || !IsDigit(rest[0])
    ensures Number(Digits(n) + rest, 0) == n
    decreases n
  {
    var last := ['0' + (n % 10) as char];
    NumberGoesOn(Digits(n), rest, 0);
    if n < 10 {
      OneDigit(n, 0);
    } else {
      NumberGoesOn(Digits(n / 10), last, 0);
      DigitsRead(n / 10, []);
      assert Digits(n / 10) + [] == Digits(n / 10);
      OneDigit(n % 10, n / 10);
    }
  }

  lemma OneDigit(d: nat, acc: nat)
    requires d < 10
    ensures Number(['0' + d as char], acc) == 10 * acc + d
  {
    var s := ['0' + d as char];
    assert s[1..] == [] && (s[0] - '0') as nat == d;
  }

  /** Every int is read back, whatever follows it but another digit. */
  lemma {:induction false} IntRead(i: int, rest: string)
    requires rest == [] || !IsDigit(rest[0])
    ensures Stoi(ToString(i) + rest) == if IsInt(i) then Int(i) else OutOfRange
  {
    var n: nat := if i < 0 then -i else i;
    DigitsRead(n, rest);
    var s := ToString(i) + rest;
    assert s[0] == if i < 0 then '-' else Digits(n)[0];
    assert SkipSpace(s) == s;
    if i < 0 { assert s[1..] == Digits(n) + rest; }
  }

  lemma {:induction false} SpacesSkipped(spaces: string, t: string)
    requires forall k | 0 <= k < |spaces| :: spaces[k] as int in {32, 9, 10, 11, 12, 13}
    requires t == "" || t[0] as int !in {32, 9, 10, 11, 12, 13}
    ensures SkipSpace(spaces + t) == t
    decreases |spaces|
  {
    if spaces == "" {
      assert spaces + t == t;
    } else {
      assert (spaces + t)[1..] == spaces[1..] + t;
      SpacesSkipped(spaces[1..], t);
    }
  }

  lemma {:induction false} ZerosSkipped(zeros: string, s: string)
    requires forall k | 0 <= k < |zeros| :: zeros[k] == '0'
    ensures Number(zeros + s, 0) == Number(s, 0)
    decreases |zeros|
  {
    if zeros == "" {
      assert zeros + s == s;
    } else {
      assert (zeros + s)[1..] == zeros[1..] + s;
      ZerosSkipped(zeros[1..], s);
    }
  }

  /**
   * However a number is written: white space, a sign or none, leading zeros, and whatever follows it but
   * another digit.
   */
  lemma {:induction false} NumberRead(spaces: string, sign: string, zeros: string, n: nat, rest: string)
    requires forall k | 0 <= k < |spaces| :: spaces[k] as int in {32, 9, 10, 11, 12, 13}
    requires sign in {"", "+", "-"} && forall k | 0 <= k < |zeros| :: zeros[k] == '0'
    requires rest == "" || !('0' <= rest[0] <= '9')
    ensures Stoi(spaces + sign + zeros + Digits(n) + rest) ==
            if sign == "-" then if n <= 2147483648 then Int(0 - (n as int)) else OutOfRange
            else if n <= 2147483647 then Int(n) else OutOfRange
  {
    var u := zeros + (Digits(n) + rest);
    var t := sign + u;
    assert spaces + sign + zeros + Digits(n) + rest == spaces + t;
    StartsWithDigit(zeros, n, rest);
    hide Digits, Number, SkipSpace, IsSpace;
    if sign == "" { assert t == u; } else { assert t[0] == sign[0] && t[1..] == u; }
    SpacesSkipped(spaces, t);
  }

  lemma {:induction false} StartsWithDigit(zeros: string, n: nat, rest: string)
    requires forall k | 0 <= k < |zeros| :: zeros[k] == '0'
    requires rest == "" || !('0' <= rest[0] <= '9')
    ensures var u := zeros + (Digits(n) + rest); '0' <= u[0] <= '9' && Number(u, 0) == n
  {
    var u := zeros + (Digits(n) + rest);
    assert u[0] == if zeros != "" then zeros[0] else Digits(n)[0];
    hide Digits, Number;
    ZerosSkipped(zeros, Digits(n) + rest);
    DigitsRead(n, rest);
  }

  /** Without a digit after white space and sign there is no number. */
  lemma {:induction false} NoNumber(spaces: string, sign: string, rest: string)
    requires forall k | 0 <= k < |spaces| :: spaces[k] as int in {32, 9, 10, 11, 12, 13}
    requires sign in {"", "+", "-"} && (rest == "" || !('0' <= rest[0] <= '9'))
    requires sign == "" && rest != "" ==> rest[0] as int !in {32, 9, 10, 11, 12, 13, 43, 45}
    ensures Stoi(spaces + sign + rest) == InvalidArgument
  {
    var t := sign + rest;
    assert spaces + sign + rest == spaces + t;
    SpacesSkipped(spaces, t);
    if sign == "" { assert t == rest; } else { assert t[0] == sign[0] && t[1..] == rest; }
  }

  /** A number has no bar in it. */
  lemma NoBar(i: int)
    ensures '|' !in ToString(i)
  {
  }

  // ---------------------------------------------------------------------
  // The message
  // ---------------------------------------------------------------------

  /** The position of the first bar from `pos` on. */
  function FindBar(s: string, pos: nat): (r: nat)
    requires |s| < NPOS
    ensures r == NPOS || (pos <= r < |s| && s[r] == '|')
    ensures forall k | pos <= k < (if r == NPOS then |s| else r) :: s[k] != '|'
    decreases |s| - pos
  {
    if pos >= |s| then NPOS else if s[pos] == '|' then pos else FindBar(s, pos + 1)
  }

  /** std::string::substr(), of a start within the string. */
  function Substr(s: string, pos: nat, n: nat): string
    requires pos <= |s|
  {
    s[pos..if n < |s| - pos then pos + n else |s|]
  }

  datatype Message = Message(index: int, id: int, text: string)

  function Serialize(m: Message): string {
    ToString(m.index) + "|" + ToString(m.id) + "|" + m.text
  }

  datatype Status = Ok | Thrown(error: Parsed)

  datatype Result = Result(m: Message, status: Status)

  /** What deserialize() makes of a message: a number that cannot be read leaves the rest as it was. */
  function Deserialize(m: Message, data: string): Result
    requires |data| < NPOS
  {
    var first := FindBar(data, 0);
    var second := FindBar(data, (first + 1) % SIZE);
    var index := Stoi(Substr(data, 0, first));
    if !index.Int? then Result(m, Thrown(index))
    else
      var m1 := m.(index := index.value);
      var id := Stoi(Substr(data, (first + 1) % SIZE, (second - first - 1) % SIZE));
      if !id.Int? then Result(m1, Thrown(id))
      else Result(m1.(id := id.value, text := Substr(data, (second + 1) % SIZE, NPOS)), Ok)
  }

  lemma FirstBar(a: string, rest: string)
    requires '|' !in a && |a + "|" + rest| < NPOS
    ensures FindBar(a + "|" + rest, 0) == |a|
  {
    var data := a + "|" + rest;
    assert data[|a|] == '|';
    assert forall k | 0 <= k < |a| :: data[k] == a[k];
  }

  lemma SecondBar(a: string, b: string, c: string)
    requires '|' !in b && |a + "|" + b + "|" + c| < NPOS
    ensures FindBar(a + "|" + b + "|" + c, |a| + 1) == |a| + 1 + |b|
  {
    var data := a + "|" + b + "|" + c;
    assert data[|a| + 1 + |b|] == '|';
    assert forall k | |a| < k < |a| + 1 + |b| :: data[k] == b[k - |a| - 1];
  }

  lemma Cuts(a: string, b: string, c: string)
    ensures var data := a + "|" + b + "|" + c;
            && Substr(data, 0, |a|) == a && Substr(data, |a| + 1, |b|) == b
            && (|c| <= NPOS ==> Substr(data, |a| + 1 + |b| + 1, NPOS) == c)
  {
  }

  /** The three parts of a string with two bars. */
  lemma {:induction false} Parts(m: Message, a: string, b: string, c: string)
    requires '|' !in a && '|' !in b && |a + "|" + b + "|" + c| < NPOS
    ensures var r := Deserialize(m, a + "|" + b + "|" + c);
            if !Stoi(a).Int? then r == Result(m, Thrown(Stoi(a)))
            else if !Stoi(b).Int? then r == Result(m.(index := Stoi(a).value), Thrown(Stoi(b)))
            else r == Result(Message(Stoi(a).value, Stoi(b).value, c), Ok)
  {
    hide Stoi, FindBar, Substr;
    var data := a + "|" + b + "|" + c;
    assert data == a + "|" + (b + "|" + c);
    FirstBar(a, b + "|" + c);
    SecondBar(a, b, c);
    Cuts(a, b, c);
    NoWrap(|a|, |b|);
  }

  lemma NoWrap(m: nat, n: nat)
    requires m + n + 2 < SIZE
    ensures (m + 1) % SIZE == m + 1 && (m + 1 + n - m - 1) % SIZE == n && (m + 1 + n + 1) % SIZE == m + 1 + n + 1
  {
  }

  /** What is serialized is deserialized: all ints, and all texts, bars in them or not. */
  lemma {:induction false} RoundTrip(m: Message, other: Message)
    requires IsInt(m.index) && IsInt(m.id) && |Serialize(m)| < NPOS
    ensures Deserialize(other, Serialize(m)) == Result(m, Ok)
  {
    hide Stoi, Deserialize;
    NoBar(m.index);
    NoBar(m.id);
    Parts(other, ToString(m.index), ToString(m.id), m.text);
    IntRead(m.index, "");
    IntRead(m.id, "");
    assert ToString(m.index) + "" == ToString(m.index) && ToString(m.id) + "" == ToString(m.id);
  }

  /** Positions wrap around: without any bar the one number is both index and id, and all is text. */
  lemma {:induction false} NoBars(m: Message, a: string)
    requires '|' !in a && |a| < NPOS
    ensures Deserialize(m, a)
         == if Stoi(a).Int? then Result(Message(Stoi(a).value, Stoi(a).value, a), Ok) else Result(m, Thrown(Stoi(a)))
  {
    hide Stoi;
    assert FindBar(a, 0) == NPOS && Substr(a, 0, NPOS) == a;
  }

  lemma NoSecondBar(a: string, b: string)
    requires '|' !in b && |a + "|" + b| < NPOS
    ensures FindBar(a + "|" + b, |a| + 1) == NPOS
  {
    var data := a + "|" + b;
    assert forall k | |a| < k < |data| :: data[k] == b[k - |a| - 1];
  }

  lemma OneCut(a: string, b: string)
    requires |a + "|" + b| < NPOS
    ensures var data := a + "|" + b;
            Substr(data, 0, |a|) == a && Substr(data, 0, NPOS) == data && Substr(data, |a| + 1, NPOS - |a| - 1) == b
  {
  }

  /** With only one bar, all of the string, numbers and bar included, is taken for the text. */
  lemma {:induction false} OneBar(m: Message, a: string, b: string)
    requires '|' !in a && '|' !in b && |a + "|" + b| < NPOS
    ensures var r := Deserialize(m, a + "|" + b);
            if !Stoi(a).Int? then r == Result(m, Thrown(Stoi(a)))
            else if !Stoi(b).Int? then r == Result(m.(index := Stoi(a).value), Thrown(Stoi(b)))
            else r == Result(Message(Stoi(a).value, Stoi(b).value, a + "|" + b), Ok)
  {
    hide Stoi, FindBar, Substr;
    FirstBar(a, b);
    NoSecondBar(a, b);
    OneCut(a, b);
    assert (|a| + 1) % SIZE == |a| + 1 && (NPOS + 1) % SIZE == 0 && (NPOS - |a| - 1) % SIZE == NPOS - |a| - 1;
  }

  // ---------------------------------------------------------------------
  // The object
  // ---------------------------------------------------------------------

  class Pak {
    var index: int
    var id: int
    var message: string

    ghost function Value(): Message
      reads this
    {
      Message(index, id, message)
    }

    constructor (idx: int, identifier: int, msg: string)
      requires IsInt(idx) && IsInt(identifier)
      ensures Value() == Message(idx, identifier, msg)
    {
      index, id, message := idx, identifier, msg;
    }

    method ToText() returns (s: string)
      ensures s == Serialize(Value())
    {
      s := ToString(index) + "|" + ToString(id) + "|" + message;
    }

    /** deserialize(); the fields set before a number cannot be read stay set. */
    method FromText(data: string) returns (status: Status)
      requires |data| < NPOS
      modifies this
      ensures Result(Value(), status) == Deserialize(old(Value()), data)
    {
      hide Stoi, Substr;
      var first := FindBar(data, 0);
      var second := FindBar(data, (first + 1) % SIZE);
      var n := Stoi(Substr(data, 0, first));
      if !n.Int? { return Thrown(n); }
      index := n.value;
      n := Stoi(Substr(data, (first + 1) % SIZE, (second - first - 1) % SIZE));
      if !n.Int? { return Thrown(n); }
      id := n.value;
      message := Substr(data, (second + 1) % SIZE, NPOS);
      status := Ok;
    }
  }
}
