/** Character mapping and hexadecimal notation in ppcom.cpp. */
module CharMap {
  import opened Bytes

  datatype Flag =
    | CrLf | CrCrLf | IgnCr
    | LfCr | LfCrLf | IgnLf
    | DelBs | BsDel
    | SpcHex | TabHex | CrHex | LfHex | EightBitHex | NrmHex

  type Mapping = set<Flag>

  const M_MAXMAP := 4

  function HexDigit(n: int): byte
    requires 0 <= n < 16
  {
    if n < 10 then 48 + n else 87 + n
  }

  /** map2hex() */
  function Map2Hex(c: byte): (r: seq<byte>)
    ensures |r| == M_MAXMAP
  {
    [91, HexDigit(c / 16), HexDigit(c % 16), 93]
  }

  predicate Special(c: byte) {
    c == DEL || (c < 0x20 && c != TAB && c != LF && c != CR)
  }

  datatype Replacement = Unmapped | By(bytes: seq<byte>)

  /** The switch of do_map(). */
  function MapKey(flags: Mapping, c: byte): Replacement {
    if c == DEL then
      if DelBs in flags then By([BS]) else Unmapped
    else if c == BS then
      if BsDel in flags then By([DEL]) else Unmapped
    else if c == CR then
      if CrLf in flags then By([LF])
      else if CrCrLf in flags then By([CR, LF])
      else if IgnCr in flags then By([])
      else if CrHex in flags then By(Map2Hex(c))
      else Unmapped
    else if c == LF then
      if LfCr in flags then By([CR])
      else if LfCrLf in flags then By([CR, LF])
      else if IgnLf in flags then By([])
      else if LfHex in flags then By(Map2Hex(c))
      else Unmapped
    else if c == TAB then
      if TabHex in flags then By(Map2Hex(c)) else Unmapped
    else Unmapped
  }

  /** do_map(), taking the documented meaning of the mappings to nothing. */
  function DoMap(flags: Mapping, c: byte): (r: seq<byte>)
    ensures |r| <= M_MAXMAP
  {
    var m := MapKey(flags, c);
    if m.By? then m.bytes
    else if SpcHex in flags && Special(c) then Map2Hex(c)
    else if EightBitHex in flags && c >= 0x80 then Map2Hex(c)
    else if NrmHex in flags && 0x20 <= c < 0x7f then Map2Hex(c)
    else [c]
  }

  /** The mappings in the order in which the manual lists them. */
  const LISTED: seq<Flag> :=
    [CrLf, CrCrLf, IgnCr, LfCr, LfCrLf, IgnLf, BsDel, DelBs, SpcHex, TabHex, CrHex, LfHex, EightBitHex, NrmHex]

  predicate Concerns(f: Flag, c: byte) {
    match f
    case CrLf | CrCrLf | IgnCr | CrHex => c == 13
    case LfCr | LfCrLf | IgnLf | LfHex => c == 10
    case BsDel => c == 8
    case DelBs => c == 127
    case TabHex => c == 9
    case SpcHex => (c < 32 || c == 127) && c !in [13, 10, 9]
    case EightBitHex => 128 <= c
    case NrmHex => 32 <= c < 127
  }

  /** A hexadecimal digit, in lower case. */
  function HexLetter(n: int): byte
    requires 0 <= n < 16
  {
    "0123456789abcdef"[n] as int
  }

  function Meaning(f: Flag, c: byte): seq<byte> {
    match f
    case CrLf => [10]
    case CrCrLf | LfCrLf => [13, 10]
    case IgnCr | IgnLf => []
    case LfCr => [13]
    case BsDel => [127]
    case DelBs => [8]
    case _ => ['[' as int, HexLetter(c / 16), HexLetter(c % 16), ']' as int]
  }

  predicate AppliesAt(flags: Mapping, c: byte, i: nat)
    requires i < |LISTED|
  {
    LISTED[i] in flags && Concerns(LISTED[i], c)
  }

  /** Of the mappings that apply to a character, only the first in the listed order is applied. */
  lemma FirstListedApplies(flags: Mapping, c: byte, i: nat)
    requires i < |LISTED| && AppliesAt(flags, c, i)
    requires forall j: nat | j < i :: !AppliesAt(flags, c, j)
    ensures DoMap(flags, c) == Meaning(LISTED[i], c)
  {
    hide LISTED, Map2Hex;
    HexMeans(c);
    forall f | f in flags && Concerns(f, c)
      ensures Position(f) >= i
    {
      assert AppliesAt(flags, c, Position(f));
    }
    assert Position(LISTED[i]) == i by { PositionOf(i); }
  }

  lemma HexMeans(c: byte)
    ensures Map2Hex(c) == Meaning(NrmHex, c)
  {
    SameDigit(c / 16);
    SameDigit(c % 16);
    hide HexDigit, HexLetter;
  }

  lemma SameDigit(n: int)
    requires 0 <= n < 16
    ensures HexDigit(n) == HexLetter(n)
  {
  }

  lemma PositionOf(i: nat)
    requires i < |LISTED|
    ensures Position(LISTED[i]) == i
  {
  }

  function Position(f: Flag): (i: nat)
    ensures i < |LISTED| && LISTED[i] == f
  {
    match f
    case CrLf => 0
    case CrCrLf => 1
    case IgnCr => 2
    case LfCr => 3
    case LfCrLf => 4
    case IgnLf => 5
    case BsDel => 6
    case DelBs => 7
    case SpcHex => 8
    case TabHex => 9
    case CrHex => 10
    case LfHex => 11
    case EightBitHex => 12
    case NrmHex => 13
  }

  /** A character to which no mapping applies stays as it is. */
  lemma UnmappedStays(flags: Mapping, c: byte)
    requires forall i: nat | i < |LISTED| :: !AppliesAt(flags, c, i)
    ensures DoMap(flags, c) == [c]
  {
    forall f | f in flags ensures !Concerns(f, c) {
      assert !AppliesAt(flags, c, Position(f));
    }
  }

  /** Exactly when do_map() returns 0, which its closing assertion does not allow for. */
  lemma MapsToNothing(flags: Mapping, c: byte)
    ensures DoMap(flags, c) == [] <==>
            || (c == CR && IgnCr in flags && CrLf !in flags && CrCrLf !in flags)
            || (c == LF && IgnLf in flags && LfCr !in flags && LfCrLf !in flags)
  {
  }

  /** The image of a stream of bytes. */
  function Image(flags: Mapping, s: seq<byte>): seq<byte> {
    if s == [] then [] else DoMap(flags, s[0]) + Image(flags, s[1..])
  }

  lemma {:induction false} ImageConcat(flags: Mapping, a: seq<byte>, b: seq<byte>)
    ensures Image(flags, a + b) == Image(flags, a) + Image(flags, b)
    decreases |a|
  {
    if a == [] {
      assert a + b == b;
    } else {
      assert (a + b)[1..] == a[1..] + b;
      ImageConcat(flags, a[1..], b);
    }
  }

  lemma ImageOne(flags: Mapping, c: byte)
    ensures Image(flags, [c]) == DoMap(flags, c)
  {
    assert [c][1..] == [];
  }

  // ---------------------------------------------------------------------
  // Reading hexadecimal notation
  // ---------------------------------------------------------------------

  /** hex2byte(): the value of a digit, or -1. */
  function Hex2Byte(c: byte): (v: int)
    ensures -1 <= v < 16
  {
    if 48 <= c <= 57 then c - 48
    else if 65 <= c <= 70 then c - 65 + 10
    else if 97 <= c <= 102 then c - 97 + 10
    else -1
  }

  predicate IsHexDelim(c: byte) {
    c in [32, 13, 59, 58, 45, 95, 46, 44, 47]
  }

  /** Digits of either case. */
  lemma HexDigits(k: nat)
    requires k < 16
    ensures Hex2Byte("0123456789abcdef"[k] as int) == k == Hex2Byte("0123456789ABCDEF"[k] as int)
  {
  }

  /** No other character is one; and the characters that may stand between bytes. */
  lemma HexCharacters(c: byte)
    ensures c as char !in "0123456789abcdefABCDEF" ==> Hex2Byte(c) == -1
    ensures IsHexDelim(c) <==> c as char in " \r;:-_.,/"
  {
    if 48 <= c <= 57 {
      assert "0123456789abcdefABCDEF"[c - 48] == c as char;
    } else if 97 <= c <= 102 {
      assert "0123456789abcdefABCDEF"[c - 87] == c as char;
    } else if 65 <= c <= 70 {
      assert "0123456789abcdefABCDEF"[c - 49] == c as char;
    }
  }

  datatype HexRead = HexRead(bytes: seq<byte>, ok: bool)

  /** What hex2bin() reads from a string into a buffer of `sz` bytes; NUL ends the string. */
  function ReadHex(str: seq<byte>, sz: nat): HexRead
    decreases |str|
  {
    if sz == 0 || str == [] || str[0] == NUL then HexRead([], true)
    else if IsHexDelim(str[0]) then ReadHex(str[1..], sz)
    else if Hex2Byte(str[0]) < 0 || |str| == 1 || Hex2Byte(str[1]) < 0 then HexRead([], false)
    else
      var r := ReadHex(str[2..], sz - 1);
      HexRead([Hex2Byte(str[0]) * 16 + Hex2Byte(str[1])] + r.bytes, r.ok)
  }

  lemma NulIsNoDigit()
    ensures Hex2Byte(NUL) < 0
  {
  }

  method Hex2Bin(buf: array<byte>, sz: nat, str: seq<byte>) returns (r: int)
    requires sz <= buf.Length
    modifies buf
    ensures var read := ReadHex(str, sz);
            && r == (if read.ok then |read.bytes| else -1)
            && |read.bytes| <= sz
            && buf[..|read.bytes|] == read.bytes
            && buf[|read.bytes|..] == old(buf[|read.bytes|..])
  {
    hide Hex2Byte, IsHexDelim;
    var i, p := 0, 0;
    ghost var goal := ReadHex(str, sz);
    assert str[0..] == str;
    while i < sz
      invariant i <= sz && p <= |str|
      invariant buf[i..] == old(buf[i..])
      invariant var rest := ReadHex(str[p..], sz - i); goal == HexRead(buf[..i] + rest.bytes, rest.ok)
      decreases |str| - p
    {
      ghost var here := str[p..];
      if p == |str| || str[p] == NUL { break; }
      var c := str[p];
      p := p + 1;
      assert here[1..] == str[p..];
      if IsHexDelim(c) { continue; }
      var b0 := Hex2Byte(c);
      if b0 < 0 {
        assert goal.bytes == buf[..i];
        return -1;
      }
      if p == |str| || str[p] == NUL {
        NulIsNoDigit();
        assert goal.bytes == buf[..i];
        return -1;
      }
      var b1 := Hex2Byte(str[p]);
      p := p + 1;
      assert here[2..] == str[p..];
      if b1 < 0 {
        assert goal.bytes == buf[..i];
        return -1;
      }
      buf[i] := b0 * 16 + b1;
      i := i + 1;
    }
    assert goal.bytes == buf[..i];
    return i;
  }

  /** A piece of hexadecimal text: a delimiter, or the two digits of a byte. */
  datatype Token = Delim(c: byte) | Pair(hi: byte, lo: byte) {
    predicate WellFormed() {
      match this
      case Delim(c) => IsHexDelim(c)
      case Pair(hi, lo) => Hex2Byte(hi) >= 0 && Hex2Byte(lo) >= 0
    }
  }

  predicate WellFormed(ts: seq<Token>) {
    forall k | 0 <= k < |ts| :: ts[k].WellFormed()
  }

  function Written(ts: seq<Token>): seq<byte> {
    if ts == [] then []
    else (match ts[0] case Delim(c) => [c] case Pair(hi, lo) => [hi, lo]) + Written(ts[1..])
  }

  function Values(ts: seq<Token>): seq<byte>
    requires WellFormed(ts)
  {
    if ts == [] then []
    else if ts[0].Delim? then Values(ts[1..])
    else [Hex2Byte(ts[0].hi) * 16 + Hex2Byte(ts[0].lo)] + Values(ts[1..])
  }

  lemma ReadToken(t: Token, rest: seq<byte>, sz: nat)
    requires t.WellFormed() && sz > 0
    ensures t.Delim? ==> ReadHex([t.c] + rest, sz) == ReadHex(rest, sz)
    ensures t.Pair? ==> var r := ReadHex(rest, sz - 1);
                        ReadHex([t.hi, t.lo] + rest, sz) ==
                        HexRead([Hex2Byte(t.hi) * 16 + Hex2Byte(t.lo)] + r.bytes, r.ok)
  {
    if t.Delim? {
      assert ([t.c] + rest)[1..] == rest;
    } else {
      assert ([t.hi, t.lo] + rest)[2..] == rest;
    }
  }

  /** Delimiters and pairs of digits in any order are accepted, as far as the buffer goes. */
  lemma {:induction false} HexAccepts(ts: seq<Token>, sz: nat)
    requires WellFormed(ts)
    ensures ReadHex(Written(ts), sz) ==
            HexRead(if |Values(ts)| <= sz then Values(ts) else Values(ts)[..sz], true)
    decreases |ts|
  {
    hide Hex2Byte, IsHexDelim, Written, Values;
    if ts == [] {
      NoTokens();
    } else if sz > 0 {
      hide ReadHex;
      var t, rest := ts[0], ts[1..];
      assert ts == [t] + rest;
      MoreTokens(t, rest);
      ReadToken(t, Written(rest), sz);
      HexAccepts(rest, if t.Delim? then sz else sz - 1);
    }
  }

  /** Nothing else is: what is read comes from such a sequence, the whole string if there is room left. */
  lemma {:induction false} HexAcceptsOnly(str: seq<byte>, sz: nat) returns (ts: seq<Token>)
    requires NUL !in str && ReadHex(str, sz).ok
    ensures WellFormed(ts) && Values(ts) == ReadHex(str, sz).bytes
    ensures Written(ts) <= str && (|Values(ts)| < sz ==> Written(ts) == str)
    decreases |str|
  {
    hide Hex2Byte, IsHexDelim, Written, Values;
    if sz == 0 || str == [] {
      NoTokens();
      ts := [];
    } else if IsHexDelim(str[0]) {
      var rest := HexAcceptsOnly(str[1..], sz);
      MoreTokens(Delim(str[0]), rest);
      ts := [Delim(str[0])] + rest;
      assert [str[0]] + str[1..] == str;
    } else {
      var rest := HexAcceptsOnly(str[2..], sz - 1);
      MoreTokens(Pair(str[0], str[1]), rest);
      ts := [Pair(str[0], str[1])] + rest;
      assert [str[0], str[1]] + str[2..] == str;
    }
  }

  /** A NUL ends the string, wherever it is. */
  lemma {:induction false} HexEndsAtNul(str: seq<byte>, rest: seq<byte>, sz: nat)
    ensures ReadHex(str + [0] + rest, sz) == ReadHex(str, sz)
    decreases |str|
  {
    hide Hex2Byte, IsHexDelim;
    NulIsNoDigit();
    var all := str + [0] + rest;
    if str != [] && sz > 0 {
      assert all[0] == str[0] && all[1..] == str[1..] + [0] + rest;
      HexEndsAtNul(str[1..], rest, sz);
      if |str| > 1 {
        assert all[1] == str[1] && all[2..] == str[2..] + [0] + rest;
        HexEndsAtNul(str[2..], rest, sz - 1);
      } else {
        assert all[1] == 0;
      }
    }
  }

  lemma NoTokens()
    ensures WellFormed([]) && Written([]) == [] && Values([]) == []
  {
  }

  lemma MoreTokens(t: Token, ts: seq<Token>)
    requires t.WellFormed() && WellFormed(ts)
    ensures var all := [t] + ts;
            && WellFormed(all)
            && Written(all) == (match t case Delim(c) => [c] case Pair(hi, lo) => [hi, lo]) + Written(ts)
            && Values(all) == (if t.Delim? then [] else [Hex2Byte(t.hi) * 16 + Hex2Byte(t.lo)]) + Values(ts)
  {
    hide Hex2Byte, IsHexDelim;
    assert ([t] + ts)[1..] == ts;
  }

  // ---------------------------------------------------------------------
  // Mapping everything to hexadecimal loses nothing
  // ---------------------------------------------------------------------

  const ALL_HEX: Mapping := {SpcHex, TabHex, CrHex, LfHex, EightBitHex, NrmHex}

  datatype Option<T> = None | Some(value: T)

  /** Reading a stream of bracketed byte values. */
  function Unbracket(s: seq<byte>): Option<seq<byte>> {
    if s == [] then Some([])
    else if |s| < 4 || s[0] != 91 || s[3] != 93 || Hex2Byte(s[1]) < 0 || Hex2Byte(s[2]) < 0 then None
    else
      match Unbracket(s[4..])
      case None => None
      case Some(rest) => Some([Hex2Byte(s[1]) * 16 + Hex2Byte(s[2])] + rest)
  }

  lemma NothingBracketed()
    ensures Unbracket([]) == Some([])
  {
  }

  lemma AllMapped(c: byte)
    ensures DoMap(ALL_HEX, c) == Map2Hex(c)
  {
  }

  lemma DigitRead(n: int)
    requires 0 <= n < 16
    ensures Hex2Byte(HexDigit(n)) == n
  {
  }

  lemma {:induction false} Unbracketed(c: byte, rest: seq<byte>)
    ensures Unbracket(Map2Hex(c) + rest) ==
            match Unbracket(rest)
            case None => None
            case Some(r) => Some([c] + r)
  {
    hide HexDigit, Hex2Byte;
    var s := Map2Hex(c) + rest;
    DigitRead(c / 16);
    DigitRead(c % 16);
    assert s[4..] == rest;
  }

  lemma {:induction false} HexImageDecodes(s: seq<byte>)
    ensures Unbracket(Image(ALL_HEX, s)) == Some(s)
    decreases |s|
  {
    hide DoMap, Map2Hex, Unbracket;
    if s == [] {
      NothingBracketed();
    } else {
      AllMapped(s[0]);
      HexImageDecodes(s[1..]);
      Unbracketed(s[0], Image(ALL_HEX, s[1..]));
      assert [s[0]] + s[1..] == s;
    }
  }
}
