/** The text form of CAN frames: the line printed by pcan_make_output and read back by
    pcan_parse_input_message. */
module TextFormat {
  import opened Common
  import opened Words

  const CAN20_MSG: u16 := 1
  const CANFD_MSG: u16 := 2
  const STATUS: u16 := 3
  const MAXDATALEN := 64

  type Payload = s: seq<u8> | |s| == MAXDATALEN witness Zeros(64)

  /** The bits of pcanfd_msg.flags that the text interface looks at. */
  datatype Flags = Flags(rtr: bool, ext: bool, slf: bool, brs: bool, timestamp: bool,
                         errorBus: bool, errorCtrlr: bool, errorInternal: bool)

  const NONE := Flags(false, false, false, false, false, false, false, false)

  datatype Msg = Msg(msgType: u16, dataLen: u16, id: u32, flags: Flags, tvSec: int, tvUsec: int, data: Payload)

  // ---------------------------------------------------------------- numbers in text

  function HexDigit(n: nat): char
    requires n < 16
  {
    if n < 10 then '0' + n as char else 'a' + (n - 10) as char
  }

  /** printf's %0wx for a value of at most w digits. */
  function Hex(v: nat, w: nat): (s: string)
    ensures |s| == w && forall c :: c in s ==> 0 <= DigitOf(c) < 16
    decreases w
  {
    if w == 0 then "" else Hex(v / 16, w - 1) + [HexDigit(v % 16)]
  }

  /** printf's %u. */
  function Decimal(v: nat): (s: string)
    ensures |s| > 0 && (forall c :: c in s ==> IsDigit(c)) && (v > 0 ==> s[0] != '0') && (v < 10 ==> |s| == 1)
  {
    if v < 10 then [HexDigit(v)] else Decimal(v / 10) + [HexDigit(v % 10)]
  }

  /** A field width: c on the left until the text is w characters long. */
  function Pad(s: string, w: nat, c: char): (p: string)
    ensures |p| == Max(|s|, w)
    ensures forall x :: x in p ==> x in s || x == c
    decreases w - |s|
  {
    if |s| >= w then s else Pad([c] + s, w, c)
  }

  predicate IsDigit(c: char) { '0' <= c <= '9' }

  predicate IsBlank(c: char) { c == ' ' || c == '\t' }

  predicate IsEol(c: char) { c == '\0' || c == '\n' || c == '\r' }

  /** Value of a digit in any base up to 16, or -1. */
  function DigitOf(c: char): int {
    if '0' <= c <= '9' then c as int - '0' as int
    else if 'a' <= c <= 'f' then c as int - 'a' as int + 10
    else if 'A' <= c <= 'F' then c as int - 'A' as int + 10
    else -1
  }

  predicate StartsDigit(s: string, base: nat) { s != [] && 0 <= DigitOf(s[0]) < base }

  function SkipBlanks(s: string): string {
    if s != [] && IsBlank(s[0]) then SkipBlanks(s[1..]) else s
  }

  predicate AtEol(s: string) { s == [] || IsEol(s[0]) }

  /** Value of the leading digits and the text after them. */
  function ScanDigits(s: string, base: nat, acc: nat): (nat, string) {
    if StartsDigit(s, base) then ScanDigits(s[1..], base, acc * base + DigitOf(s[0])) else (acc, s)
  }

  /** simple_strtoul with base 0: 0x and a hexadecimal digit, 0 for octal, else decimal. */
  predicate IsHexNumber(s: string) {
    |s| > 2 && s[0] == '0' && (s[1] == 'x' || s[1] == 'X') && StartsDigit(s[2..], 16)
  }

  function Base(s: string): nat {
    if IsHexNumber(s) then 16 else if s != [] && s[0] == '0' then 8 else 10
  }

  /** The digits of a number and what follows them. */
  function AfterPrefix(s: string): string { if IsHexNumber(s) then s[2..] else s }

  /** scan_unsigned_number: the value cut to 32 bits and the text after it; nothing scanned if that text is s. */
  function Number(s: string): (u32, string) {
    var (v, rest) := ScanDigits(AfterPrefix(s), Base(s), 0);
    (U32(v), rest)
  }

  // ---------------------------------------------------------------- printing

  predicate IsFrame(pf: Msg) { pf.msgType == CAN20_MSG || pf.msgType == CANFD_MSG }

  function KindChar(pf: Msg): char {
    if pf.msgType == STATUS then 'x'
    else if !IsFrame(pf) then '?'
    else if pf.flags.rtr then (if pf.flags.slf then 'R' else 'r')
    else if pf.flags.brs then (if pf.flags.slf then 'B' else 'b')
    else (if pf.flags.slf then 'M' else 'm')
  }

  function FormatChar(pf: Msg): char {
    if pf.msgType == STATUS then
      (if pf.flags.errorBus then 'b' else if pf.flags.errorCtrlr then 'c' else if pf.flags.errorInternal then 'i' else 'x')
    else if !IsFrame(pf) then '?'
    else if pf.flags.ext then 'e' else 's'
  }

  /** The data bytes that are printed: none for a remote frame. */
  function Shown(pf: Msg): (bytes: seq<u8>)
    requires Printable(pf)
  {
    if pf.flags.rtr then [] else pf.data[..pf.dataLen]
  }

  /** Only the bytes of the data field can be printed. */
  predicate Printable(pf: Msg) { pf.flags.rtr || pf.dataLen <= MAXDATALEN }

  function ByteText(b: u8): string { "0x" + Hex(b, 2) + " " }

  function DataText(bytes: seq<u8>): string {
    if bytes == [] then "" else ByteText(bytes[0]) + DataText(bytes[1..])
  }

  function StampText(pf: Msg): string {
    if !pf.flags.timestamp then ""
    else
      var ms := U32(TruncDiv(pf.tvUsec, 1000));
      var us := U32(pf.tvUsec - ms * 1000);
      " " + Pad(Decimal(U32(ms + pf.tvSec * 1000)), 11, ' ') + " " + Pad(Decimal(us), 3, '0')
  }

  function IdText(id: u32): string { "0x" + Hex(id, 8) }

  function LengthText(n: u16): string { Pad(Decimal(n), 2, ' ') }

  /** Everything after the length field. */
  function TailText(pf: Msg): string
    requires Printable(pf)
  {
    DataText(Shown(pf)) + (StampText(pf) + "\n")
  }

  /** The printed line, field after field. */
  function Line(pf: Msg): string
    requires Printable(pf)
  {
    [KindChar(pf)] + (" " + ([FormatChar(pf)] + (" " + (IdText(pf.id) + (" " + (LengthText(pf.dataLen) + ("  " + TailText(pf))))))))
  }

  // ---------------------------------------------------------------- parsing

  /** Frame type and flags for the first letter. */
  function KindFlags(c: char, pf: Msg): Msg
    requires c in "BbMmRr"
  {
    var slf := c in "BMR";
    if c in "Bb" then pf.(msgType := CANFD_MSG, flags := NONE.(brs := true, slf := slf))
    else pf.(msgType := CAN20_MSG, flags := NONE.(rtr := c in "Rr", slf := slf))
  }

  function Parsed(s: string, pf: Msg): (Msg, int) {
    var t := SkipBlanks(s);
    if t == [] || t[0] !in "BbMmRr" then (pf.(msgType := CAN20_MSG, flags := NONE), -EINVAL)
    else ParsedFormat(SkipBlanks(t[1..]), KindFlags(t[0], pf))
  }

  function ParsedFormat(s: string, pf: Msg): (Msg, int) {
    if AtEol(s) || s[0] !in "es" then (pf, -EINVAL)
    else ParsedId(SkipBlanks(s[1..]), if s[0] == 'e' then pf.(flags := pf.flags.(ext := true)) else pf)
  }

  function IdLimit(pf: Msg): u32 { if pf.flags.ext then 0x3fff_ffff else 2047 }

  function ParsedId(s: string, pf: Msg): (Msg, int) {
    if AtEol(s) then (pf, -EINVAL)
    else
      var (id, rest) := Number(s);
      var q := pf.(id := id);
      if rest == s then (q, -ERANGE)
      else if id > IdLimit(q) then (q, 0)
      else ParsedLength(SkipBlanks(rest), q)
  }

  function ParsedLength(s: string, pf: Msg): (Msg, int) {
    if AtEol(s) then (pf, 0)
    else
      var (n, rest) := Number(s);
      if rest == s then (pf, -ERANGE)
      else if n > MAXDATALEN then (pf, 0)
      else
        var (data, err) := ParsedData(rest, pf.data, 0, n);
        (pf.(dataLen := n, data := data), err)
  }

  function ParsedData(s: string, data: Payload, i: nat, n: nat): (Payload, int)
    requires n <= MAXDATALEN
    decreases n - i
  {
    if i >= n then (data, 0)
    else
      var t := SkipBlanks(s);
      if AtEol(t) then (data, 0)
      else
        var (b, rest) := Number(t);
        if rest == t then (data, -ERANGE)
        else if b > 255 then (data, 0)
        else ParsedData(rest, data[i := b], i + 1, n)
  }

  // ---------------------------------------------------------------- scanning what was printed

  function Pow16(w: nat): nat { if w == 0 then 1 else 16 * Pow16(w - 1) }

  /** Scanning zero-padded hexadecimal text gives the value back. */
  lemma {:induction false} ScanHex(v: nat, w: nat, t: string)
    requires v < Pow16(w)
    ensures ScanDigits(Hex(v, w) + t, 16, 0) == ScanDigits(t, 16, v)
    decreases w
  {
    hide ScanDigits;
    if w == 0 {
      assert "" + t == t;
    } else {
      var d := [HexDigit(v % 16)];
      ScanHex(v / 16, w - 1, d + t);
      assert Hex(v, w) + t == Hex(v / 16, w - 1) + (d + t);
      ScanStep(d[0], t, 16, v / 16);
    }
  }

  /** Scanning decimal text gives the value back. */
  lemma {:induction false} ScanDecimal(v: nat, t: string)
    ensures ScanDigits(Decimal(v) + t, 10, 0) == ScanDigits(t, 10, v)
  {
    var d := [HexDigit(v % 10)];
    if v < 10 {
      ScanStep(d[0], t, 10, 0);
    } else {
      ScanDecimal(v / 10, d + t);
      assert Decimal(v) + t == Decimal(v / 10) + (d + t);
      ScanStep(d[0], t, 10, v / 10);
    }
  }

  lemma ScanStep(c: char, t: string, base: nat, acc: nat)
    requires 0 <= DigitOf(c) < base
    ensures ScanDigits([c] + t, base, acc) == ScanDigits(t, base, acc * base + DigitOf(c))
  {
    assert ([c] + t)[1..] == t;
  }

  lemma ScanStop(t: string, base: nat, acc: nat)
    requires !StartsDigit(t, base)
    ensures ScanDigits(t, base, acc) == (acc, t)
  {
  }

  lemma NumberOfHex(v: u32, w: nat, t: string)
    requires w > 0 && v < Pow16(w) && !StartsDigit(t, 16)
    ensures Number("0x" + Hex(v, w) + t) == (v, t) && |t| < |"0x" + Hex(v, w) + t|
  {
    hide Hex, ScanDigits;
    var s := "0x" + Hex(v, w) + t;
    assert s[2..] == Hex(v, w) + t;
    assert s[2] == Hex(v, w)[0];
    ScanHex(v, w, t);
    ScanStop(t, 16, v);
  }

  lemma NumberOfDecimal(v: u32, t: string)
    requires t != [] && !StartsDigit(t, 10) && t[0] != 'x' && t[0] != 'X'
    ensures Number(Decimal(v) + t) == (v, t) && |t| < |Decimal(v) + t|
  {
    hide ScanDigits, Decimal;
    var s := Decimal(v) + t;
    assert s[0] == Decimal(v)[0];
    if v == 0 {
      ZeroNumber(t);
    } else {
      ScanDecimal(v, t);
      ScanStop(t, 10, v);
    }
  }

  /** A lone zero is read as an octal number. */
  lemma ZeroNumber(t: string)
    requires t != [] && !StartsDigit(t, 10) && t[0] != 'x' && t[0] != 'X'
    ensures Decimal(0) == "0" && Number("0" + t) == (0, t)
  {
    hide ScanDigits;
    ScanStep('0', t, 8, 0);
    ScanStop(t, 8, 0);
  }

  lemma {:induction false} SkipPad(s: string, w: nat, t: string)
    ensures SkipBlanks(Pad(s, w, ' ') + t) == SkipBlanks(s + t)
    decreases w - |s|
  {
    if |s| < w {
      SkipPad([' '] + s, w, t);
      assert ([' '] + s + t)[1..] == s + t;
    }
  }

  lemma SkipOne(c: char, t: string)
    ensures SkipBlanks([c] + t) == if IsBlank(c) then SkipBlanks(t) else [c] + t
  {
    assert ([c] + t)[1..] == t;
  }

  /** A number written in decimal is read mod 2^32, however long it is. */
  lemma LongDecimal(v: nat, t: string)
    requires v > 0 && t != [] && !StartsDigit(t, 10)
    ensures Number(Decimal(v) + t) == (v % 0x1_0000_0000, t)
  {
    hide ScanDigits, Decimal;
    var s := Decimal(v) + t;
    assert s[0] == Decimal(v)[0];
    ScanDecimal(v, t);
    ScanStop(t, 10, v);
  }

  /** The upper-case letters of a hexadecimal text. */
  function Upper(s: string): (u: string)
    ensures |u| == |s| && forall i :: 0 <= i < |s| ==> u[i] == UpperChar(s[i])
  {
    if s == [] then [] else [UpperChar(s[0])] + Upper(s[1..])
  }

  function UpperChar(c: char): char { if 'a' <= c <= 'f' then 'A' + (c - 'a') else c }

  lemma {:induction false} ScanUpper(s: string, t: string, acc: nat)
    requires forall c :: c in s ==> 0 <= DigitOf(c) < 16
    ensures ScanDigits(Upper(s) + t, 16, acc) == ScanDigits(s + t, 16, acc)
    decreases |s|
  {
    hide ScanDigits, UpperChar, DigitOf, Upper;
    UpperFirst(s);
    if s == [] {
      assert [] + t == t;
    } else {
      var c := s[0];
      assert c in s && forall x :: x in s[1..] ==> x in s;
      assert Upper(s) + t == [UpperChar(c)] + (Upper(s[1..]) + t) && s + t == [c] + (s[1..] + t);
      UpperWorth(c);
      ScanStep(UpperChar(c), Upper(s[1..]) + t, 16, acc);
      ScanStep(c, s[1..] + t, 16, acc);
      ScanUpper(s[1..], t, acc * 16 + DigitOf(c));
    }
  }

  lemma UpperFirst(s: string)
    ensures Upper(s) == if s == [] then [] else [UpperChar(s[0])] + Upper(s[1..])
  {
  }

  lemma UpperWorth(c: char)
    requires 0 <= DigitOf(c) < 16
    ensures DigitOf(UpperChar(c)) == DigitOf(c)
  {
  }

  lemma BehindX(digits: string, t: string)
    requires digits != [] && 0 <= DigitOf(digits[0]) < 16
    ensures AfterPrefix("0X" + digits + t) == digits + t && Base("0X" + digits + t) == 16
  {
    assert ("0X" + digits + t)[2..] == digits + t;
  }

  /** Hexadecimal numbers may be written in upper case, prefix included. */
  lemma NumberOfUpper(v: u32, w: nat, t: string)
    requires w > 0 && v < Pow16(w) && !StartsDigit(t, 16)
    ensures Number("0X" + Upper(Hex(v, w)) + t) == (v, t)
  {
    hide Hex, ScanDigits, Upper, AfterPrefix, Base, UpperChar;
    assert Hex(v, w)[0] in Hex(v, w);
    UpperWorth(Hex(v, w)[0]);
    BehindX(Upper(Hex(v, w)), t);
    ScanUpper(Hex(v, w), t, 0);
    ScanHex(v, w, t);
    ScanStop(t, 16, v);
  }

  function Octal(v: nat): (s: string)
    ensures |s| > 0 && forall c :: c in s ==> '0' <= c <= '7'
  {
    if v < 8 then [HexDigit(v)] else Octal(v / 8) + [HexDigit(v % 8)]
  }

  lemma {:induction false} ScanOctal(v: nat, t: string)
    ensures ScanDigits(Octal(v) + t, 8, 0) == ScanDigits(t, 8, v)
  {
    var d := [HexDigit(v % 8)];
    if v < 8 {
      ScanStep(d[0], t, 8, 0);
    } else {
      ScanOctal(v / 8, d + t);
      assert Octal(v) + t == Octal(v / 8) + (d + t);
      ScanStep(d[0], t, 8, v / 8);
    }
  }

  /** A leading zero makes a number octal. */
  lemma NumberOfOctal(v: u32, t: string)
    requires !StartsDigit(t, 8)
    ensures Number("0" + Octal(v) + t) == (v, t)
  {
    hide ScanDigits, Octal;
    var s := "0" + Octal(v) + t;
    assert s == ['0'] + (Octal(v) + t);
    assert s[1] == Octal(v)[0] && Octal(v)[0] in Octal(v);
    ScanStep('0', Octal(v) + t, 8, 0);
    ScanOctal(v, t);
    ScanStop(t, 8, v);
  }

  // ---------------------------------------------------------------- the data bytes

  /** Blanks in front of a data byte do not matter. */
  lemma ParsedDataSkips(s: string, t: string, data: Payload, i: nat, n: nat)
    requires n <= MAXDATALEN && SkipBlanks(s) == SkipBlanks(t)
    ensures ParsedData(s, data, i, n) == ParsedData(t, data, i, n)
  {
  }

  lemma OneByte(b: u8, t: string, data: Payload, i: nat, n: nat)
    requires i < n <= MAXDATALEN
    ensures ParsedData(ByteText(b) + t, data, i, n) == ParsedData(t, data[i := b], i + 1, n)
  {
    hide Hex, Number;
    var s := ByteText(b) + t;
    assert s == "0x" + Hex(b, 2) + (" " + t) && s[0] == '0';
    NumberOfHex(b, 2, " " + t);
    SkipOne(' ', t);
    ParsedDataSkips(" " + t, t, data[i := b], i + 1, n);
  }

  /** Printed bytes are read back in their places; the other bytes keep their old values. */
  lemma {:induction false} DataRoundTrip(bytes: seq<u8>, t: string, data: Payload, i: nat, n: nat)
    requires i + |bytes| <= n <= MAXDATALEN
    ensures ParsedData(DataText(bytes) + t, data, i, n)
         == ParsedData(t, data[..i] + bytes + data[i + |bytes|..], i + |bytes|, n)
    decreases |bytes|
  {
    hide ParsedData, ByteText;
    if bytes == [] {
      assert "" + t == t && data[..i] + bytes + data[i..] == data;
    } else {
      var b, rest := bytes[0], bytes[1..];
      assert DataText(bytes) + t == ByteText(b) + (DataText(rest) + t);
      OneByte(b, DataText(rest) + t, data, i, n);
      DataRoundTrip(rest, t, data[i := b], i + 1, n);
      assert data[i := b][..i + 1] + rest + data[i := b][i + 1 + |rest|..] == data[..i] + bytes + data[i + |bytes|..];
    }
  }

  predicate Plain(s: string) { forall c :: c in s ==> IsDigit(c) || c == ' ' || c == '\n' }

  lemma {:induction false} SkipKeepsPlain(s: string)
    requires Plain(s)
    ensures Plain(SkipBlanks(s))
  {
    if s != [] && IsBlank(s[0]) {
      SkipKeepsPlain(s[1..]);
    }
  }

  lemma {:induction false} ScanKeepsPlain(s: string, base: nat, acc: nat)
    requires Plain(s)
    ensures var rest := ScanDigits(s, base, acc).1;
            Plain(rest) && |rest| <= |s| && (StartsDigit(s, base) ==> |rest| < |s|)
  {
    if StartsDigit(s, base) {
      ScanKeepsPlain(s[1..], base, acc * base + DigitOf(s[0]));
    }
  }

  /** A text of digits and blanks, such as a time stamp, never makes the data loop fail. */
  lemma {:induction false} PlainNeverFails(s: string, data: Payload, i: nat, n: nat)
    requires Plain(s) && n <= MAXDATALEN
    ensures ParsedData(s, data, i, n).1 == 0
    decreases n - i
  {
    var t := SkipBlanks(s);
    SkipKeepsPlain(s);
    SkipStops(s);
    if i < n && !AtEol(t) {
      assert t[0] in t;
      assert !IsHexNumber(t) by {
        if |t| > 1 { assert t[1] in t; }
      }
      ScanKeepsPlain(t, Base(t), 0);
      var (b, rest) := Number(t);
      if b <= 255 {
        PlainNeverFails(rest, data[i := b], i + 1, n);
      }
    }
  }

  lemma {:induction false} SkipStops(s: string)
    ensures var t := SkipBlanks(s); t == [] || !IsBlank(t[0])
  {
    if s != [] && IsBlank(s[0]) {
      SkipStops(s[1..]);
    }
  }

  lemma StampPlain(pf: Msg)
    ensures Plain(StampText(pf) + "\n")
  {
  }

  /** Reading the tail of a printed line: every byte shown is recovered and nothing is rejected. */
  lemma TailRoundTrip(pf: Msg, data: Payload)
    requires pf.dataLen <= MAXDATALEN
    ensures var (d, err) := ParsedData(TailText(pf), data, 0, pf.dataLen);
            err == 0 && (!pf.flags.rtr || pf.dataLen == 0 ==> d == Shown(pf) + data[|Shown(pf)|..])
  {
    hide StampText, DataText;
    var bytes := Shown(pf);
    DataRoundTrip(bytes, StampText(pf) + "\n", data, 0, pf.dataLen);
    assert data[..0] + bytes == bytes;
    StampPlain(pf);
    PlainNeverFails(StampText(pf) + "\n", bytes + data[|bytes|..], |bytes|, pf.dataLen);
  }

  // ---------------------------------------------------------------- the header

  /** What the two letters of a printed frame say about it. */
  function Header(pf: Msg, initial: Msg): Msg {
    initial.(msgType := if !pf.flags.rtr && pf.flags.brs then CANFD_MSG else CAN20_MSG,
             flags := NONE.(rtr := pf.flags.rtr, ext := pf.flags.ext, slf := pf.flags.slf,
                            brs := pf.flags.brs && !pf.flags.rtr))
  }

  lemma KindRead(pf: Msg, initial: Msg, t: string)
    requires IsFrame(pf)
    ensures Parsed([KindChar(pf)] + (" " + t), initial)
         == ParsedFormat(SkipBlanks(t), KindFlags(KindChar(pf), initial))
  {
    hide ParsedFormat, SkipBlanks;
    var s := [KindChar(pf)] + (" " + t);
    SkipOne(KindChar(pf), " " + t);
    SkipOne(' ', t);
    assert s[1..] == " " + t;
  }

  lemma FormatRead(pf: Msg, q: Msg, t: string)
    requires IsFrame(pf)
    ensures ParsedFormat(SkipBlanks([FormatChar(pf)] + (" " + t)), q)
         == ParsedId(SkipBlanks(t), if pf.flags.ext then q.(flags := q.flags.(ext := true)) else q)
  {
    hide ParsedId, SkipBlanks;
    var s := [FormatChar(pf)] + (" " + t);
    SkipOne(FormatChar(pf), " " + t);
    SkipOne(' ', t);
    assert s[1..] == " " + t;
  }

  lemma LettersRead(pf: Msg, initial: Msg, t: string)
    requires IsFrame(pf)
    ensures Parsed([KindChar(pf)] + (" " + ([FormatChar(pf)] + (" " + t))), initial)
         == ParsedId(SkipBlanks(t), Header(pf, initial))
  {
    hide Parsed, ParsedFormat, ParsedId, SkipBlanks, FormatChar;
    KindRead(pf, initial, [FormatChar(pf)] + (" " + t));
    FormatRead(pf, KindFlags(KindChar(pf), initial), t);
  }

  lemma HexFits()
    ensures Pow16(8) == 0x1_0000_0000
  {
    assert Pow16(4) == 0x1_0000;
  }

  lemma IdRead(id: u32, pf: Msg, t: string)
    ensures ParsedId(IdText(id) + (" " + t), pf)
         == if id > IdLimit(pf) then (pf.(id := id), 0) else ParsedLength(SkipBlanks(t), pf.(id := id))
  {
    hide ParsedLength, Number, Hex;
    var s := IdText(id) + (" " + t);
    assert s[0] == '0';
    HexFits();
    NumberOfHex(id, 8, " " + t);
    SkipOne(' ', t);
  }

  lemma LengthRead(n: u16, pf: Msg, t: string)
    ensures ParsedLength(SkipBlanks(LengthText(n) + (" " + t)), pf)
         == if n > MAXDATALEN then (pf, 0)
            else var (data, err) := ParsedData(" " + t, pf.data, 0, n); (pf.(dataLen := n, data := data), err)
  {
    hide ParsedData, Number, Decimal;
    SkipPad(Decimal(n), 2, " " + t);
    var s := Decimal(n) + (" " + t);
    assert s[0] == Decimal(n)[0] && s[0] in Decimal(n);
    NumberOfDecimal(n, " " + t);
  }

  // ---------------------------------------------------------------- the round trip

  /** Reading back any printed frame, whatever the message structure held before. */
  lemma FrameRead(pf: Msg, initial: Msg)
    requires IsFrame(pf) && Printable(pf)
    ensures var h := Header(pf, initial).(id := pf.id);
            var (q, err) := Parsed(Line(pf), initial);
            && err == 0
            && if pf.id > IdLimit(pf) || pf.dataLen > MAXDATALEN then q == h
               else && q.(data := h.data) == h.(dataLen := pf.dataLen)
                    && (!pf.flags.rtr || pf.dataLen == 0 ==> q.data == Shown(pf) + initial.data[|Shown(pf)|..])
  {
    hide Parsed, ParsedId, ParsedLength, ParsedData, Number, TailText, IdText, LengthText, SkipBlanks, KindChar, FormatChar;
    var h := Header(pf, initial);
    var tail := "  " + TailText(pf);
    var rest := LengthText(pf.dataLen) + tail;
    LettersRead(pf, initial, IdText(pf.id) + (" " + rest));
    IdSkip(pf.id, " " + rest);
    IdRead(pf.id, h, rest);
    assert tail == " " + (" " + TailText(pf));
    LengthRead(pf.dataLen, h.(id := pf.id), " " + TailText(pf));
    if pf.dataLen <= MAXDATALEN {
      TailSkip(TailText(pf), h.data, pf.dataLen);
      TailRoundTrip(pf, h.data);
    }
  }

  lemma IdSkip(id: u32, t: string)
    ensures SkipBlanks(IdText(id) + t) == IdText(id) + t
  {
    assert (IdText(id) + t)[0] == '0';
  }

  lemma TailSkip(t: string, data: Payload, n: nat)
    requires n <= MAXDATALEN
    ensures ParsedData(" " + (" " + t), data, 0, n) == ParsedData(t, data, 0, n)
  {
    SkipOne(' ', " " + t);
    SkipOne(' ', t);
    ParsedDataSkips(" " + (" " + t), t, data, 0, n);
  }

  /** Type, id, RTR, EXT, SLF and BRS, length and (of a data frame) data agree. */
  predicate SameFrame(q: Msg, pf: Msg) {
    && q.msgType == pf.msgType && q.id == pf.id && q.dataLen == pf.dataLen
    && q.flags.rtr == pf.flags.rtr && q.flags.ext == pf.flags.ext
    && q.flags.slf == pf.flags.slf && q.flags.brs == pf.flags.brs
    && (pf.flags.rtr || (pf.dataLen <= MAXDATALEN && q.data[..pf.dataLen] == pf.data[..pf.dataLen]))
  }

  ghost predicate Recovers(pf: Msg)
    requires Printable(pf)
  {
    forall initial: Msg :: Parsed(Line(pf), initial).1 == 0 && SameFrame(Parsed(Line(pf), initial).0, pf)
  }

  /** The frames that the text form can carry. */
  predicate WellFormed(pf: Msg) {
    && ((pf.msgType == CAN20_MSG && !pf.flags.brs) || (pf.msgType == CANFD_MSG && pf.flags.brs && !pf.flags.rtr))
    && pf.id <= (if pf.flags.ext then 0x3fff_ffff else 2047) && pf.dataLen <= 64
  }

  lemma WellFormedRecovers(pf: Msg, initial: Msg)
    requires WellFormed(pf)
    ensures Parsed(Line(pf), initial).1 == 0 && SameFrame(Parsed(Line(pf), initial).0, pf)
  {
    hide Parsed, Line;
    FrameRead(pf, initial);
    if !pf.flags.rtr {
      var bytes := Shown(pf);
      assert (bytes + initial.data[|bytes|..])[..pf.dataLen] == pf.data[..pf.dataLen];
    }
  }

  /** A status, error or empty message prints a line that is rejected. */
  lemma OthersRejected(pf: Msg, initial: Msg)
    requires Printable(pf) && !IsFrame(pf)
    ensures Parsed(Line(pf), initial).1 == -EINVAL
  {
    hide TailText, IdText, LengthText;
    assert Line(pf)[0] == KindChar(pf);
  }

  /** Printing then parsing gives the message back exactly for the well-formed frames. */
  lemma RoundTrip(pf: Msg)
    requires Printable(pf)
    ensures Recovers(pf) <==> WellFormed(pf)
  {
    hide Parsed, Line;
    if WellFormed(pf) {
      forall initial: Msg
        ensures Parsed(Line(pf), initial).1 == 0 && SameFrame(Parsed(Line(pf), initial).0, pf)
      {
        WellFormedRecovers(pf, initial);
      }
    } else {
      var initial := pf.(dataLen := if pf.dataLen == 0 then 1 else 0);
      if IsFrame(pf) {
        FrameRead(pf, initial);
      } else {
        OthersRejected(pf, initial);
      }
      assert !(Parsed(Line(pf), initial).1 == 0 && SameFrame(Parsed(Line(pf), initial).0, pf));
    }
  }

  /** A rejection after a scanned number returns zero: a line that ends right behind the id counts as read,
      and length and data keep their old values. */
  lemma CutLineAccepted(pf: Msg, initial: Msg)
    requires IsFrame(pf)
    ensures Parsed([KindChar(pf)] + (" " + ([FormatChar(pf)] + (" " + (IdText(pf.id) + "\n")))), initial)
         == (Header(pf, initial).(id := pf.id), 0)
  {
    hide Parsed, KindChar, FormatChar, Hex, Number;
    var h, t := Header(pf, initial), IdText(pf.id) + "\n";
    LettersRead(pf, initial, t);
    IdSkip(pf.id, "\n");
    HexFits();
    NumberOfHex(pf.id, 8, "\n");
  }

  // ---------------------------------------------------------------- which texts are accepted

  /** The numbers that can be read from a text one after the other, and whether what follows them is the
      end of the line. */
  datatype Reading = Reading(vs: seq<u32>, eol: bool)

  function Read(s: string): Reading
    decreases |s|
  {
    var t := SkipBlanks(s);
    SkipShortens(s);
    if AtEol(t) then Reading([], true)
    else
      var (v, rest) := Number(t);
      NumberShortens(t);
      if rest == t then Reading([], false)
      else var more := Read(rest); Reading([v] + more.vs, more.eol)
  }

  lemma {:induction false} SkipShortens(s: string)
    ensures |SkipBlanks(s)| <= |s| && SkipBlanks(SkipBlanks(s)) == SkipBlanks(s)
  {
    if s != [] && IsBlank(s[0]) {
      SkipShortens(s[1..]);
    }
  }

  lemma {:induction false} ScanShortens(s: string, base: nat, acc: nat)
    ensures var rest := ScanDigits(s, base, acc).1; if StartsDigit(s, base) then |rest| < |s| else rest == s
  {
    if StartsDigit(s, base) {
      ScanShortens(s[1..], base, acc * base + DigitOf(s[0]));
    }
  }

  lemma NumberShortens(s: string)
    ensures var rest := Number(s).1; rest == s || |rest| < |s|
  {
    ScanShortens(AfterPrefix(s), Base(s), 0);
  }

  predicate HasLetters(s: string) {
    var t := SkipBlanks(s);
    t != [] && t[0] in "BbMmRr" && var u := SkipBlanks(t[1..]); !AtEol(u) && u[0] in "es"
  }

  function FormatLetter(s: string): char
    requires HasLetters(s)
  {
    SkipBlanks(SkipBlanks(s)[1..])[0]
  }

  /** The text behind the two letters. */
  function Body(s: string): string
    requires HasLetters(s)
  {
    SkipBlanks(SkipBlanks(s)[1..])[1..]
  }

  function Limit(s: string): u32
    requires HasLetters(s)
  {
    if FormatLetter(s) == 'e' then 0x3fff_ffff else 2047
  }

  /** A whole frame: a legal id, a legal length and that many bytes. */
  predicate Complete(limit: u32, vs: seq<u32>) {
    && |vs| >= 2 && vs[0] <= limit && vs[1] <= MAXDATALEN && |vs| - 2 >= vs[1]
    && forall i :: 2 <= i < 2 + vs[1] ==> vs[i] <= 255
  }

  /** An id, length or byte beyond its limit. */
  predicate TooLarge(limit: u32, vs: seq<u32>) {
    || (|vs| >= 1 && vs[0] > limit)
    || (|vs| >= 2 && vs[1] > MAXDATALEN)
    || exists i :: 2 <= i < |vs| && i - 2 < vs[1] && vs[i] > 255
  }

  /** The length or some byte is missing. */
  predicate Missing(vs: seq<u32>) {
    |vs| == 1 || (|vs| >= 2 && |vs| - 2 < vs[1])
  }

  /** What a text behind the letters needs to be accepted. */
  predicate Lenient(limit: u32, rd: Reading) {
    rd.vs != [] && (Complete(limit, rd.vs) || TooLarge(limit, rd.vs) || (Missing(rd.vs) && rd.eol))
  }

  lemma {:induction false} DataReading(s: string, data: Payload, i: nat, n: nat)
    requires i <= n <= MAXDATALEN
    ensures var (vs, eol) := (Read(s).vs, Read(s).eol);
            var (d, err) := ParsedData(s, data, i, n);
            if exists j :: 0 <= j < |vs| && j < n - i && vs[j] > 255 then err == 0
            else if |vs| < n - i then err == (if eol then 0 else -ERANGE)
            else err == 0 && d[..i] == data[..i] && d[i..n] == vs[..n - i] && d[n..] == data[n..]
    decreases n - i
  {
    hide Number, SkipBlanks, AtEol;
    if i < n {
      var t := SkipBlanks(s);
      var (b, rest) := Number(t);
      if !AtEol(t) && rest != t {
        var vs, more := Read(s).vs, Read(rest).vs;
        assert vs == [b] + more;
        if b <= 255 {
          var data' := data[i := b];
          DataReading(rest, data', i + 1, n);
          LaterTooLarge(b, more, n - i);
          var d := ParsedData(s, data, i, n).0;
          assert d == ParsedData(rest, data', i + 1, n).0;
          if |vs| >= n - i && !(exists j :: 0 <= j < |vs| && j < n - i && vs[j] > 255) {
            assert d[..i] == d[..i + 1][..i] == data[..i];
            assert d[i..n] == [d[i]] + d[i + 1..n];
            assert d[i] == d[..i + 1][i] == b;
          }
        } else {
          assert vs[0] > 255;
        }
      }
    }
  }

  lemma LaterTooLarge(b: u32, more: seq<u32>, n: nat)
    requires b <= 255 && n > 0
    ensures (exists j :: 0 <= j < |[b] + more| && j < n && ([b] + more)[j] > 255)
       <==> (exists j :: 0 <= j < |more| && j < n - 1 && more[j] > 255)
  {
    var vs := [b] + more;
    if j :| 0 <= j < |more| && j < n - 1 && more[j] > 255 {
      assert vs[j + 1] > 255;
    }
    if j :| 0 <= j < |vs| && j < n && vs[j] > 255 {
      assert more[j - 1] > 255;
    }
  }

  /** The error for the numbers of a frame, and the frame they make when it is complete. */
  lemma IdReading(s: string, pf: Msg)
    ensures var (vs, eol) := (Read(s).vs, Read(s).eol);
            var (q, err) := ParsedId(SkipBlanks(s), pf);
            && err == (if vs == [] then if eol then -EINVAL else -ERANGE
                       else if TooLarge(IdLimit(pf), vs) || Complete(IdLimit(pf), vs) || eol then 0
                       else -ERANGE)
            && (Complete(IdLimit(pf), vs) ==>
                  && q.id == vs[0] && q.dataLen == vs[1] && q.data == vs[2..2 + vs[1]] + pf.data[vs[1]..]
                  && q.(id := pf.id, dataLen := pf.dataLen, data := pf.data) == pf)
  {
    hide Number, SkipBlanks, AtEol, ParsedLength;
    SkipShortens(s);
    var t := SkipBlanks(s);
    var (id, rest) := Number(t);
    if !AtEol(t) && rest != t {
      var vs := Read(s).vs;
      assert vs == [id] + Read(rest).vs;
      LengthReading(rest, pf.(id := id));
      if id <= IdLimit(pf) {
        ShiftVerdict(IdLimit(pf), id, Read(rest).vs);
      }
    }
  }

  lemma ShiftVerdict(limit: u32, id: u32, more: seq<u32>)
    requires id <= limit
    ensures var vs := [id] + more;
            && (TooLarge(limit, vs) <==> |more| >= 1 && (more[0] > MAXDATALEN || BytesTooLarge(more[1..], more[0])))
            && (Complete(limit, vs) <==>
                  |more| >= 1 && more[0] <= MAXDATALEN && |more| - 1 >= more[0] && !BytesTooLarge(more[1..], more[0]))
            && (Complete(limit, vs) ==> vs[2..2 + vs[1]] == more[1..][..more[0]])
  {
    var vs := [id] + more;
    if |more| >= 1 {
      var n := more[0];
      if BytesTooLarge(more[1..], n) {
        var j :| 0 <= j < |more[1..]| && j < n && more[1..][j] > 255;
        assert vs[j + 2] > 255;
      }
      if i :| 2 <= i < |vs| && i - 2 < vs[1] && vs[i] > 255 {
        assert more[1..][i - 2] > 255;
      }
      if |more| - 1 >= n {
        assert vs[2..2 + n] == more[1..][..n];
      }
    }
  }

  predicate BytesTooLarge(bytes: seq<u32>, n: nat) { exists j :: 0 <= j < |bytes| && j < n && bytes[j] > 255 }

  lemma LengthReading(s: string, pf: Msg)
    ensures var (vs, eol) := (Read(s).vs, Read(s).eol);
            var (q, err) := ParsedLength(SkipBlanks(s), pf);
            if vs == [] then q == pf && err == (if eol then 0 else -ERANGE)
            else if vs[0] > MAXDATALEN || BytesTooLarge(vs[1..], vs[0]) then err == 0
            else if |vs| - 1 < vs[0] then err == (if eol then 0 else -ERANGE)
            else err == 0 && q == pf.(dataLen := vs[0], data := q.data) && q.data == vs[1..][..vs[0]] + pf.data[vs[0]..]
  {
    hide Number, SkipBlanks, AtEol, ParsedData;
    SkipShortens(s);
    var t := SkipBlanks(s);
    var (n, rest) := Number(t);
    if !AtEol(t) && rest != t {
      var more := Read(rest).vs;
      assert Read(s).vs == [n] + more && ([n] + more)[1..] == more;
      if n <= MAXDATALEN {
        DataReading(rest, pf.data, 0, n);
        var d := ParsedData(rest, pf.data, 0, n).0;
        assert d == d[0..n] + d[n..];
      }
    }
  }

  /** When the parser returns zero, for every text: the letters are right, an id can be read, and the frame
      is complete, or a number exceeds its limit, or the line ends too early. What a complete text says is
      what is stored. */
  lemma ZeroExactly(s: string, pf: Msg)
    ensures var (q, err) := Parsed(s, pf);
            && (err == 0 <==> HasLetters(s) && Lenient(Limit(s), Read(Body(s))))
            && (HasLetters(s) && Complete(Limit(s), Read(Body(s)).vs) ==>
                  var vs := Read(Body(s)).vs; q.id == vs[0] && q.dataLen == vs[1] && q.data == vs[2..2 + vs[1]] + pf.data[vs[1]..])
  {
    hide ParsedId, Read, SkipBlanks, Complete, TooLarge;
    if HasLetters(s) {
      var t := SkipBlanks(s);
      var u := SkipBlanks(t[1..]);
      var h := KindFlags(t[0], pf);
      var h' := if u[0] == 'e' then h.(flags := h.flags.(ext := true)) else h;
      assert Parsed(s, pf) == ParsedId(SkipBlanks(u[1..]), h');
      IdReading(u[1..], h');
      NotBoth(Limit(s), Read(Body(s)).vs);
    }
  }

  /** Numbers that have been read make a whole frame, or one is too large, or some are missing. */
  lemma NotBoth(limit: u32, vs: seq<u32>)
    ensures vs != [] ==> (Complete(limit, vs) <==> !TooLarge(limit, vs) && !Missing(vs))
  {
  }

  /** So a text is accepted without being a whole frame exactly when one of the rejections behind a scanned
      number is reached: id, length or byte too large, or the line ending before all of them are there. */
  lemma AcceptedIncomplete(s: string, pf: Msg)
    ensures Parsed(s, pf).1 == 0 && !(HasLetters(s) && Complete(Limit(s), Read(Body(s)).vs))
       <==> HasLetters(s) && Read(Body(s)).vs != [] &&
              var vs := Read(Body(s)).vs; TooLarge(Limit(s), vs) || (Missing(vs) && Read(Body(s)).eol)
  {
    hide Parsed, Read, HasLetters, Complete, TooLarge, Missing;
    ZeroExactly(s, pf);
    if HasLetters(s) {
      NotBoth(Limit(s), Read(Body(s)).vs);
    }
  }

  // ---------------------------------------------------------------- the driver's loops

  /** The fields in front of the data bytes. */
  function Head(pf: Msg): string {
    [KindChar(pf)] + (" " + ([FormatChar(pf)] + (" " + (IdText(pf.id) + (" " + (LengthText(pf.dataLen) + "  "))))))
  }

  lemma LineParts(pf: Msg)
    requires Printable(pf)
    ensures Line(pf) == Head(pf) + DataText(Shown(pf)) + StampText(pf) + "\n"
  {
    hide KindChar, FormatChar, DataText, StampText, IdText, LengthText;
  }

  lemma DataTextStep(bytes: seq<u8>, i: nat)
    requires i < |bytes|
    ensures DataText(bytes[i..]) == ByteText(bytes[i]) + DataText(bytes[i + 1..])
  {
    assert bytes[i..][1..] == bytes[i + 1..];
  }

  /** Prints a message into the read buffer, field after field. */
  method MakeOutput(pf: Msg) returns (buffer: string)
    requires Printable(pf)
    ensures buffer == Line(pf)
  {
    hide Line, Head, DataText, ByteText, StampText;
    buffer := Head(pf);
    ghost var bytes := Shown(pf);
    assert bytes[0..] == bytes;
    if !pf.flags.rtr {
      var i := 0;
      while i < pf.dataLen
        invariant 0 <= i <= pf.dataLen
        invariant buffer + DataText(bytes[i..]) == Head(pf) + DataText(bytes)
      {
        DataTextStep(bytes, i);
        assert buffer + (ByteText(bytes[i]) + DataText(bytes[i + 1..])) == buffer + ByteText(bytes[i]) + DataText(bytes[i + 1..]);
        buffer := buffer + ByteText(pf.data[i]);
        i := i + 1;
      }
      assert bytes[i..] == [];
    }
    DataTextNone();
    assert buffer + [] == buffer;
    buffer := buffer + StampText(pf);
    buffer := buffer + "\n";
    LineParts(pf);
  }

  lemma DataTextNone()
    ensures DataText([]) == []
  {
  }

  method SkipBlanksAt(buffer: string, ptr: nat) returns (p: nat)
    requires ptr <= |buffer|
    ensures ptr <= p <= |buffer| && buffer[p..] == SkipBlanks(buffer[ptr..])
  {
    p := ptr;
    while p < |buffer| && IsBlank(buffer[p])
      invariant ptr <= p <= |buffer|
      invariant SkipBlanks(buffer[p..]) == SkipBlanks(buffer[ptr..])
    {
      assert buffer[p..][1..] == buffer[p + 1..];
      p := p + 1;
    }
  }

  method ScanUnsignedNumber(buffer: string, ptr: nat) returns (value: u32, p: nat, err: int)
    requires ptr <= |buffer|
    ensures ptr <= p <= |buffer| && (value, buffer[p..]) == Number(buffer[ptr..])
    ensures err == if buffer[p..] == buffer[ptr..] then -ERANGE else 0
  {
    var s := buffer[ptr..];
    var base := Base(s);
    p := ptr;
    if IsHexNumber(s) {
      p := ptr + 2;
    }
    assert buffer[p..] == AfterPrefix(s);
    var acc: nat := 0;
    while p < |buffer| && 0 <= DigitOf(buffer[p]) < base
      invariant ptr <= p <= |buffer|
      invariant ScanDigits(buffer[p..], base, acc) == ScanDigits(AfterPrefix(s), base, 0)
    {
      assert buffer[p..][1..] == buffer[p + 1..];
      acc := acc * base + DigitOf(buffer[p]);
      p := p + 1;
    }
    value := U32(acc);
    err := if p != ptr then 0 else -ERANGE;
  }

  /** The numeric fields: id, length and data bytes. */
  method ParseFields(buffer: string, start: nat, header: Msg) returns (pf: Msg, err: int)
    requires start <= |buffer|
    ensures (pf, err) == ParsedId(buffer[start..], header)
  {
    hide SkipBlanks, Number;
    var ptr := start;
    pf := header;
    if ptr == |buffer| || IsEol(buffer[ptr]) {
      return pf, -EINVAL;
    }
    var id, afterId, idErr := ScanUnsignedNumber(buffer, ptr);
    pf := pf.(id := id);
    if idErr != 0 {
      return pf, idErr;
    }
    if id > IdLimit(pf) {
      return pf, 0;
    }
    ptr := SkipBlanksAt(buffer, afterId);
    if ptr == |buffer| || IsEol(buffer[ptr]) {
      return pf, 0;
    }
    var dwLen, afterLen, lenErr := ScanUnsignedNumber(buffer, ptr);
    if lenErr != 0 {
      return pf, lenErr;
    }
    if dwLen > MAXDATALEN {
      return pf, 0;
    }
    ghost var data := pf.data;
    pf := pf.(dataLen := dwLen);
    ptr := afterLen;
    ghost var goal := ParsedData(buffer[ptr..], data, 0, dwLen);
    assert ParsedId(buffer[start..], header) == (pf.(data := goal.0), goal.1);
    var i := 0;
    while i < dwLen
      invariant 0 <= i <= dwLen && ptr <= |buffer|
      invariant ParsedData(buffer[ptr..], pf.data, i, dwLen) == goal
      invariant ParsedId(buffer[start..], header) == (pf.(data := goal.0), goal.1)
    {
      ptr := SkipBlanksAt(buffer, ptr);
      if ptr == |buffer| || IsEol(buffer[ptr]) {
        return pf, 0;
      }
      var dwDat, afterDat, datErr := ScanUnsignedNumber(buffer, ptr);
      if datErr != 0 {
        return pf, datErr;
      }
      if dwDat > 255 {
        return pf, 0;
      }
      pf := pf.(data := pf.data[i := dwDat]);
      ptr := afterDat;
      i := i + 1;
    }
    return pf, 0;
  }

  /** Reads a message from a line of text; pf is filled as far as the line could be read. */
  method ParseInputMessage(buffer: string, initial: Msg) returns (pf: Msg, err: int)
    ensures (pf, err) == Parsed(buffer, initial)
  {
    hide SkipBlanks, Number;
    assert buffer[0..] == buffer;
    var ptr := SkipBlanksAt(buffer, 0);
    pf := initial.(msgType := CAN20_MSG, flags := NONE);
    if ptr == |buffer| || buffer[ptr] !in "BbMmRr" {
      return pf, -EINVAL;
    }
    pf := KindFlags(buffer[ptr], pf);
    assert buffer[ptr..][1..] == buffer[ptr + 1..];
    ptr := SkipBlanksAt(buffer, ptr + 1);
    if ptr == |buffer| || IsEol(buffer[ptr]) || buffer[ptr] !in "es" {
      return pf, -EINVAL;
    }
    if buffer[ptr] == 'e' {
      pf := pf.(flags := pf.flags.(ext := true));
    }
    assert buffer[ptr..][1..] == buffer[ptr + 1..];
    ptr := SkipBlanksAt(buffer, ptr + 1);
    assert Parsed(buffer, initial) == ParsedId(buffer[ptr..], pf);
    pf, err := ParseFields(buffer, ptr, pf);
  }

  // ---------------------------------------------------------------- the parser stays in its line

  /** The parser is given the whole write buffer; text after the end of the line does not reach it. */
  lemma {:induction false} SkipInLine(a: string, t: string)
    requires '\n' in a
    ensures SkipBlanks(a + t) == SkipBlanks(a) + t && '\n' in SkipBlanks(a)
    ensures AtEol(a + t) == AtEol(a)
  {
    assert (a + t)[0] == a[0];
    if IsBlank(a[0]) {
      assert (a + t)[1..] == a[1..] + t;
      SkipInLine(a[1..], t);
    }
  }

  lemma {:induction false} ScanInLine(a: string, t: string, base: nat, acc: nat)
    requires '\n' in a
    ensures var (v, rest) := ScanDigits(a, base, acc);
            ScanDigits(a + t, base, acc) == (v, rest + t) && '\n' in rest
  {
    assert (a + t)[0] == a[0];
    if StartsDigit(a, base) {
      assert (a + t)[1..] == a[1..] + t;
      ScanInLine(a[1..], t, base, acc * base + DigitOf(a[0]));
    }
  }

  lemma NumberInLine(a: string, t: string)
    requires '\n' in a
    ensures var (v, rest) := Number(a);
            Number(a + t) == (v, rest + t) && '\n' in rest && (rest + t == a + t <==> rest == a)
  {
    hide ScanDigits;
    HexInLine(a, t);
    ScanInLine(AfterPrefix(a), t, Base(a), 0);
    var rest := Number(a).1;
    assert rest + t == a + t ==> rest == (a + t)[..|rest|] && |rest| == |a|;
  }

  lemma HexInLine(a: string, t: string)
    requires '\n' in a
    ensures Base(a + t) == Base(a) && AfterPrefix(a + t) == AfterPrefix(a) + t && '\n' in AfterPrefix(a)
  {
    assert (a + t)[0] == a[0];
    if |a| > 2 {
      assert (a + t)[2..] == a[2..] + t;
      assert IsHexNumber(a) ==> '\n' in a[2..];
    }
  }

  lemma {:induction false} DataInLine(a: string, t: string, data: Payload, i: nat, n: nat)
    requires '\n' in a && n <= MAXDATALEN
    ensures ParsedData(a + t, data, i, n) == ParsedData(a, data, i, n)
    decreases n - i
  {
    hide Number, SkipBlanks, AtEol;
    if i < n {
      SkipInLine(a, t);
      var u := SkipBlanks(a);
      SkipInLine(u, t);
      NumberInLine(u, t);
      var (b, rest) := Number(u);
      if b <= 255 {
        DataInLine(rest, t, data[i := b], i + 1, n);
      }
    }
  }

  lemma LengthInLine(a: string, t: string, pf: Msg)
    requires '\n' in a
    ensures ParsedLength(a + t, pf) == ParsedLength(a, pf)
  {
    hide Number, AtEol, ParsedData;
    SkipInLine(a, t);
    NumberInLine(a, t);
    var (n, rest) := Number(a);
    if n <= MAXDATALEN {
      DataInLine(rest, t, pf.data, 0, n);
    }
  }

  lemma IdInLine(a: string, t: string, pf: Msg)
    requires '\n' in a
    ensures ParsedId(a + t, pf) == ParsedId(a, pf)
  {
    hide Number, AtEol, SkipBlanks, ParsedLength;
    SkipInLine(a, t);
    NumberInLine(a, t);
    var (id, rest) := Number(a);
    SkipInLine(rest, t);
    LengthInLine(SkipBlanks(rest), t, pf.(id := id));
  }

  lemma FormatInLine(a: string, t: string, pf: Msg)
    requires '\n' in a
    ensures ParsedFormat(a + t, pf) == ParsedFormat(a, pf)
  {
    hide SkipBlanks, ParsedId;
    SkipInLine(a, t);
    assert (a + t)[0] == a[0];
    if a[0] in "es" {
      assert (a + t)[1..] == a[1..] + t;
      SkipInLine(a[1..], t);
      IdInLine(SkipBlanks(a[1..]), t, if a[0] == 'e' then pf.(flags := pf.flags.(ext := true)) else pf);
    }
  }

  /** What is parsed depends on the text up to the first newline only. */
  lemma ParsedInLine(a: string, t: string, pf: Msg)
    requires '\n' in a
    ensures Parsed(a + t, pf) == Parsed(a, pf)
  {
    hide SkipBlanks, ParsedFormat;
    SkipInLine(a, t);
    var u := SkipBlanks(a);
    assert (u + t)[0] == u[0];
    if u[0] in "BbMmRr" {
      assert (u + t)[1..] == u[1..] + t;
      SkipInLine(u[1..], t);
      FormatInLine(SkipBlanks(u[1..]), t, KindFlags(u[0], pf));
    }
  }

  // ---------------------------------------------------------------- the printed line as a line

  const READBUFFER_SIZE := 80

  lemma {:induction false} DataTextShape(bytes: seq<u8>)
    ensures |DataText(bytes)| == 5 * |bytes| && '\n' !in DataText(bytes)
  {
    if bytes != [] {
      DataTextShape(bytes[1..]);
      assert '\n' !in Hex(bytes[0], 2);
    }
  }

  function Pow10(k: nat): nat { if k == 0 then 1 else 10 * Pow10(k - 1) }

  lemma {:induction false} DecimalLength(v: nat, k: nat)
    requires k > 0 && v < Pow10(k)
    ensures |Decimal(v)| <= k
  {
    if v >= 10 {
      DecimalLength(v / 10, k - 1);
    }
  }

  /** A microsecond part that is really below one second prints in 16 characters. */
  lemma StampLength(pf: Msg)
    ensures '\n' !in StampText(pf) && |StampText(pf)| <= 23
    ensures 0 <= pf.tvUsec < 1_000_000 ==> |StampText(pf)| == if pf.flags.timestamp then 16 else 0
  {
    hide Decimal, Pad;
    TenDigits();
    var ms := U32(TruncDiv(pf.tvUsec, 1000));
    var us := U32(pf.tvUsec - ms * 1000);
    DecimalLength(us, 10);
    DecimalLength(U32(ms + pf.tvSec * 1000), 10);
    if 0 <= pf.tvUsec < 1_000_000 {
      assert 0 <= pf.tvUsec - ms * 1000 < 1000;
      DecimalLength(us, 3);
    }
  }

  lemma TenDigits()
    ensures Pow10(2) == 100 && Pow10(3) == 1000 && Pow10(10) == 10_000_000_000
  {
    assert Pow10(6) == 1_000_000;
  }

  /** The two numbers of a stamp are the time of the message in milliseconds, cut to 32 bits, and the
      microseconds above that; they are the whole time exactly during the first 2^32 milliseconds. */
  lemma StampTime(pf: Msg) returns (ms: u32, us: u32)
    requires pf.flags.timestamp && 0 <= pf.tvSec && 0 <= pf.tvUsec < 1_000_000
    ensures StampText(pf) == " " + Pad(Decimal(ms), 11, ' ') + " " + Pad(Decimal(us), 3, '0')
    ensures us < 1000 && (pf.tvSec * 1_000_000 + pf.tvUsec - (ms * 1000 + us)) % 4_294_967_296_000 == 0
    ensures ms * 1000 + us == pf.tvSec * 1_000_000 + pf.tvUsec <==> pf.tvSec * 1000 + pf.tvUsec / 1000 <= UINT_MAX
  {
    hide Decimal, Pad;
    var part: u32 := pf.tvUsec / 1000;
    us := pf.tvUsec - part * 1000;
    var total := part + pf.tvSec * 1000;
    ms := U32(total);
    FitsU32(part);
    FitsU32(us);
    var k := total / 0x1_0000_0000;
    assert total == k * 0x1_0000_0000 + ms;
    assert pf.tvSec * 1_000_000 + pf.tvUsec - (ms * 1000 + us) == k * 4_294_967_296_000;
    Digits(k, 0, 4_294_967_296_000);
  }

  lemma HeadShape(pf: Msg)
    requires pf.dataLen <= MAXDATALEN
    ensures '\n' !in IdText(pf.id) && |IdText(pf.id)| == 10
    ensures '\n' !in LengthText(pf.dataLen) && |LengthText(pf.dataLen)| == 2
    ensures KindChar(pf) != '\n' && FormatChar(pf) != '\n'
  {
    hide Hex, Decimal, Pad;
    TenDigits();
    DecimalLength(pf.dataLen, 2);
  }

  /** A printed frame is one line, of a length that only the bytes shown and the stamp decide; the 80-byte
      read buffer holds it exactly up to 8 bytes with a stamp and 12 without. */
  lemma LineShape(pf: Msg)
    requires Printable(pf) && pf.dataLen <= MAXDATALEN
    ensures var line := Line(pf);
            && line[|line| - 1] == '\n' && '\n' !in line[..|line| - 1]
            && |line| == 20 + 5 * |Shown(pf)| + |StampText(pf)| <= 363
            && (0 <= pf.tvUsec < 1_000_000 ==>
                  (|line| <= READBUFFER_SIZE <==> |Shown(pf)| <= if pf.flags.timestamp then 8 else 12))
  {
    hide Hex, Decimal, Pad, StampText, DataText, IdText, LengthText, KindChar, FormatChar;
    DataTextShape(Shown(pf));
    StampLength(pf);
    HeadShape(pf);
    var head := Head(pf);
    assert '\n' !in head && |head| == 19;
    LineParts(pf);
    var body := head + DataText(Shown(pf)) + StampText(pf);
    assert Line(pf) == body + "\n";
    assert Line(pf)[..|body|] == body;
  }

  // ---------------------------------------------------------------- blanks, ends of line and other letters

  /** Blanks and tabs in front of a message do not matter. */
  lemma {:induction false} LeadingBlanks(ws: string, s: string, pf: Msg)
    requires forall c :: c in ws ==> c == ' ' || c == '\t'
    ensures Parsed(ws + s, pf) == Parsed(s, pf)
    decreases |ws|
  {
    hide ParsedFormat;
    if ws == [] {
      assert [] + s == s;
    } else {
      assert ws[0] in ws && forall c :: c in ws[1..] ==> c in ws;
      assert ws + s == [ws[0]] + (ws[1..] + s);
      SkipOne(ws[0], ws[1..] + s);
      LeadingBlanks(ws[1..], s, pf);
    }
  }

  /** A message has to start with one of six letters. */
  lemma FirstLetter(c: char, t: string, pf: Msg)
    requires c !in {' ', '\t', 'b', 'B', 'm', 'M', 'r', 'R'}
    ensures Parsed([c] + t, pf).1 == -22
  {
    SkipOne(c, t);
  }

  /** A line may also end with a carriage return or a zero byte: no field is looked for behind it. */
  lemma EndsEarly(c: char, t: string, pf: Msg)
    requires c in {'\n', '\r', '\0'}
    ensures ParsedFormat([c] + t, pf) == (pf, -22) && ParsedId([c] + t, pf) == (pf, -22) && ParsedLength([c] + t, pf) == (pf, 0)
    ensures forall data: Payload, i: nat, n: nat :: n <= 64 ==> ParsedData([c] + t, data, i, n) == (data, 0)
  {
    assert ([c] + t)[0] == c;
    SkipOne(c, t);
  }

  /** The two letters of a status message tell what it is about; any other message shows question marks. */
  lemma OtherLetters(pf: Msg)
    requires Printable(pf)
    ensures pf.msgType == 3 ==> Line(pf)[0] == 'x' && Line(pf)[1] == ' '
    ensures pf.msgType == 3 ==>
              (Line(pf)[2] == 'b' <==> pf.flags.errorBus)
              && (Line(pf)[2] == 'c' <==> !pf.flags.errorBus && pf.flags.errorCtrlr)
              && (Line(pf)[2] == 'i' <==> !pf.flags.errorBus && !pf.flags.errorCtrlr && pf.flags.errorInternal)
              && Line(pf)[2] in {'b', 'c', 'i', 'x'}
    ensures pf.msgType !in {1, 2, 3} ==> Line(pf)[0] == '?' && Line(pf)[2] == '?'
  {
    hide TailText, IdText, LengthText;
  }

  /** The digits that are printed, and what they and their upper-case forms are worth. */
  lemma DigitChars(n: nat)
    requires n < 16
    ensures HexDigit(n) == "0123456789abcdef"[n] && DigitOf("0123456789abcdef"[n]) == n == DigitOf("0123456789ABCDEF"[n])
  {
  }

  lemma HexGrows(v: nat, w: nat, s: string)
    requires w > 0 && Hex(v / 16, w - 1) == s
    ensures Hex(v, w) == s + [HexDigit(v % 16)]
  {
  }

  lemma BytesExample()
    ensures Hex(0x0a, 2) == "0a" && Hex(0xff, 2) == "ff"
  {
    assert Hex(0, 0) == "";
    hide Hex;
    HexGrows(0, 1, "");
    HexGrows(0xa, 2, "0");
    HexGrows(0xf, 1, "");
    HexGrows(0xff, 2, "f");
  }

  lemma {:induction false} HexZeros(w: nat)
    ensures Hex(0, w) == seq(w, _ => '0')
  {
    if w > 0 {
      HexZeros(w - 1);
      HexGrows(0, w, Hex(0, w - 1));
    }
  }

  lemma IdExample()
    ensures Hex(0x12f, 8) == "0000012f"
  {
    HexZeros(5);
    hide Hex;
    HexGrows(0x1, 6, "00000");
    HexGrows(0x12, 7, "000001");
    HexGrows(0x12f, 8, "0000012");
  }

  lemma TwoBytes(a: u8, b: u8)
    ensures DataText([a, b]) == "0x" + Hex(a, 2) + " 0x" + Hex(b, 2) + " "
  {
    hide Hex;
    assert [a, b][1..] == [b] && [b][1..] == [];
    assert DataText([b]) == ByteText(b) + "";
  }

  lemma HeadExample(pf: Msg)
    requires pf.msgType == 1 && pf.dataLen == 2 && pf.id == 0x12f && pf.flags == NONE
    ensures Head(pf) == "m s 0x0000012f  2  "
  {
    IdExample();
    assert Pad("2", 2, ' ') == " 2" && Decimal(2) == "2";
    hide Hex, Decimal, Pad;
  }

  /** A printed frame with two bytes, character by character. */
  lemma LineExample(data: Payload)
    requires data[0] == 0x0a && data[1] == 0xff
    ensures Line(Msg(1, 2, 0x12f, NONE, 0, 0, data)) == "m s 0x0000012f  2  0x0a 0xff \n"
  {
    var pf := Msg(1, 2, 0x12f, NONE, 0, 0, data);
    hide Hex, DataText, Line, Head;
    LineParts(pf);
    HeadExample(pf);
    BytesExample();
    TwoBytes(0x0a, 0xff);
    assert data[..2] == [0x0a, 0xff];
  }
}
