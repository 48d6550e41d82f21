/** How Socket/client.c frames a request and how Socket/lib.c takes it apart again: ten digits of
    client id, then the line. */
module SocketClient {
  import opened SocketCommands
  import opened SocketFrame

  function DigitByte(d: nat): (r: Byte)
    requires d < 10
  {
    (48 + d) as Byte
  }

  predicate IsDigit(b: Byte) { 48 <= b <= 57 }

  function DigitValue(b: Byte): (d: nat)
    requires IsDigit(b)
    ensures d < 10
  {
    (b - 48) as nat
  }

  lemma DigitRoundTrip(d: nat)
    requires d < 10
    ensures IsDigit(DigitByte(d)) && DigitValue(DigitByte(d)) == d
  {
  }

  /** printf's %d for a number that is not negative. */
  function Decimal(n: nat): (r: seq<Byte>)
    ensures r != []
  {
    if n < 10 then [DigitByte(n)] else Decimal(n / 10) + [DigitByte(n % 10)]
  }

  predicate AllDigits(s: seq<Byte>) { forall i :: 0 <= i < |s| ==> IsDigit(s[i]) }

  function Number(s: seq<Byte>): nat
    requires AllDigits(s)
  {
    if s == [] then 0 else 10 * Number(s[..|s| - 1]) + DigitValue(s[|s| - 1])
  }

  /** atoi: blanks, an optional sign, then digits up to the first other byte. */
  function Digits(s: seq<Byte>): (r: seq<Byte>)
    ensures AllDigits(r) && |r| <= |s|
  {
    if s == [] || !IsDigit(s[0]) then [] else [s[0]] + Digits(s[1..])
  }

  predicate IsBlank(b: Byte) { b == 32 || 9 <= b <= 13 }

  function Atoi(s: seq<Byte>): int {
    if s == [] then 0
    else if IsBlank(s[0]) then Atoi(s[1..])
    else if s[0] == 45 then -(Number(Digits(s[1..])) as int)
    else if s[0] == 43 then Number(Digits(s[1..]))
    else Number(Digits(s))
  }

  lemma {:induction false} DigitsOfNumber(s: seq<Byte>)
    requires AllDigits(s)
    ensures Digits(s) == s
  {
    if s != [] {
      DigitsOfNumber(s[1..]);
    }
  }

  lemma {:induction false} NumberSnoc(s: seq<Byte>, d: nat)
    requires AllDigits(s) && d < 10
    ensures AllDigits(s + [DigitByte(d)]) && Number(s + [DigitByte(d)]) == 10 * Number(s) + d
  {
    DigitRoundTrip(d);
    hide DigitByte, DigitValue, IsDigit;
    assert (s + [DigitByte(d)])[..|s|] == s;
  }

  lemma {:induction false} DecimalIsNumber(n: nat)
    ensures AllDigits(Decimal(n)) && Number(Decimal(n)) == n
  {
    hide DigitByte, AllDigits, Number;
    if n >= 10 {
      DecimalIsNumber(n / 10);
      NumberSnoc(Decimal(n / 10), n % 10);
    } else {
      NoDigits();
      NumberSnoc([], n);
      assert [] + [DigitByte(n)] == [DigitByte(n)];
    }
  }

  lemma NoDigits()
    ensures AllDigits([]) && Number([]) == 0
  {
  }

  /** A digit more, in ASCII: the number grows tenfold and by the digit. */
  lemma NumberReads(s: seq<Byte>, b: Byte)
    requires AllDigits(s) && 48 <= b <= 57
    ensures AllDigits(s + [b]) && Number(s + [b]) == 10 * Number(s) + (b - 48) as nat
  {
    assert (s + [b])[..|s|] == s;
  }

  function Pow10(n: nat): nat { if n == 0 then 1 else 10 * Pow10(n - 1) }

  lemma {:induction false} DecimalLength(n: nat, digits: nat)
    requires digits >= 1
    ensures |Decimal(n)| <= digits <==> n < Pow10(digits)
  {
    if n >= 10 && digits > 1 {
      DecimalLength(n / 10, digits - 1);
    } else if digits > 1 {
      assert Pow10(digits) >= 10 by {
        Pow10Grows(digits - 1);
      }
    }
  }

  lemma {:induction false} Pow10Grows(n: nat)
    ensures Pow10(n) >= 1
  {
    if n > 0 {
      Pow10Grows(n - 1);
    }
  }

  function Zeros(n: nat): seq<Byte> { seq(n, i => 48) }

  lemma {:induction false} ZerosDoNotCount(n: nat, s: seq<Byte>)
    requires AllDigits(s)
    ensures AllDigits(Zeros(n) + s) && Number(Zeros(n) + s) == Number(s)
    decreases |s|, n
  {
    if s != [] {
      var f := s[..|s| - 1];
      ZerosDoNotCount(n, f);
      assert (Zeros(n) + s)[..n + |s| - 1] == Zeros(n) + f;
    } else if n > 0 {
      ZerosDoNotCount(n - 1, s);
      assert (Zeros(n) + s)[..n - 1] == Zeros(n - 1) + s;
    }
  }

  /** What snprintf leaves of the id in ten bytes: its first nine digits. */
  function Printed(id: nat): (r: seq<Byte>)
    ensures |r| <= IDSZ - 1
  {
    if |Decimal(id)| <= IDSZ - 1 then Decimal(id) else Decimal(id)[..IDSZ - 1]
  }

  /** get_id: nine digits at most, padded with zeros in front. */
  function PaddedId(id: nat): (r: seq<Byte>)
    ensures |r| == IDSZ
  {
    Zeros(IDSZ - |Printed(id)|) + Printed(id)
  }

  method GetId(id: nat, clientId: array<Byte>)
    requires clientId.Length == IDSZ
    modifies clientId
    ensures clientId[..] == PaddedId(id)
  {
    var tmp := Decimal(id);
    if |tmp| > IDSZ - 1 {
      tmp := tmp[..IDSZ - 1];
    }
    assert tmp == Printed(id);
    hide Decimal, Printed, Zeros;
    for i := 0 to IDSZ
      invariant forall j :: 0 <= j < i ==> clientId[j] == 48
    {
      clientId[i] := 48;
    }
    var from := IDSZ - |tmp|;
    for i := 0 to |tmp|
      invariant forall j :: 0 <= j < from ==> clientId[j] == 48
      invariant forall j :: from <= j < from + i ==> clientId[j] == tmp[j - from]
    {
      clientId[from + i] := tmp[i];
    }
    IsPadded(clientId[..], from, tmp);
  }

  lemma IsPadded(s: seq<Byte>, from: nat, digits: seq<Byte>)
    requires |s| == from + |digits|
    requires forall j :: 0 <= j < from ==> s[j] == 48
    requires forall j :: from <= j < |s| ==> s[j] == digits[j - from]
    ensures s == Zeros(from) + digits
  {
  }

  /** Blanks in front are skipped, a sign is heeded, and the digits count up to the first other byte. */
  lemma {:induction false} AtoiReads(blanks: seq<Byte>, sign: seq<Byte>, digits: seq<Byte>, tail: seq<Byte>)
    requires forall i :: 0 <= i < |blanks| ==> blanks[i] == 32 || 9 <= blanks[i] <= 13
    requires sign == [] || sign == [0x2d] || sign == [0x2b]
    requires digits != [] && forall i :: 0 <= i < |digits| ==> 48 <= digits[i] <= 57
    requires tail != [] ==> !(48 <= tail[0] <= 57)
    ensures Atoi(blanks + sign + digits + tail) == if sign == [0x2d] then -(Number(digits) as int) else Number(digits)
    decreases |blanks|
  {
    hide Atoi, Number, Digits, IsBlank;
    var rest := sign + digits + tail;
    if blanks == [] {
      assert blanks + sign + digits + tail == rest;
      SignedReads(sign, digits, tail);
    } else {
      var more := blanks[1..] + sign + digits + tail;
      AtoiReads(blanks[1..], sign, digits, tail);
      assert blanks + sign + digits + tail == [blanks[0]] + more;
      SkipsBlank(blanks[0], more);
    }
  }

  lemma SkipsBlank(b: Byte, rest: seq<Byte>)
    requires b == 32 || 9 <= b <= 13
    ensures Atoi([b] + rest) == Atoi(rest)
  {
    assert ([b] + rest)[1..] == rest;
  }

  lemma SignedReads(sign: seq<Byte>, digits: seq<Byte>, tail: seq<Byte>)
    requires sign == [] || sign == [0x2d] || sign == [0x2b]
    requires digits != [] && AllDigits(digits) && (tail != [] ==> !IsDigit(tail[0]))
    ensures Atoi(sign + digits + tail) == if sign == [0x2d] then -(Number(digits) as int) else Number(digits)
  {
    var s, rest := sign + digits + tail, digits + tail;
    DigitsStop(digits, tail);
    if sign == [] {
      assert s == rest && s[0] == digits[0] && IsDigit(s[0]);
    } else {
      assert s[0] == sign[0] && s[1..] == rest;
    }
    hide Digits, Number, AllDigits;
  }

  lemma {:induction false} DigitsStop(digits: seq<Byte>, tail: seq<Byte>)
    requires AllDigits(digits) && (tail != [] ==> !IsDigit(tail[0]))
    ensures Digits(digits + tail) == digits
  {
    if digits == [] {
      assert digits + tail == tail;
    } else {
      DigitsStop(digits[1..], tail);
      assert (digits + tail)[1..] == digits[1..] + tail;
    }
  }

  lemma AtoiOfDigits(s: seq<Byte>)
    requires AllDigits(s) && s != []
    ensures Atoi(s) == Number(s)
  {
    DigitsOfNumber(s);
  }

  lemma {:induction false} PrintedValue(id: nat)
    requires id < 0x8000_0000
    ensures AllDigits(Printed(id))
    ensures Number(Printed(id)) == if id < 1_000_000_000 then id else id / 10
  {
    DecimalIsNumber(id);
    Powers();
    DecimalLength(id, 9);
    DecimalLength(id, 10);
    if id >= 1_000_000_000 {
      var d := Decimal(id);
      assert d == Decimal(id / 10) + [DigitByte(id % 10)];
      assert Printed(id) == d[..|d| - 1] == Decimal(id / 10);
      DecimalIsNumber(id / 10);
    }
  }

  /** The id a ten-byte field stands for: ids of ten digits lose their last. */
  lemma {:induction false} PaddedIdValue(id: nat)
    requires id < 0x8000_0000
    ensures Atoi(PaddedId(id)) == if id < 1_000_000_000 then id else id / 10
    ensures AllDigits(PaddedId(id))
  {
    hide Number, Atoi, Printed;
    PrintedValue(id);
    ZerosDoNotCount(IDSZ - |Printed(id)|, Printed(id));
    AtoiOfDigits(PaddedId(id));
  }

  lemma Powers()
    ensures Pow10(9) == 1_000_000_000 && Pow10(10) == 10_000_000_000
  {
    assert Pow10(3) == 1000;
    assert Pow10(6) == 1_000_000;
  }

  // ---------------------------------------------------------------- frames

  const LINESZ: nat := BUFSZ - 1 - IDSZ
  const NEWLINE: Byte := 10

  /** How many bytes one fgets takes from what is still to come: to the end of the line, but no more
      than its buffer holds.  The rest waits for the next call. */
  function Taken(input: seq<Byte>): (n: nat)
    ensures n <= |input| && n <= LINESZ && (input != [] ==> n > 0)
  {
    var n := |Before(input, NEWLINE)|;
    var line := if n < |input| then n + 1 else n;
    if line <= LINESZ then line else LINESZ
  }

  /** The bytes of the next piece, one by one, as fgets reads them. */
  method Fgets(input: seq<Byte>, tmpBuf: array<Byte>) returns (n: nat)
    requires tmpBuf.Length == BUFSZ - IDSZ
    modifies tmpBuf
    ensures n == Taken(input) && tmpBuf[..n] == input[..n]
    ensures n <= 245 && forall j :: 0 <= j < n - 1 ==> input[j] != 10
    ensures n < 245 && n < |input| ==> n > 0 && input[n - 1] == 10
  {
    n := 0;
    while n < LINESZ && n < |input| && (n == 0 || input[n - 1] != NEWLINE)
      invariant n <= LINESZ && n <= |input|
      invariant tmpBuf[..n] == input[..n]
      invariant n > 0 ==> NEWLINE !in input[..n - 1]
    {
      tmpBuf[n] := input[n];
      n := n + 1;
    }
    TakenIs(input, n);
  }

  lemma TakenIs(input: seq<Byte>, n: nat)
    requires n <= |input| && n <= LINESZ && (n > 0 ==> NEWLINE !in input[..n - 1])
    requires n == LINESZ || n == |input| || (n > 0 && input[n - 1] == NEWLINE)
    ensures Taken(input) == n
  {
    if n > 0 && input[n - 1] == NEWLINE {
      BeforeIs(input, NEWLINE, n - 1);
    } else {
      assert n > 0 ==> input[..n] == input[..n - 1] + [input[n - 1]];
      BeforeIsNoLonger(input, NEWLINE, n);
    }
  }

  /** snprintf of id and text, cut to what the buffer holds; bytes behind the terminator stay. */
  function Framed(buffer: seq<Byte>, clientId: seq<Byte>, line: seq<Byte>): (r: seq<Byte>)
    requires |buffer| == BUFSZ
    ensures |r| == BUFSZ
  {
    var text := clientId + CStr(line);
    var n := if |text| < BUFSZ then |text| else BUFSZ - 1;
    text[..n] + [0] + buffer[n + 1..]
  }

  method Snprintf(buffer: array<Byte>, clientId: array<Byte>, line: seq<Byte>)
    requires buffer.Length == BUFSZ && buffer != clientId
    modifies buffer
    ensures buffer[..] == Framed(old(buffer[..]), clientId[..], line)
  {
    hide Before, Framed;
    ghost var was := buffer[..];
    var text := clientId[..] + CStr(line);
    var i := 0;
    while i < |text| && i < BUFSZ - 1
      invariant i <= |text| && i <= BUFSZ - 1
      invariant forall j :: 0 <= j < i ==> buffer[j] == text[j]
      invariant forall j :: i <= j < BUFSZ ==> buffer[j] == was[j]
    {
      buffer[i] := text[i];
      i := i + 1;
    }
    buffer[i] := 0;
    FramedIs(was, clientId[..], line, buffer[..], i);
  }

  lemma FramedIs(was: seq<Byte>, clientId: seq<Byte>, line: seq<Byte>, now: seq<Byte>, n: nat)
    requires |was| == |now| == BUFSZ
    requires var text := clientId + CStr(line);
      && n == (if |text| < BUFSZ then |text| else BUFSZ - 1)
      && (forall j :: 0 <= j < n ==> now[j] == text[j])
    requires now[n] == 0 && forall j :: n < j < BUFSZ ==> now[j] == was[j]
    ensures now == Framed(was, clientId, line)
  {
    hide Before;
  }

  /** get_str: the next piece of the input behind the id; what is left waits. */
  method GetStr(buffer: array<Byte>, clientId: array<Byte>, input: seq<Byte>)
    returns (command: Command, rest: seq<Byte>)
    requires buffer.Length == BUFSZ && clientId.Length == IDSZ && buffer != clientId
    modifies buffer
    ensures rest == input[Taken(input)..]
    ensures input == [] ==> command == Error && buffer[..] == old(buffer[..])
    ensures input != [] ==>
      && command == GetCommand(input[..Taken(input)])
      && buffer[..] == Framed(old(buffer[..]), clientId[..], input[..Taken(input)])
  {
    if input == [] {
      return Error, input;
    }
    var tmpBuf := new Byte[BUFSZ - IDSZ];
    var n := Fgets(input, tmpBuf);
    Snprintf(buffer, clientId, tmpBuf[..n]);
    return GetCommand(tmpBuf[..n]), input[n..];
  }

  /** separate_buffer: the number in the first ten bytes, and the string behind them. */
  function Separate(buffer: seq<Byte>): (int, seq<Byte>)
    requires |buffer| >= IDSZ
  {
    (Atoi(CStr(buffer[..IDSZ])), CStr(buffer[IDSZ..]))
  }

  method SeparateBuffer(buffer: array<Byte>, data: array<Byte>) returns (clientId: int)
    requires buffer.Length == data.Length == BUFSZ && buffer != data && 0 in buffer[IDSZ..]
    modifies data
    ensures (clientId, CStr(data[..])) == Separate(buffer[..])
  {
    clientId := Atoi(CStr(buffer[..IDSZ]));
    assert buffer[IDSZ..][..] == buffer[IDSZ..];
    var i := 0;
    while IDSZ + i < BUFSZ && buffer[IDSZ + i] != 0
      invariant IDSZ + i <= BUFSZ
      invariant data[..i] == buffer[IDSZ..IDSZ + i] && 0 !in data[..i]
    {
      data[i] := buffer[IDSZ + i];
      i := i + 1;
    }
    data[i] := 0;
    assert data[..][..i] == data[..i] == buffer[IDSZ..][..i];
    BeforeIs(data[..], 0, i);
    BeforeIs(buffer[IDSZ..], 0, i);
    assert buffer[..][..IDSZ] == buffer[..IDSZ] && buffer[..][IDSZ..] == buffer[IDSZ..];
  }

  lemma {:induction false} CStrOfText(text: seq<Byte>, rest: seq<Byte>)
    requires 0 !in text
    ensures CStr(text + [0] + rest) == text
  {
    BeforeIs(text + [0] + rest, 0, |text|);
    assert (text + [0] + rest)[..|text|] == text;
  }

  /** The part of a text that a frame has room for. */
  function Kept(line: seq<Byte>): seq<Byte> {
    var text := CStr(line);
    if |text| <= LINESZ then text else text[..LINESZ]
  }

  /** The part of it that comes through the mask. */
  function Arrived(line: seq<Byte>): seq<Byte> { Before(Kept(line), CR_MASK) }

  /** The id a server reads: of ten digits the last is lost. */
  function WireId(id: nat): nat { if id < 1_000_000_000 then id else id / 10 }

  /** Any request through framing, hiding, the wire and separation: the server gets the id, less its
      tenth digit if it has one, and of the line at most 245 bytes, up to its first 0 or 0xAA. */
  lemma {:induction false} FrameRoundTrip(buffer: seq<Byte>, id: nat, line: seq<Byte>)
    requires |buffer| == BUFSZ && id < 0x8000_0000
    ensures Separate(Received(Encoded(Framed(buffer, PaddedId(id), line)))) == (WireId(id), Arrived(line))
  {
    var pad, got := PaddedId(id), Arrived(line);
    PaddedIdValue(id);
    hide PaddedId, Atoi, Received, Encoded, Separate, Framed, AllDigits, Arrived;
    SentArrives(buffer, pad, line);
    SeparateText(Received(Encoded(Framed(buffer, pad, line))), pad + got);
    assert (pad + got)[..IDSZ] == pad && (pad + got)[IDSZ..] == got;
  }

  /** A framed text arrives whole exactly when it has at most 245 bytes, as every piece of the input
      has, and none of them is 0 or 0xAA. */
  lemma {:induction false} ArrivesWholeExactly(line: seq<Byte>)
    ensures Arrived(line) == line <==> |line| <= LINESZ && 0 !in line && CR_MASK !in line
  {
    if |line| <= LINESZ && 0 !in line && CR_MASK !in line {
      assert line[..|line|] == line;
      BeforeIs(line, 0, |line|);
      BeforeIs(line, CR_MASK, |line|);
    }
    if Arrived(line) == line {
      assert |Arrived(line)| <= |Kept(line)| <= |CStr(line)| <= |line|;
      assert CStr(line) == line[..|line|] == line;
    }
  }

  lemma SentArrives(buffer: seq<Byte>, pad: seq<Byte>, line: seq<Byte>)
    requires |buffer| == BUFSZ && |pad| == IDSZ && AllDigits(pad)
    ensures CStr(Received(Encoded(Framed(buffer, pad, line)))) == pad + Arrived(line)
  {
    var kept := Kept(line);
    var sent, n, frame := pad + kept, IDSZ + |kept|, Framed(buffer, pad, line);
    KeptIsText(line);
    PadIsPlain(pad);
    hide Received, Encoded, Before, AllDigits, Kept;
    assert frame == sent + [0] + buffer[n + 1..];
    assert 0 !in sent;
    CStrOfText(sent, buffer[n + 1..]);
    assert frame[n] == 0;
    TextSurvivesUpToMask(frame);
    BeforeOfSum(pad, kept, CR_MASK);
  }

  lemma KeptIsText(line: seq<Byte>)
    ensures 0 !in Kept(line) && |Kept(line)| <= LINESZ
    ensures Kept(line) == CStr(line)[..|Kept(line)|]
    ensures |CStr(line)| <= LINESZ ==> Kept(line) == CStr(line)
    ensures |CStr(line)| > LINESZ ==> |Kept(line)| == LINESZ
  {
    hide Before;
  }

  lemma PadIsPlain(pad: seq<Byte>)
    requires AllDigits(pad)
    ensures 0 !in pad && CR_MASK !in pad
  {
    assert forall b :: b in pad ==> IsDigit(b);
  }

  lemma BeforeOfSum(a: seq<Byte>, b: seq<Byte>, stop: Byte)
    requires stop !in a
    ensures Before(a + b, stop) == a + Before(b, stop)
  {
    var r, all := Before(b, stop), a + b;
    var n := |a| + |r|;
    hide Before;
    assert all[..n] == a + r;
    assert n < |all| ==> all[n] == b[|r|];
    BeforeIs(all, stop, n);
  }

  lemma {:induction false} SeparateText(got: seq<Byte>, text: seq<Byte>)
    requires |got| == BUFSZ && |text| >= IDSZ && CStr(got) == text
    ensures Separate(got) == (Atoi(text[..IDSZ]), text[IDSZ..])
  {
    assert got[..|text|] == text;
    assert got[..IDSZ] == text[..IDSZ];
    BeforeIs(got[..IDSZ], 0, IDSZ);
    assert got[..IDSZ][..IDSZ] == text[..IDSZ];
    BeforeIs(got[IDSZ..], 0, |text| - IDSZ);
    assert got[IDSZ..][..|text| - IDSZ] == text[IDSZ..];
  }
}
