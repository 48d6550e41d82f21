/** Frames of Socket/lib.c, Socket/UDP.c and Socket/client.c: 256-byte buffers holding C strings,
    hidden by XOR with 0xAA and cut to 255 bytes on receipt. */
module SocketFrame {

  type Byte = bv8
  const BUFSZ: nat := 256
  const IDSZ: nat := 10
  const CR_MASK: Byte := 0xAA

  // ---------------------------------------------------------------- C strings

  /** The part of `b` before the first `stop`. */
  function Before(b: seq<Byte>, stop: Byte): (r: seq<Byte>)
    ensures |r| <= |b| && r == b[..|r|] && stop !in r
    ensures |r| < |b| ==> b[|r|] == stop
  {
    if b == [] || b[0] == stop then [] else [b[0]] + Before(b[1..], stop)
  }

  function CStr(b: seq<Byte>): seq<Byte> { Before(b, 0) }

  lemma {:induction false} BeforeIsNoLonger(b: seq<Byte>, stop: Byte, n: nat)
    requires n <= |b| && stop !in b[..n]
    ensures |Before(b, stop)| >= n
  {
    if n > 0 {
      assert b[..n][0] == b[0] && b[1..][..n - 1] == b[..n][1..];
      BeforeIsNoLonger(b[1..], stop, n - 1);
    }
  }

  /** The first `stop`, or the end, marks the cut. */
  lemma BeforeIs(b: seq<Byte>, stop: Byte, n: nat)
    requires n <= |b| && stop !in b[..n] && (n < |b| ==> b[n] == stop)
    ensures Before(b, stop) == b[..n]
  {
    BeforeIsNoLonger(b, stop, n);
    assert |Before(b, stop)| == n;
  }

  // ---------------------------------------------------------------- codec

  /** encode: every byte of the string, but not what follows its terminator. */
  function Encoded(b: seq<Byte>): (r: seq<Byte>)
    ensures |r| == |b|
  {
    seq(|b|, i requires 0 <= i < |b| => if i < |CStr(b)| then b[i] ^ CR_MASK else b[i])
  }

  /** Byte by byte: masked before the first 0, left alone from there on. */
  lemma EncodedAt(b: seq<Byte>, j: nat)
    requires j < |b|
    ensures Encoded(b)[j] == if 0 in b[..j + 1] then b[j] else b[j] ^ 0xAA
  {
    var n := |CStr(b)|;
    hide Before;
    if j < n {
      assert b[..n] == CStr(b);
      assert 0 !in b[..j + 1] by {
        forall i | 0 <= i <= j ensures b[i] != 0 { assert b[i] == CStr(b)[i]; }
      }
    } else {
      assert b[n] == 0 && b[..j + 1][n] == 0;
    }
  }

  /** What is received, byte by byte. */
  lemma ReceivedAt(datagram: seq<Byte>, j: nat)
    requires j < 256
    ensures Received(datagram)[j] ==
      if j >= 255 || j >= |datagram| then 0
      else if 0 in datagram[..j + 1] then datagram[j]
      else datagram[j] ^ 0xAA
  {
    var raw := Raw(datagram);
    EncodedAt(raw, j);
    if j >= 255 || j >= |datagram| {
      assert raw[..j + 1][j] == 0;
    } else {
      assert raw[..j + 1] == datagram[..j + 1];
    }
    hide Encoded, Raw;
  }

  method StrLen(b: array<Byte>) returns (n: nat)
    ensures n == |CStr(b[..])|
  {
    n := 0;
    while n < b.Length && b[n] != 0
      invariant n <= b.Length && forall i :: 0 <= i < n ==> b[i] != 0
    {
      n := n + 1;
    }
    BeforeIs(b[..], 0, n);
  }

  method Encode(buffer: array<Byte>)
    modifies buffer
    ensures buffer[..] == Encoded(old(buffer[..]))
    ensures forall j :: 0 <= j < buffer.Length ==>
      buffer[j] == if 0 in old(buffer[..j + 1]) then old(buffer[j]) else old(buffer[j]) ^ 0xAA
  {
    ghost var was := buffer[..];
    var size := StrLen(buffer);
    var i := 0;
    while i < size
      invariant i <= size <= buffer.Length
      invariant forall j :: 0 <= j < i ==> buffer[j] == old(buffer[j]) ^ CR_MASK
      invariant forall j :: i <= j < buffer.Length ==> buffer[j] == old(buffer[j])
    {
      buffer[i] := buffer[i] ^ CR_MASK;
      i := i + 1;
    }
    assert buffer[..] == Encoded(was);
    forall j | 0 <= j < buffer.Length
      ensures buffer[j] == if 0 in old(buffer[..j + 1]) then old(buffer[j]) else old(buffer[j]) ^ 0xAA
    {
      EncodedAt(was, j);
      assert was[..j + 1] == old(buffer[..j + 1]);
    }
  }

  /** What receive_buf leaves in its cleared buffer: at most 255 bytes, decoded up to the first 0. */
  function Raw(datagram: seq<Byte>): (r: seq<Byte>)
    ensures |r| == BUFSZ
  {
    seq(BUFSZ, i => if 0 <= i < BUFSZ - 1 && i < |datagram| then datagram[i] else 0)
  }

  function Received(datagram: seq<Byte>): (r: seq<Byte>)
    ensures |r| == BUFSZ
  {
    Encoded(Raw(datagram))
  }

  method SendBuf(data: array<Byte>) returns (datagram: seq<Byte>)
    requires data.Length == BUFSZ
    modifies data
    ensures datagram == data[..] == Encoded(old(data[..]))
    ensures |datagram| == 256 && forall j :: 0 <= j < 256 ==>
      datagram[j] == if 0 in old(data[..j + 1]) then old(data[j]) else old(data[j]) ^ 0xAA
  {
    Encode(data);
    datagram := data[..];
  }

  method ClearBuf(buffer: array<Byte>)
    modifies buffer
    ensures forall i :: 0 <= i < buffer.Length ==> buffer[i] == 0
  {
    for i := 0 to buffer.Length
      invariant forall j :: 0 <= j < i ==> buffer[j] == 0
    {
      buffer[i] := 0;
    }
  }

  method ReceiveBuf(datagram: seq<Byte>, buffer: array<Byte>) returns (size: nat)
    requires buffer.Length == BUFSZ
    modifies buffer
    ensures buffer[..] == Received(datagram) && size == |CStr(buffer[..])|
    ensures forall j :: 0 <= j < 256 ==>
      buffer[j] ==
        if j >= 255 || j >= |datagram| then 0
        else if 0 in datagram[..j + 1] then datagram[j]
        else datagram[j] ^ 0xAA
  {
    ClearBuf(buffer);
    var i := 0;
    while i < BUFSZ - 1 && i < |datagram|
      invariant i <= BUFSZ - 1 && i <= |datagram|
      invariant forall j :: 0 <= j < i ==> buffer[j] == datagram[j]
      invariant forall j :: i <= j < BUFSZ ==> buffer[j] == 0
    {
      buffer[i] := datagram[i];
      i := i + 1;
    }
    assert buffer[..] == Raw(datagram);
    Encode(buffer);
    assert buffer[..] == Received(datagram);
    size := StrLen(buffer);
    hide Encoded, Received, Raw, Before;
    forall j | 0 <= j < 256
      ensures buffer[j] ==
        if j >= 255 || j >= |datagram| then 0
        else if 0 in datagram[..j + 1] then datagram[j]
        else datagram[j] ^ 0xAA
    {
      ReceivedAt(datagram, j);
      assert buffer[j] == buffer[..][j];
    }
  }

  lemma MaskTwice(x: Byte)
    ensures x ^ CR_MASK ^ CR_MASK == x
    ensures x ^ CR_MASK == 0 <==> x == CR_MASK
  {
  }

  lemma TerminatorIsInside(b: seq<Byte>)
    requires 0 in b
    ensures |CStr(b)| < |b|
  {
    var r := CStr(b);
    assert |r| >= |b| ==> r == b;
  }

  /** Through the codec and the wire comes exactly the text before its first 0xAA. */
  lemma {:induction false} TextSurvivesUpToMask(data: seq<Byte>)
    requires |data| == BUFSZ && 0 in data
    ensures CStr(Received(Encoded(data))) == Before(CStr(data), CR_MASK)
  {
    var text, wire := CStr(data), Encoded(data);
    var kept := Before(text, CR_MASK);
    var n, k := |text|, |kept|;
    TerminatorIsInside(data);
    var raw := Raw(wire);
    forall i | 0 <= i < BUFSZ
      ensures data[i] ^ CR_MASK ^ CR_MASK == data[i] && ((data[i] ^ CR_MASK == 0) == (data[i] == CR_MASK))
    {
      MaskTwice(data[i]);
    }
    assert raw[k] == 0;
    forall i | 0 <= i < k ensures raw[i] != 0 && raw[i] ^ CR_MASK == data[i] && data[i] != 0 {
      assert kept[i] == data[i] == text[i];
    }
    BeforeIs(raw, 0, k);
    assert |CStr(raw)| == k;
    var got := Encoded(raw);
    assert got[k] == 0;
    forall i | 0 <= i < k ensures got[i] == kept[i] && got[i] != 0 {
      assert got[i] == raw[i] ^ CR_MASK;
    }
    BeforeIs(got, 0, k);
    assert got[..k] == kept;
  }
}
