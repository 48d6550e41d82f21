/** Taking bytes apart into bits and putting them together again, as the two programs of
    Signal_copy do it: least significant bit first. */
module SignalBits {

  const BYTE: nat := 8

  type Byte = b: nat | b < 256
  type Bit = b: nat | b < 2

  function Pow2(n: nat): (r: nat)
    ensures r >= 1
  {
    if n == 0 then 1 else 2 * Pow2(n - 1)
  }

  /** The low `n` bits of `num`. */
  function Bits(num: nat, n: nat): (r: seq<Bit>)
    ensures |r| == n
  {
    if n == 0 then [] else [num % 2] + Bits(num / 2, n - 1)
  }

  function Value(bits: seq<Bit>): nat {
    if bits == [] then 0 else bits[0] + 2 * Value(bits[1..])
  }

  /** Reassembling the bits of a number that has no others gives the number. */
  lemma {:induction false} ValueOfBits(num: nat, n: nat)
    requires num < Pow2(n)
    ensures Value(Bits(num, n)) == num
  {
    if n > 0 {
      ValueOfBits(num / 2, n - 1);
      assert Bits(num, n)[1..] == Bits(num / 2, n - 1);
    }
  }

  /** Taking apart what was reassembled gives the bits back. */
  lemma {:induction false} BitsOfValue(bits: seq<Bit>)
    ensures Value(bits) < Pow2(|bits|)
    ensures Bits(Value(bits), |bits|) == bits
  {
    if bits != [] {
      BitsOfValue(bits[1..]);
      assert Value(bits) / 2 == Value(bits[1..]);
      assert Value(bits) % 2 == bits[0];
    }
  }

  lemma {:induction false} ValueConcat(bits: seq<Bit>, b: Bit)
    ensures Value(bits + [b]) == Value(bits) + b * Pow2(|bits|)
  {
    if bits == [] {
      assert bits + [b] == [b];
      assert Value([b]) == b + 2 * Value([]);
    } else {
      ValueConcat(bits[1..], b);
      assert (bits + [b])[1..] == bits[1..] + [b];
    }
  }

  /** What lies above the low `n` bits never shows in them. */
  lemma {:induction false} UpperBitsUnseen(num: nat, c: nat, n: nat)
    ensures Bits(num + c * Pow2(n), n) == Bits(num, n)
  {
    if n > 0 {
      var e := c * Pow2(n - 1);
      assert c * Pow2(n) == 2 * e;
      assert (num + 2 * e) / 2 == num / 2 + e;
      UpperBitsUnseen(num / 2, c, n - 1);
    }
  }

  lemma LowByte(num: nat)
    ensures Bits(num, BYTE) == Bits(num % 256, BYTE)
  {
    assert Pow2(BYTE) == 256;
    hide Bits;
    UpperBitsUnseen(num % 256, num / 256, BYTE);
  }

  /** get_bites: `num` is the word read at the symbol, whose low byte is the symbol. */
  method GetBites(num: nat, arr: array<Bit>)
    requires num < 0x1_0000_0000 && arr.Length == BYTE
    modifies arr
    ensures arr[..] == Bits(num % 256, BYTE)
  {
    hide Bits;
    var rest: nat, i: nat := num, 0;
    assert arr[..0] + Bits(num, BYTE) == Bits(num, BYTE);
    while i < BYTE
      invariant i <= BYTE
      invariant Bits(num, BYTE) == arr[..i] + Bits(rest, BYTE - i)
    {
      NextBit(arr[..i], rest, BYTE - i);
      arr[i] := rest % 2;
      assert arr[..i + 1] == arr[..i] + [rest % 2];
      rest := rest / 2;
      i := i + 1;
    }
    NoBits(rest);
    assert arr[..] == arr[..BYTE] + [];
    LowByte(num);
  }

  /** Bit j of a number, the least significant first. */
  lemma {:induction false} BitAt(num: nat, n: nat, j: nat)
    requires j < n
    ensures Bits(num, n)[j] == num / Pow2(j) % 2
  {
    if j > 0 {
      BitAt(num / 2, n - 1, j - 1);
      DivideTwice(num, Pow2(j - 1));
    }
  }

  lemma DivideTwice(num: nat, d: nat)
    requires d >= 1
    ensures num / 2 / d == num / (2 * d)
  {
    var h := num / 2;
    var q, r := h / d, h % d;
    assert h == q * d + r;
    var low := num - 2 * h;
    assert num == q * (2 * d) + (2 * r + low) && 0 <= 2 * r + low < 2 * d;
    DivisionIs(num, 2 * d, q, 2 * r + low);
  }

  lemma DivisionIs(a: nat, d: nat, q: nat, r: nat)
    requires a == q * d + r && r < d
    ensures a / d == q
  {
    var p := a / d;
    assert a == p * d + a % d;
    Monotone(p + 1, q, d);
    Monotone(q + 1, p, d);
  }

  lemma Monotone(a: int, b: int, d: nat)
    ensures a <= b ==> a * d <= b * d
  {
  }

  /** The bits of a byte, the least significant first. */
  lemma EightBits(num: nat)
    ensures var b := Bits(num, BYTE);
      && b[0] == num % 2 && b[1] == num / 2 % 2 && b[2] == num / 4 % 2 && b[3] == num / 8 % 2
      && b[4] == num / 16 % 2 && b[5] == num / 32 % 2 && b[6] == num / 64 % 2 && b[7] == num / 128 % 2
  {
    SmallPowers();
    hide Bits, Pow2;
    BitAt(num, BYTE, 0);
    BitAt(num, BYTE, 1);
    BitAt(num, BYTE, 2);
    BitAt(num, BYTE, 3);
    BitAt(num, BYTE, 4);
    BitAt(num, BYTE, 5);
    BitAt(num, BYTE, 6);
    BitAt(num, BYTE, 7);
  }

  lemma SmallPowers()
    ensures Pow2(0) == 1 && Pow2(1) == 2 && Pow2(2) == 4 && Pow2(3) == 8
    ensures Pow2(4) == 16 && Pow2(5) == 32 && Pow2(6) == 64 && Pow2(7) == 128
  {
  }

  lemma NextBit(done: seq<Bit>, rest: nat, n: nat)
    requires n > 0
    ensures done + Bits(rest, n) == (done + [rest % 2]) + Bits(rest / 2, n - 1)
  {
  }

  lemma NoBits(rest: nat)
    ensures Bits(rest, 0) == []
  {
  }

  /** The loop of write_symbol. */
  method Reassemble(arr: array<Bit>) returns (sym: Byte)
    requires arr.Length == BYTE
    ensures sym == Value(arr[..])
  {
    hide Value, Pow2;
    var num: nat, pov2: nat, i: nat := 0, 1, 0;
    NothingYet(arr[..0]);
    while i < BYTE
      invariant i <= BYTE
      invariant pov2 == Pow2(i)
      invariant num == Value(arr[..i])
    {
      OneBitMore(arr[..], i);
      num := num + arr[i] * pov2;
      pov2 := pov2 * 2;
      i := i + 1;
    }
    assert arr[..BYTE] == arr[..];
    FitsByte(arr[..]);
    sym := num % 256;
  }

  /** What eight bits are worth, the least significant first. */
  function Worth(b: seq<Bit>): int
    requires |b| == 8
  {
    b[0] as int + 2 * b[1] as int + 4 * b[2] as int + 8 * b[3] as int
    + 16 * b[4] as int + 32 * b[5] as int + 64 * b[6] as int + 128 * b[7] as int
  }

  lemma EightBitValue(b: seq<Bit>)
    requires |b| == 8
    ensures Value(b) == Worth(b)
  {
    assert Value(b[8..]) == 0;
    DropOne(b, 7);
    DropOne(b, 6);
    DropOne(b, 5);
    DropOne(b, 4);
    DropOne(b, 3);
    DropOne(b, 2);
    DropOne(b, 1);
    DropOne(b, 0);
    assert b[0..] == b;
  }

  lemma DropOne(b: seq<Bit>, i: nat)
    requires i < |b|
    ensures Value(b[i..]) == b[i] as int + 2 * Value(b[i + 1..])
  {
    assert b[i..][1..] == b[i + 1..];
  }

  lemma NothingYet(bits: seq<Bit>)
    requires bits == []
    ensures Value(bits) == 0 && Pow2(0) == 1
  {
  }

  lemma OneBitMore(bits: seq<Bit>, i: nat)
    requires i < |bits|
    ensures Pow2(i + 1) == Pow2(i) * 2
    ensures Value(bits[..i + 1]) == Value(bits[..i]) + bits[i] * Pow2(i)
  {
    ValueConcat(bits[..i], bits[i]);
    assert bits[..i + 1] == bits[..i] + [bits[i]];
  }

  lemma FitsByte(bits: seq<Bit>)
    requires |bits| == BYTE
    ensures Value(bits) < 256
  {
    BitsOfValue(bits);
    assert Pow2(8) == 256;
  }

  // ---------------------------------------------------------------- whole files

  function AllBits(bytes: seq<Byte>): (r: seq<Bit>)
    ensures |r| == BYTE * |bytes|
  {
    if bytes == [] then [] else AllBits(bytes[..|bytes| - 1]) + Bits(bytes[|bytes| - 1], BYTE)
  }

  lemma {:induction false} AllBitsPrefix(bytes: seq<Byte>, m: nat)
    requires m <= |bytes|
    ensures AllBits(bytes)[..BYTE * m] == AllBits(bytes[..m])
  {
    if m < |bytes| {
      var front := bytes[..|bytes| - 1];
      AllBitsPrefix(front, m);
      assert bytes[..m] == front[..m];
    } else {
      assert bytes[..m] == bytes;
    }
  }

  lemma {:induction false} AllBitsInjective(a: seq<Byte>, b: seq<Byte>)
    requires AllBits(a) == AllBits(b)
    ensures a == b
  {
    assert |a| == |b|;
    if a != [] {
      var n := |a| - 1;
      SameParts(AllBits(a[..n]), Bits(a[n], BYTE), AllBits(b[..n]), Bits(b[n], BYTE));
      AllBitsInjective(a[..n], b[..n]);
      assert Pow2(8) == 256;
      ValueOfBits(a[n], BYTE);
      ValueOfBits(b[n], BYTE);
      assert a == a[..n] + [a[n]] && b == b[..n] + [b[n]];
    }
  }

  lemma SameParts(a: seq<Bit>, b: seq<Bit>, c: seq<Bit>, d: seq<Bit>)
    requires a + b == c + d && |a| == |c|
    ensures a == c && b == d
  {
    assert a == (a + b)[..|a|] && b == (a + b)[|a|..];
    assert c == (c + d)[..|a|] && d == (c + d)[|a|..];
  }

  /** A bit stream that follows the source bit by bit yields the source byte by byte. */
  lemma {:induction false} BytesFollowBits(src: seq<Byte>, out: seq<Byte>, arr: seq<Bit>)
    requires |arr| < BYTE
    requires BYTE * |out| + |arr| <= BYTE * |src|
    requires AllBits(out) + arr == AllBits(src)[..BYTE * |out| + |arr|]
    ensures out <= src
  {
    AllBitsPrefix(src, |out|);
    assert AllBits(out) == AllBits(src)[..BYTE * |out|];
    AllBitsInjective(out, src[..|out|]);
  }

  lemma {:induction false} AppendByte(out: seq<Byte>, arr: seq<Bit>)
    requires |arr| == BYTE
    ensures Value(arr) < 256
    ensures AllBits(out + [Value(arr)]) == AllBits(out) + arr
  {
    BitsOfValue(arr);
    assert Pow2(8) == 256;
    assert (out + [Value(arr)])[..|out|] == out;
  }
}
