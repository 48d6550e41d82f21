/** The filter of BizzBuzz/bzbz_file.c: what it means for a file, and what the flags its loop keeps
    know of a word.  A file is a string whose characters are its bytes. */
module BizzBuzz {

  predicate IsSep(c: char) { c == ' ' || c == '\n' || c == '\t' }

  predicate IsDigit(c: char) { '0' <= c <= '9' }

  function DigitOf(c: char): nat
    requires IsDigit(c)
  {
    c as int - '0' as int
  }

  // ---------------------------------------------------------------- meaning

  /** The words of `b`, cut at separators; two separators in a row enclose an empty word. */
  function Words(b: string): (ws: seq<string>)
    ensures |ws| >= 1
  {
    if b == "" then [""]
    else
      var ws, c := Words(b[..|b| - 1]), b[|b| - 1];
      if IsSep(c) then ws + [""] else ws[..|ws| - 1] + [ws[|ws| - 1] + [c]]
  }

  function Seps(b: string): (seps: string)
    ensures |seps| == |Words(b)| - 1
  {
    if b == "" then ""
    else if IsSep(b[|b| - 1]) then Seps(b[..|b| - 1]) + [b[|b| - 1]]
    else Seps(b[..|b| - 1])
  }

  function Join(ws: seq<string>, seps: string): string
    requires |ws| == |seps| + 1
  {
    if seps == "" then ws[0]
    else Join(ws[..|ws| - 1], seps[..|seps| - 1]) + [seps[|seps| - 1]] + ws[|ws| - 1]
  }

  /** A word without its sign. */
  function Body(w: string): string { if w != "" && w[0] == '-' then w[1..] else w }

  predicate AllDigits(d: string) { forall i :: 0 <= i < |d| ==> IsDigit(d[i]) }

  /** An optionally negative decimal number. */
  predicate IsNumber(w: string) { Body(w) != "" && AllDigits(Body(w)) }

  function Magnitude(d: string): nat
    requires AllDigits(d)
  {
    if d == "" then 0 else 10 * Magnitude(d[..|d| - 1]) + DigitOf(d[|d| - 1])
  }

  /** What a word becomes: numbers are judged by divisibility, anything else stays. */
  function Classify(w: string): string {
    if !IsNumber(w) then w
    else
      var v := Magnitude(Body(w));
      if v % 3 == 0 && v % 5 == 0 then "bizzbuzz"
      else if v % 5 == 0 then "buzz"
      else if v % 3 == 0 then "bizz"
      else w
  }

  function ClassifyAll(ws: seq<string>): (r: seq<string>)
    ensures |r| == |ws|
    ensures forall i :: 0 <= i < |ws| ==> r[i] == Classify(ws[i])
  {
    if ws == [] then [] else ClassifyAll(ws[..|ws| - 1]) + [Classify(ws[|ws| - 1])]
  }

  function Render(b: string): string { Join(ClassifyAll(Words(b)), Seps(b)) }

  /** The whole filter; the last byte of the file is never part of a word. */
  function Filtered(src: string): string {
    if src == "" then "\n" else Render(src[..|src| - 1]) + "\n"
  }

  // ---------------------------------------------------------------- scanning one word

  /** C's remainder, which takes the sign of the dividend. */
  function Rem(a: int, b: nat): int
    requires b > 0
  {
    if a >= 0 then a % b else -((-a) % b)
  }

  /** The loop's knowledge of the word it is in. */
  datatype Scan = Scan(negative: bool, isNum: bool, lastIs5: bool, sum: int)

  function Step(sc: Scan, c: char, first: bool): Scan {
    if c == '-' then (if first then sc.(negative := true) else sc.(isNum := false))
    else if !IsDigit(c) then sc.(isNum := false)
    else sc.(lastIs5 := DigitOf(c) % 5 == 0, sum := Rem(sc.sum + DigitOf(c), 3))
  }

  function ScanOf(w: string): Scan {
    if w == "" then Scan(false, true, false, -3)
    else Step(ScanOf(w[..|w| - 1]), w[|w| - 1], |w| == 1)
  }

  function DigitSum(w: string): nat {
    if w == "" then 0
    else DigitSum(w[..|w| - 1]) + if IsDigit(w[|w| - 1]) then DigitOf(w[|w| - 1]) else 0
  }

  predicate NoDigit(w: string) { forall i :: 0 <= i < |w| ==> !IsDigit(w[i]) }

  /** Starting from -3 and keeping C remainders, the sum is -3 exactly while no digit has been
      seen; afterwards it is in -2..2 and congruent to the digit sum. */
  lemma {:induction false} SumTracksDigits(w: string)
    ensures var sum := ScanOf(w).sum;
      && (sum == -3 <==> NoDigit(w))
      && (sum != -3 ==> -2 <= sum <= 2)
      && (sum - DigitSum(w)) % 3 == 0
  {
    if w != "" {
      var f, c := w[..|w| - 1], w[|w| - 1];
      SumTracksDigits(f);
      NoDigitSnoc(w);
      hide NoDigit, IsDigit, DigitOf, Rem;
      if IsDigit(c) {
        SumStep(ScanOf(f).sum, DigitOf(c), DigitSum(f));
      } else {
        assert c == '-' || ScanOf(w).sum == ScanOf(f).sum;
      }
    }
  }

  lemma NoDigitSnoc(w: string)
    requires w != ""
    ensures NoDigit(w) <==> NoDigit(w[..|w| - 1]) && !IsDigit(w[|w| - 1])
    ensures w[|w| - 1] == '-' ==> !IsDigit(w[|w| - 1])
  {
  }

  /** One digit more, under C's remainder. */
  lemma SumStep(sum: int, d: nat, digits: nat)
    requires -3 <= sum <= 2 && d < 10 && (sum - digits) % 3 == 0
    ensures -2 <= Rem(sum + d, 3) <= 2 && (Rem(sum + d, 3) - (digits + d)) % 3 == 0
  {
  }

  lemma {:induction false} ScanTracksShape(w: string)
    ensures var sc := ScanOf(w);
      && sc.negative == (w != "" && w[0] == '-')
      && sc.isNum == AllDigits(Body(w))
      && (sc.isNum && Body(w) != "" ==> sc.lastIs5 == (DigitOf(w[|w| - 1]) % 5 == 0))
      && (Body(w) == "" ==> !sc.lastIs5)
  {
    if w != "" {
      var f := w[..|w| - 1];
      ScanTracksShape(f);
      if |w| > 1 {
        assert Body(w) == Body(f) + [w[|w| - 1]];
      }
    }
  }

  /** Divisibility by 3 is that of the digit sum, divisibility by 5 that of the last digit. */
  lemma {:induction false} MagnitudeMod(d: string)
    requires AllDigits(d)
    ensures (Magnitude(d) - DigitSum(d)) % 3 == 0
    ensures d != "" ==> (Magnitude(d) % 5 == 0 <==> DigitOf(d[|d| - 1]) % 5 == 0)
  {
    if d != "" {
      var f, c := d[..|d| - 1], d[|d| - 1];
      assert IsDigit(c) && AllDigits(f);
      assert Magnitude(d) == 10 * Magnitude(f) + DigitOf(c) && DigitSum(d) == DigitSum(f) + DigitOf(c);
      hide Magnitude, DigitSum, IsDigit, DigitOf;
      MagnitudeMod(f);
      DigitStep(Magnitude(f), DigitSum(f), DigitOf(c));
    }
  }

  lemma DigitStep(m: nat, digits: nat, d: nat)
    requires (m - digits) % 3 == 0
    ensures (10 * m + d - (digits + d)) % 3 == 0
    ensures (10 * m + d) % 5 == 0 <==> d % 5 == 0
  {
    assert 10 * m + d - (digits + d) == 9 * m + (m - digits);
  }

  lemma {:induction false} SignHasNoDigits(w: string)
    ensures DigitSum(w) == DigitSum(Body(w))
  {
    if |w| > 1 && w[0] == '-' {
      SignHasNoDigits(w[..|w| - 1]);
      assert Body(w)[..|Body(w)| - 1] == Body(w[..|w| - 1]);
    } else if |w| == 1 {
      assert w[..0] == "";
    }
  }

  lemma SameResidue(sum: int, digits: nat, v: nat)
    requires -2 <= sum <= 2 && (sum - digits) % 3 == 0 && (v - digits) % 3 == 0
    ensures sum == 0 <==> v % 3 == 0
  {
  }

  /** The flags the loop keeps decide the word: for decimal numbers of any length they say which
      of 3 and 5 divide it, and for everything else that it is not a number. */
  lemma {:induction false} FlagsDecide(w: string)
    ensures var sc := ScanOf(w);
      && (sc.lastIs5 && sc.isNum <==> IsNumber(w) && Magnitude(Body(w)) % 5 == 0)
      && (sc.sum == 0 && sc.isNum <==> IsNumber(w) && Magnitude(Body(w)) % 3 == 0)
  {
    var sc, d := ScanOf(w), Body(w);
    SumTracksDigits(w);
    ScanTracksShape(w);
    if AllDigits(d) {
      if d == "" {
        assert NoDigit(w);
      } else {
        assert d[|d| - 1] == w[|w| - 1] && IsDigit(w[|w| - 1]);
        MagnitudeMod(d);
        SignHasNoDigits(w);
        SameResidue(sc.sum, DigitSum(w), Magnitude(d));
      }
    }
  }
}
