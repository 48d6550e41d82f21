/** What BizzBuzz/bzbz_file.c writes, with the characters that cut and the digits written out: three
    characters cut the file into parts that are filtered each on its own, and this is what becomes of
    a part that none of them cuts. */
module BizzBuzzWords {
  import opened Sequences
  import opened BizzBuzz
  import opened BizzBuzzLoop
  import BizzBuzzWhole

  function Head(b: string): string { Written(b) + SepText(PrevSep(b)) }

  lemma RenderIsHeadPlusWord(b: string)
    ensures Render(b) == Head(b) + Classify(Current(b))
  {
    RenderIsWrittenPlusWord(b);
  }

  lemma HeadAtSep(b: string, c: char)
    requires IsSep(c)
    ensures Head(b + [c]) == Render(b) + [c] && Current(b + [c]) == ""
  {
    WrittenAtSep(b, c);
  }

  lemma HeadInWord(b: string, c: char)
    requires !IsSep(c)
    ensures Head(b + [c]) == Head(b) && Current(b + [c]) == Current(b) + [c]
  {
    WrittenInWord(b, c);
  }

  lemma HeadOfNothing()
    ensures Head("") == "" && Current("") == ""
  {
  }

  /** Behind a separator the parse starts anew. */
  lemma {:induction false} StartsAnew(b: string, c: char, v: string)
    requires IsSep(c)
    ensures Head(b + [c] + v) == Render(b) + [c] + Head(v) && Current(b + [c] + v) == Current(v)
    decreases |v|
  {
    hide Head, Current, Render, IsSep, Classify;
    var start := Render(b) + [c];
    if v == "" {
      HeadAtSep(b, c);
      HeadOfNothing();
      assert b + [c] + v == b + [c] && start + "" == start;
    } else {
      var f, x := v[..|v| - 1], v[|v| - 1];
      StartsAnew(b, c, f);
      SumSnoc(b + [c], f, x);
      assert f + [x] == v;
      if IsSep(x) {
        RenderIsHeadPlusWord(b + [c] + f);
        RenderIsHeadPlusWord(f);
        HeadAtSep(b + [c] + f, x);
        HeadAtSep(f, x);
        Assoc(start, Head(f), Classify(Current(f)));
        SumSnoc(start, Render(f), x);
      } else {
        HeadInWord(b + [c] + f, x);
        HeadInWord(f, x);
      }
    }
  }

  lemma RenderParts(b: string, c: char, v: string)
    requires IsSep(c)
    ensures Render(b + [c] + v) == Render(b) + [c] + Render(v)
  {
    hide Head, Current, Render, IsSep, Classify;
    StartsAnew(b, c, v);
    RenderIsHeadPlusWord(b + [c] + v);
    RenderIsHeadPlusWord(v);
    Assoc(Render(b) + [c], Head(v), Classify(Current(v)));
  }

  /** A blank, a newline or a tab cuts the file: what is in front of it and what is behind come out
      as if each were a file of its own, with the character between them. */
  lemma PartsAreFilteredApart(b: string, c: char, v: string)
    requires c == ' ' || c == '\n' || c == '\t'
    ensures Filtered(b + "\n") != "" && Filtered(b + "\n")[|Filtered(b + "\n")| - 1] == '\n'
    ensures Filtered(b + [c] + v + "\n") ==
      Filtered(b + "\n")[..|Filtered(b + "\n")| - 1] + [c] + Filtered(v + "\n")
  {
    RenderParts(b, c, v);
    hide Render, Filtered;
    FilteredLine(b + [c] + v);
    FilteredLine(b);
    FilteredLine(v);
    Assoc(Render(b) + [c], Render(v), "\n");
    assert (Render(b) + "\n")[..|Render(b)|] == Render(b);
  }

  /** Nothing comes of the last byte, whatever it is, but a newline. */
  lemma LastByteIsDropped(b: string, c: char)
    ensures Filtered("") == "\n" && Filtered(b + [c]) == Filtered(b + "\n")
  {
    assert (b + [c])[..|b|] == b && (b + "\n")[..|b|] == b;
  }

  lemma WordAlone(w: string)
    requires forall i :: 0 <= i < |w| ==> w[i] != ' ' && w[i] != '\n' && w[i] != '\t'
    ensures Filtered(w + "\n") == Classify(w) + "\n"
  {
    BizzBuzzWhole.OneWord(w);
    hide Render, Classify;
    FilteredLine(w);
  }

  /** A number of any length, negative or not, on a line of its own: what comes out depends on which
      of 3 and 5 divide it. */
  lemma NumbersComeOutAs(sign: string, d: string)
    requires sign == "" || sign == "-"
    requires d != "" && forall i :: 0 <= i < |d| ==> '0' <= d[i] <= '9'
    ensures Magnitude(d) % 15 == 0 ==> Filtered(sign + d + "\n") == "bizzbuzz" + "\n"
    ensures Magnitude(d) % 3 == 0 && Magnitude(d) % 5 != 0 ==> Filtered(sign + d + "\n") == "bizz" + "\n"
    ensures Magnitude(d) % 5 == 0 && Magnitude(d) % 3 != 0 ==> Filtered(sign + d + "\n") == "buzz" + "\n"
    ensures Magnitude(d) % 3 != 0 && Magnitude(d) % 5 != 0 ==> Filtered(sign + d + "\n") == sign + d + "\n"
  {
    var w := sign + d;
    Judged(sign, d);
    HoldsNoneOfThree(sign, d);
    hide Magnitude, Filtered, Classify;
    WordAlone(w);
    Fifteen(Magnitude(d));
  }

  lemma HoldsNoneOfThree(sign: string, d: string)
    requires sign == "" || sign == "-"
    requires forall i :: 0 <= i < |d| ==> '0' <= d[i] <= '9'
    ensures forall i :: 0 <= i < |sign + d| ==>
      (sign + d)[i] != ' ' && (sign + d)[i] != '\n' && (sign + d)[i] != '\t'
  {
    forall i | 0 <= i < |sign + d| ensures (sign + d)[i] == '-' || '0' <= (sign + d)[i] <= '9' {
      assert i >= |sign| ==> (sign + d)[i] == d[i - |sign|];
    }
  }

  lemma Judged(sign: string, d: string)
    requires sign == "" || sign == "-"
    requires d != "" && forall i :: 0 <= i < |d| ==> '0' <= d[i] <= '9'
    ensures var m, w := Magnitude(d), sign + d;
      Classify(w) == if m % 3 == 0 && m % 5 == 0 then "bizzbuzz"
                     else if m % 3 == 0 then "bizz" else if m % 5 == 0 then "buzz" else w
  {
    hide Magnitude;
    BodyIs(sign, d);
  }

  lemma BodyIs(sign: string, d: string)
    requires sign == "" || sign == "-"
    requires d != "" && d[0] != '-'
    ensures Body(sign + d) == d
  {
    assert sign == "" ==> sign + d == d;
    assert sign == "-" ==> (sign + d)[1..] == d;
  }

  lemma Fifteen(v: nat)
    ensures v % 15 == 0 <==> v % 3 == 0 && v % 5 == 0
  {
  }

  /** The number a row of digits stands for. */
  lemma MagnitudeReads(d: string, c: char)
    requires (forall i :: 0 <= i < |d| ==> '0' <= d[i] <= '9') && '0' <= c <= '9'
    ensures AllDigits("") && Magnitude("") == 0
    ensures AllDigits(d) && AllDigits(d + [c]) && Magnitude(d + [c]) == 10 * Magnitude(d) + (c as int - 48)
  {
    assert (d + [c])[..|d|] == d;
  }

  /** Anything else that none of the three characters cuts stays as it is: a lone sign, and whatever
      holds a byte that is no digit behind its first sign. */
  lemma OthersStay(w: string)
    requires forall i :: 0 <= i < |w| ==> w[i] != ' ' && w[i] != '\n' && w[i] != '\t'
    requires var d := if w != "" && w[0] == '-' then w[1..] else w;
      d == "" || exists i :: 0 <= i < |d| && !('0' <= d[i] <= '9')
    ensures Filtered(w + "\n") == w + "\n"
  {
    WordAlone(w);
  }
}
