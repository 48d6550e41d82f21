/** When BizzBuzz/bzbz_file.c judges every word of a file: the loop takes the last byte for the end
    of the file, whatever it is. */
module BizzBuzzWhole {
  import opened BizzBuzz
  import opened BizzBuzzLoop

  lemma RenderAtSep(b: string, c: char)
    requires IsSep(c)
    ensures Render(b + [c]) == Render(b) + [c]
  {
    RenderIsWrittenPlusWord(b + [c]);
    WrittenAtSep(b, c);
    assert Classify("") == "";
  }

  /** A file that ends inside a word is rendered with no separator at its end. */
  lemma RenderEndsInWord(b: string, c: char)
    requires !IsSep(c)
    ensures var r := Render(b + [c]); r != "" && !IsSep(r[|r| - 1])
  {
    var src := b + [c];
    var w, start := Current(src), Written(src) + SepText(PrevSep(src));
    LastWord(b, c);
    RenderIsWrittenPlusWord(src);
    hide Render, Written, PrevSep, Current, SepText, Classify, IsSep;
    ClassifyKeepsWords(w);
    assert Render(src) == start + Classify(w);
    LastOfSum(start, Classify(w));
  }

  lemma LastOfSum(a: string, b: string)
    requires b != ""
    ensures a + b != "" && (a + b)[|a + b| - 1] == b[|b| - 1]
  {
  }

  lemma LastWord(b: string, c: char)
    requires !IsSep(c)
    ensures NoSep(Current(b + [c])) && Current(b + [c]) != ""
  {
    WrittenInWord(b, c);
    WordsHoldNoSep(b + [c]);
  }

  lemma ClassifyKeepsWords(w: string)
    requires NoSep(w) && w != ""
    ensures NoSep(Classify(w)) && Classify(w) != ""
  {
  }

  /** The output is the whole file rendered, every word of it judged, exactly when the file ends in
      a newline. */
  lemma WholeFileExactly(src: string)
    ensures Filtered(src) == Render(src) <==> src != "" && src[|src| - 1] == '\n'
  {
    if src == "" {
      RenderNothing();
    } else {
      var b, c := src[..|src| - 1], src[|src| - 1];
      assert src == b + [c];
      if IsSep(c) {
        RenderAtSep(b, c);
        hide Render;
        assert Filtered(src) == Render(b) + "\n";
        assert (Render(b) + "\n")[|Render(b)|] == '\n' && (Render(b) + [c])[|Render(b)|] == c;
      } else {
        RenderEndsInWord(b, c);
      }
    }
  }

  lemma DigitsHoldNoSep(d: string)
    requires AllDigits(d)
    ensures NoSep(d)
  {
  }

  /** A file of any digits that ends in one loses it, and is judged by the digits before it. */
  lemma LastDigitIsLost(d: string, c: char)
    requires AllDigits(d) && IsDigit(c)
    ensures Filtered(d + [c]) == Classify(d) + "\n"
    ensures Render(d + [c]) == Classify(d + [c])
  {
    assert AllDigits(d + [c]);
    DigitsHoldNoSep(d);
    DigitsHoldNoSep(d + [c]);
    hide Render, Classify, IsDigit, AllDigits, NoSep;
    OneWord(d);
    OneWord(d + [c]);
    assert (d + [c])[..|d|] == d;
  }

  lemma OneWord(w: string)
    requires NoSep(w)
    ensures Render(w) == Classify(w)
  {
    SplitOfJoin([w], "");
    assert Join([w], "") == w;
    assert ClassifyAll([w]) == [Classify(w)];
  }

  /** "15" should come out as bizzbuzz, and comes out as 1. */
  lemma FifteenIsNotJudged()
    ensures Filtered("15") == "1\n" && Render("15") == "bizzbuzz"
    ensures Filtered("15\n") == "bizzbuzz\n" == Render("15\n")
  {
    NumbersJudged();
    hide Filtered, Render, Classify, IsSep;
    LastDigitIsLost("1", '5');
    assert "1" + ['5'] == "15" && "15" + ['\n'] == "15\n";
    NewlineEnds("15");
  }

  lemma NumbersJudged()
    ensures AllDigits("1") && AllDigits("15") && Classify("1") == "1" && Classify("15") == "bizzbuzz"
  {
    assert "15"[..1] == "1" && "1"[..0] == "";
    assert Magnitude("1") == 1 && Magnitude("15") == 15;
  }

  lemma NewlineEnds(b: string)
    ensures Filtered(b + "\n") == Render(b + "\n") == Render(b) + "\n"
  {
    FilteredLine(b);
    RenderAtSep(b, '\n');
    assert b + ['\n'] == b + "\n";
  }
}
