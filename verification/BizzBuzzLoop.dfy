/** The one-pass loop of BizzBuzz/bzbz_file.c, with its seeking cursor, against the meaning of the
    filter; and what filtering twice does. */
module BizzBuzzLoop {
  import opened Sequences
  import opened BizzBuzz

  function Last(ws: seq<string>): string
    requires |ws| >= 1
  {
    ws[|ws| - 1]
  }

  /** The word the loop is in after reading `b`. */
  function Current(b: string): string { Last(Words(b)) }

  /** The separator in front of that word; '0' stands for none. */
  function PrevSep(b: string): char {
    if Seps(b) == "" then '0' else Seps(b)[|Seps(b)| - 1]
  }

  /** What has been written when the loop is inside the last word of `b`. */
  function Written(b: string): string {
    if Seps(b) == "" then ""
    else Join(ClassifyAll(Words(b)[..|Words(b)| - 1]), Seps(b)[..|Seps(b)| - 1])
  }

  function SepText(c: char): string { if c != '0' then [c] else "" }

  lemma {:induction false} SepsAreSeps(b: string)
    ensures forall i :: 0 <= i < |Seps(b)| ==> IsSep(Seps(b)[i])
  {
    if b != "" {
      SepsAreSeps(b[..|b| - 1]);
    }
  }

  predicate NoSep(w: string) { forall j :: 0 <= j < |w| ==> !IsSep(w[j]) }

  /** The words lie between separators. */
  lemma {:induction false} WordsHoldNoSep(b: string)
    ensures forall i :: 0 <= i < |Words(b)| ==> NoSep(Words(b)[i])
  {
    if b != "" {
      WordsHoldNoSep(b[..|b| - 1]);
      assert NoSep(Current(b[..|b| - 1]));
    }
  }

  lemma {:induction false} ClassifyAllSnoc(ws: seq<string>, w: string)
    ensures ClassifyAll(ws + [w]) == ClassifyAll(ws) + [Classify(w)]
  {
    assert (ws + [w])[..|ws|] == ws;
  }

  /** Finishing the current word completes the rendering. */
  lemma {:induction false} RenderIsWrittenPlusWord(b: string)
    ensures Render(b) == Written(b) + SepText(PrevSep(b)) + Classify(Current(b))
  {
    var ws, k := Words(b), |Words(b)|;
    SepsAreSeps(b);
    assert ws == ws[..k - 1] + [Last(ws)];
    ClassifyAllSnoc(ws[..k - 1], Last(ws));
    assert ClassifyAll(ws)[..k - 1] == ClassifyAll(ws[..k - 1]);
    if Seps(b) != "" {
      assert IsSep(Seps(b)[|Seps(b)| - 1]);
    }
  }

  lemma WordsSnoc(b: string, c: char)
    requires !IsSep(c)
    ensures Words(b + [c]) == Words(b)[..|Words(b)| - 1] + [Current(b) + [c]]
    ensures Seps(b + [c]) == Seps(b)
  {
    assert (b + [c])[..|b|] == b;
  }

  lemma ReplaceLast(front: seq<string>, w: string)
    ensures (front + [w])[..|front|] == front && Last(front + [w]) == w
  {
  }

  lemma CutAtSep(b: string, c: char)
    requires IsSep(c)
    ensures Words(b + [c]) == Words(b) + [""] && Seps(b + [c]) == Seps(b) + [c]
  {
    assert (b + [c])[..|b|] == b;
  }

  /** Passing a separator: what was rendered so far is what is now written. */
  lemma {:induction false} WrittenAtSep(b: string, c: char)
    requires IsSep(c)
    ensures Written(b + [c]) == Render(b) && PrevSep(b + [c]) == c && Current(b + [c]) == ""
  {
    CutAtSep(b, c);
    hide Words, Seps, Join, ClassifyAll, IsSep;
    var ws, seps := Words(b), Seps(b);
    assert (ws + [""])[..|ws|] == ws && (seps + [c])[..|seps|] == seps;
  }

  lemma {:induction false} WrittenInWord(b: string, c: char)
    requires !IsSep(c)
    ensures Written(b + [c]) == Written(b) && PrevSep(b + [c]) == PrevSep(b)
    ensures Current(b + [c]) == Current(b) + [c]
  {
    WordsSnoc(b, c);
    hide Words, Seps, Join, ClassifyAll, IsSep;
    ReplaceLast(Words(b)[..|Words(b)| - 1], Current(b) + [c]);
  }

  lemma {:induction false} ScanSnoc(w: string, c: char)
    ensures ScanOf(w + [c]) == Step(ScanOf(w), c, w == "")
  {
    assert (w + [c])[..|w|] == w;
  }

  /** The same, gathered byte by byte as the loop does. */
  datatype Progress = Progress(written: string, prevSep: char, word: string)

  function Completed(p: Progress): string { p.written + SepText(p.prevSep) + Classify(p.word) }

  function Advance(p: Progress, c: char): Progress {
    if IsSep(c) then Progress(Completed(p), c, "") else p.(word := p.word + [c])
  }

  function ProgressOf(b: string): Progress {
    if b == "" then Progress("", '0', "") else Advance(ProgressOf(b[..|b| - 1]), b[|b| - 1])
  }

  lemma {:induction false} ProgressIsParsing(b: string)
    ensures ProgressOf(b) == Progress(Written(b), PrevSep(b), Current(b))
  {
    if b != "" {
      var f, c := b[..|b| - 1], b[|b| - 1];
      assert f + [c] == b;
      ProgressIsParsing(f);
      if IsSep(c) {
        CompletedIsRender(f, ProgressOf(f));
        WrittenAtSep(f, c);
      } else {
        WrittenInWord(f, c);
      }
    }
  }

  lemma CompletedIsRender(b: string, p: Progress)
    requires p == Progress(Written(b), PrevSep(b), Current(b))
    ensures Completed(p) == Render(b)
  {
    RenderIsWrittenPlusWord(b);
  }

  /** What is written for a word with these flags, `text` being the word without its sign. */
  function WordText(sc: Scan, text: string): string {
    if sc.lastIs5 && sc.sum == 0 && sc.isNum then "bizzbuzz"
    else if sc.lastIs5 && sc.isNum then "buzz"
    else if sc.sum == 0 && sc.isNum then "bizz"
    else (if sc.negative then "-" else "") + text
  }

  lemma Decision(w: string)
    ensures Classify(w) == WordText(ScanOf(w), Body(w))
    ensures ScanOf(w).negative <==> w != "" && w[0] == '-'
  {
    FlagsDecide(w);
    ScanTracksShape(w);
  }

  /** The loop stands before byte `i`, inside the word `w`. */
  predicate Inside(src: string, i: nat, w: string, p: Progress, sc: Scan, prevOff: int) {
    && |w| <= i <= |src|
    && p == ProgressOf(src[..i]) && p.word == w == src[i - |w|..i]
    && (w == "" <==> i == 0 || IsSep(src[i - 1]))
    && sc == ScanOf(w)
    && prevOff == i - |w| + if sc.negative then 1 else 0
  }

  /** Writing the current word, by name or by re-reading it from `prevOff`, completes the rendering
      of everything before byte `i`. */
  lemma EndOfWord(src: string, i: nat, w: string, p: Progress, sc: Scan, prevOff: int)
    requires Inside(src, i, w, p, sc, prevOff)
    ensures 0 <= prevOff <= i
    ensures p.written + SepText(p.prevSep) + WordText(sc, src[prevOff..i]) == Completed(p) == Render(src[..i])
  {
    Decision(w);
    assert src[prevOff..i] == Body(w);
    ProgressIsParsing(src[..i]);
    CompletedIsRender(src[..i], p);
  }

  lemma PassSep(src: string, i: nat, w: string, p: Progress, sc: Scan, prevOff: int)
    requires Inside(src, i, w, p, sc, prevOff) && i < |src| && IsSep(src[i])
    ensures Inside(src, i + 1, "", Progress(Completed(p), src[i], ""), Scan(false, true, false, -3), i + 1)
  {
    hide Completed;
    ProgressSnoc(src, i);
    assert src[i + 1..i + 1] == "";
  }

  lemma ProgressSnoc(src: string, i: nat)
    requires i < |src|
    ensures ProgressOf(src[..i + 1]) == Advance(ProgressOf(src[..i]), src[i])
  {
    hide Advance;
    assert src[..i + 1][..i] == src[..i];
  }

  lemma PassByte(src: string, i: nat, w: string, p: Progress, sc: Scan, prevOff: int)
    requires Inside(src, i, w, p, sc, prevOff) && i < |src| && !IsSep(src[i])
    ensures w == "" <==> i == 0 || IsSep(src[i - 1])
    ensures Inside(src, i + 1, w + [src[i]], p.(word := w + [src[i]]), Step(sc, src[i], w == ""),
                   if w == "" && src[i] == '-' then prevOff + 1 else prevOff)
  {
    hide Completed, ScanOf, ProgressOf, Step, IsSep;
    ProgressSnoc(src, i);
    assert w + [src[i]] == src[i - |w|..i + 1];
    ScanSnoc(w, src[i]);
    SignStays(w, src[i]);
  }

  lemma SignStays(w: string, c: char)
    ensures Step(ScanOf(w), c, w == "").negative == if w == "" then c == '-' else ScanOf(w).negative
    ensures w == "" ==> !ScanOf(w).negative
  {
    ScanTracksShape(w);
  }

  lemma Begin(src: string)
    ensures Inside(src, 0, "", Progress("", '0', ""), Scan(false, true, false, -3), 0)
    ensures src == "" ==> Filtered(src) == "\n"
  {
    assert src[..0] == "";
  }

  lemma End(src: string, out: string)
    requires src != "" && out == Render(src[..|src| - 1])
    ensures out + "\n" == Filtered(src)
  {
  }

  /** The loop of main, lines 50 to 141.  `pos` is the offset of the source descriptor. */
  method Filter(src: string) returns (out: string)
    ensures out == Filtered(src)
  {
    hide Inside, Render, Filtered, Completed, WordText, SepText, Step;
    Begin(src);
    out := "";
    var temp: char := *;
    var pos, i, prevOff, sum := 0, 0, 0, -3;
    var lastIs5, isNum, negative, prevSep := false, true, false, '0';
    ghost var w := "";
    while i < |src|
      invariant 0 <= i <= |src| && pos == i
      invariant i > 0 ==> temp == src[i - 1]
      invariant src == "" ==> out == ""
      invariant i < |src| ==>
        Inside(src, i, w, Progress(out, prevSep, w), Scan(negative, isNum, lastIs5, sum), prevOff)
      invariant i == |src| > 0 ==> out == Render(src[..|src| - 1])
    {
      ghost var p, sc := Progress(out, prevSep, w), Scan(negative, isNum, lastIs5, sum);
      var prevSymbol := temp;
      temp := src[pos];
      pos := pos + 1;
      if temp == ' ' || i == |src| - 1 || temp == '\n' || temp == '\t' {
        EndOfWord(src, i, w, p, sc, prevOff);
        temp, pos, out := WriteWord(src, i, prevOff, out, prevSep, negative, isNum, lastIs5, sum);
        if IsSep(src[i]) {
          PassSep(src, i, w, p, sc, prevOff);
        }
        prevOff := i + 1;
        lastIs5, sum, isNum, negative := false, -3, true, false;
        prevSep := temp;
        w := "";
      } else {
        PassByte(src, i, w, p, sc, prevOff);
        negative, isNum, lastIs5, sum, prevOff :=
          ScanByte(temp, prevSymbol, i, negative, isNum, lastIs5, sum, prevOff);
        w := w + [temp];
      }
      i := i + 1;
    }
    if src != "" {
      End(src, out);
    }
    out := out + "\n";
  }

  /** Lines 116 to 137: one byte of a word, `prevSymbol` being the byte read before it. */
  method ScanByte(temp: char, prevSymbol: char, i: nat,
                  negative: bool, isNum: bool, lastIs5: bool, sum: int, prevOff: int)
    returns (negative': bool, isNum': bool, lastIs5': bool, sum': int, prevOff': int)
    ensures var first := i == 0 || IsSep(prevSymbol);
      && Scan(negative', isNum', lastIs5', sum') == Step(Scan(negative, isNum, lastIs5, sum), temp, first)
      && prevOff' == if first && temp == '-' then prevOff + 1 else prevOff
  {
    negative', isNum', lastIs5', sum', prevOff' := negative, isNum, lastIs5, sum, prevOff;
    var number := temp as int - 48;
    if temp == '-' {
      if prevSymbol == ' ' || i == 0 || prevSymbol == '\n' || prevSymbol == '\t' {
        negative' := true;
        prevOff' := prevOff + 1;
      } else {
        isNum' := false;
      }
    } else if number < 0 || number > 9 {
      isNum' := false;
    } else {
      lastIs5' := number % 5 == 0;
      sum' := Rem(sum + number, 3);
    }
  }

  /** Lines 73 to 105: the word before byte `i` is written, by name or by seeking back to it, and
      the cursor ends up behind byte `i` again. */
  method WriteWord(src: string, i: nat, prevOff: nat, before: string, prevSep: char,
                   negative: bool, isNum: bool, lastIs5: bool, sum: int)
    returns (temp: char, pos: nat, out: string)
    requires prevOff <= i < |src|
    ensures temp == src[i] && pos == i + 1
    ensures out == before + SepText(prevSep) + WordText(Scan(negative, isNum, lastIs5, sum), src[prevOff..i])
  {
    temp, pos, out := src[i], i + 1, before;
    ghost var start, sign := before + SepText(prevSep), if negative then "-" else "";
    if lastIs5 && sum == 0 && isNum {
      if prevSep != '0' { out := out + [prevSep]; }
      assert out == start;
      out := out + "bizzbuzz";
    } else if lastIs5 && isNum {
      if prevSep != '0' { out := out + [prevSep]; }
      assert out == start;
      out := out + "buzz";
    } else if sum == 0 && isNum {
      if prevSep != '0' { out := out + [prevSep]; }
      assert out == start;
      out := out + "bizz";
    } else {
      pos := prevOff;
      if prevSep != '0' { out := out + [prevSep]; }
      if negative { out := out + "-"; }
      assert out == start + sign;
      temp, pos, out := Copy(src, pos, i - prevOff, temp, out);
      Assoc(start, sign, src[prevOff..i]);
      temp := src[pos];
      pos := pos + 1;
    }
  }

  /** The inner loop: re-reads `n` bytes from `from` and writes them out. */
  method Copy(src: string, from: nat, n: nat, last: char, before: string)
    returns (temp: char, pos: nat, out: string)
    requires from + n <= |src|
    ensures pos == from + n && out == before + src[from..from + n]
    ensures temp == if n == 0 then last else src[from + n - 1]
  {
    temp, pos, out := last, from, before;
    for j := 0 to n
      invariant pos == from + j && out == before + src[from..from + j]
      invariant temp == if j == 0 then last else src[from + j - 1]
    {
      temp := src[pos];
      pos := pos + 1;
      out := out + [temp];
    }
  }

  // ---------------------------------------------------------------- filtering twice

  /** A word added after some text extends its last word and cuts nothing. */
  lemma {:induction false} WordsAppend(b: string, w: string)
    requires NoSep(w)
    ensures Words(b + w) == Words(b)[..|Words(b)| - 1] + [Current(b) + w]
    ensures Seps(b + w) == Seps(b)
    decreases |w|
  {
    hide Words, Seps, IsSep;
    var front := Words(b)[..|Words(b)| - 1];
    if w == "" {
      assert b + w == b;
      assert Current(b) + w == Current(b);
    } else {
      var f, c := w[..|w| - 1], w[|w| - 1];
      WordsAppend(b, f);
      WordsSnoc(b + f, c);
      ReplaceLast(front, Current(b) + f);
      SumSnoc(b, f, c);
      SumSnoc(Current(b), f, c);
      assert f + [c] == w;
    }
  }

  lemma SumSnoc(a: string, f: string, c: char)
    ensures (a + f) + [c] == a + (f + [c])
  {
  }

  /** Cutting what was joined gives the words and separators back. */
  lemma {:induction false} SplitOfJoin(ws: seq<string>, seps: string)
    requires |ws| == |seps| + 1
    requires forall i :: 0 <= i < |ws| ==> NoSep(ws[i])
    requires forall i :: 0 <= i < |seps| ==> IsSep(seps[i])
    ensures Words(Join(ws, seps)) == ws && Seps(Join(ws, seps)) == seps
    decreases |seps|
  {
    hide Words, Seps, Join, IsSep;
    var k := |seps|;
    if k == 0 {
      OnlyWord(ws[0]);
      assert ws == [ws[0]];
    } else {
      var head, c := Join(ws[..k], seps[..k - 1]), seps[k - 1];
      SplitOfJoin(ws[..k], seps[..k - 1]);
      CutAtSep(head, c);
      WordsAppend(head + [c], ws[k]);
      JoinSplits(ws, seps);
      ReplaceLast(ws[..k], "");
      assert "" + ws[k] == ws[k] && ws == ws[..k] + [ws[k]] && seps == seps[..k - 1] + [c];
    }
  }

  lemma OnlyWord(w: string)
    requires NoSep(w)
    ensures Words(w) == [w] && Seps(w) == "" && Join([w], "") == w
  {
    WordsAppend("", w);
    assert "" + w == w;
  }

  lemma JoinSplits(ws: seq<string>, seps: string)
    requires |ws| == |seps| + 1 > 1
    ensures Join(ws, seps) == Join(ws[..|seps|], seps[..|seps| - 1]) + [seps[|seps| - 1]] + ws[|seps|]
  {
  }

  lemma JoinSnoc(ws: seq<string>, seps: string, c: char)
    requires |ws| == |seps| + 1
    ensures Join(ws + [""], seps + [c]) == Join(ws, seps) + [c]
    ensures Join(ws[..|ws| - 1] + [Last(ws) + [c]], seps) == Join(ws, seps) + [c]
  {
    assert (ws + [""])[..|ws|] == ws && (seps + [c])[..|seps|] == seps;
    var longer := ws[..|ws| - 1] + [Last(ws) + [c]];
    assert longer[..|longer| - 1] == ws[..|ws| - 1];
    if seps != "" {
      var head := Join(ws[..|ws| - 1], seps[..|seps| - 1]) + [seps[|seps| - 1]];
      SumSnoc(head, Last(ws), c);
    }
  }

  lemma JoinOneMore(f: string, c: char)
    requires Join(Words(f), Seps(f)) == f
    ensures Join(Words(f + [c]), Seps(f + [c])) == f + [c]
  {
    hide Words, Seps, Join, IsSep;
    JoinSnoc(Words(f), Seps(f), c);
    if IsSep(c) {
      CutAtSep(f, c);
    } else {
      WordsSnoc(f, c);
    }
  }

  lemma AllButLast(b: string)
    requires b != ""
    ensures b[..|b| - 1] + [b[|b| - 1]] == b
  {
  }

  /** Joining what was cut gives the text back. */
  lemma {:induction false} JoinOfSplit(b: string)
    ensures Join(Words(b), Seps(b)) == b
    decreases |b|
  {
    hide Words, Seps, Join, NoSep;
    if b == "" {
      assert NoSep("") by { EmptyHasNoSep(); }
      OnlyWord("");
    } else {
      AllButLast(b);
      JoinOfSplit(b[..|b| - 1]);
      JoinOneMore(b[..|b| - 1], b[|b| - 1]);
    }
  }

  lemma EmptyHasNoSep()
    ensures NoSep("")
  {
  }

  lemma NamesAreNoNumbers(name: string)
    requires name == "bizzbuzz" || name == "buzz" || name == "bizz"
    ensures !IsNumber(name) && NoSep(name)
  {
    assert !IsDigit(name[0]) && Body(name) == name;
  }

  lemma {:induction false} ClassifyIsStable(w: string)
    requires NoSep(w)
    ensures Classify(Classify(w)) == Classify(w)
    ensures NoSep(Classify(w))
  {
    hide IsNumber, Magnitude, Body, NoSep;
    if Classify(w) != w {
      NamesAreNoNumbers(Classify(w));
    }
  }

  lemma {:induction false} StableWords(ws: seq<string>)
    requires forall i :: 0 <= i < |ws| ==> NoSep(ws[i])
    ensures ClassifyAll(ClassifyAll(ws)) == ClassifyAll(ws)
    ensures forall i :: 0 <= i < |ws| ==> NoSep(ClassifyAll(ws)[i])
  {
    if ws != [] {
      var f, w := ws[..|ws| - 1], ws[|ws| - 1];
      StableWords(f);
      ClassifyIsStable(w);
      ClassifyAllSnoc(ClassifyAll(f), Classify(w));
    }
  }

  lemma RenderTwice(b: string)
    ensures Render(Render(b)) == Render(b)
  {
    WordsHoldNoSep(b);
    SepsAreSeps(b);
    StableWords(Words(b));
    SplitOfJoin(ClassifyAll(Words(b)), Seps(b));
  }

  lemma FilteredLine(b: string)
    ensures Filtered(b + "\n") == Render(b) + "\n"
  {
    assert (b + "\n")[..|b|] == b;
  }

  lemma RenderNothing()
    ensures Render("") == ""
  {
    assert Words("") == [""] && Classify("") == "";
    assert ClassifyAll([""]) == [""];
  }

  /** Filtering a filtered file changes nothing. */
  lemma Idempotent(src: string)
    ensures Filtered(Filtered(src)) == Filtered(src)
  {
    if src == "" {
      RenderNothing();
      FilteredLine("");
      assert "" + "\n" == "\n";
    } else {
      var b := src[..|src| - 1];
      RenderTwice(b);
      FilteredLine(Render(b));
    }
  }
}
