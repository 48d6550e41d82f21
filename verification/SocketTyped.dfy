/** What becomes of everything typed at a client: fgets cuts a long line into pieces, and main of
    Socket/client.c sends each of them as a request of its own. */
module SocketTyped {
  import opened Sequences
  import opened SocketCommands
  import opened SocketFrame
  import opened SocketClient

  /** Everything typed, as fgets cuts it. */
  function Pieces(input: seq<Byte>): seq<seq<Byte>> {
    if input == [] then [] else [input[..Taken(input)]] + Pieces(input[Taken(input)..])
  }

  lemma NextPiece(input: seq<Byte>)
    requires input != []
    ensures Pieces(input) == [input[..Taken(input)]] + Pieces(input[Taken(input)..])
    ensures Pieces(input)[1..] == Pieces(input[Taken(input)..])
  {
    hide Taken;
  }

  function Concat(texts: seq<seq<Byte>>): seq<Byte> {
    if texts == [] then [] else texts[0] + Concat(texts[1..])
  }

  function ArrivedAll(texts: seq<seq<Byte>>): seq<Byte> {
    if texts == [] then [] else Arrived(texts[0]) + ArrivedAll(texts[1..])
  }

  /** Cutting loses nothing and invents nothing, and every piece fits a frame. */
  lemma {:induction false} PiecesMakeInput(input: seq<Byte>)
    ensures Concat(Pieces(input)) == input
    ensures forall k :: 0 <= k < |Pieces(input)| ==> 0 < |Pieces(input)[k]| <= LINESZ
    decreases |input|
  {
    hide Taken;
    if input != [] {
      var n := Taken(input);
      PiecesMakeInput(input[n..]);
      NextPiece(input);
      assert input[..n] + input[n..] == input;
      forall k | 0 <= k < |Pieces(input)| ensures 0 < |Pieces(input)[k]| <= LINESZ {
        assert k > 0 ==> Pieces(input)[k] == Pieces(input[n..])[k - 1];
      }
    }
  }

  lemma ArrivedIsNoLonger(piece: seq<Byte>)
    ensures |Arrived(piece)| <= |piece|
  {
    assert |Arrived(piece)| <= |Kept(piece)| <= |CStr(piece)| <= |piece|;
  }

  /** Whatever is typed, however long its lines: the pieces arrive, one after the other, as exactly what
      was typed if and only if no byte of it is 0 or 0xAA; and never as more. */
  lemma {:induction false} TypedArrivesExactly(input: seq<Byte>)
    ensures |ArrivedAll(Pieces(input))| <= |input|
    ensures ArrivedAll(Pieces(input)) == input <==> 0 !in input && CR_MASK !in input
    decreases |input|
  {
    hide Taken, Arrived;
    if input != [] {
      var n := Taken(input);
      var piece, rest := input[..n], input[n..];
      TypedArrivesExactly(rest);
      ArrivesWholeExactly(piece);
      ArrivedIsNoLonger(piece);
      NextPiece(input);
      assert piece + rest == input;
      PartsAgree(Arrived(piece), ArrivedAll(Pieces(rest)), piece, rest);
      assert forall b :: b in input <==> b in piece || b in rest;
    }
  }

  // ---------------------------------------------------------------- lines

  /** The first stretch of a text that one call can take. */
  function First(text: seq<Byte>): seq<Byte> { if |text| <= LINESZ then text else text[..LINESZ] }

  /** A line: a newline at its end, or none if the input ends first. */
  predicate OneLine(line: seq<Byte>) { line != [] && NEWLINE !in line[..|line| - 1] }

  predicate Ended(line: seq<Byte>) { OneLine(line) && line[|line| - 1] == NEWLINE }

  lemma RestOfLine(line: seq<Byte>, n: nat)
    requires OneLine(line) && n < |line|
    ensures OneLine(line[n..]) && (Ended(line) ==> Ended(line[n..]))
  {
    assert line[n..][..|line| - n - 1] == line[..|line| - 1][n..];
  }

  lemma LineTaken(line: seq<Byte>)
    requires OneLine(line)
    ensures Taken(line) == |First(line)|
  {
    var n := |First(line)|;
    assert line[..n - 1] == line[..|line| - 1][..n - 1];
    TakenIs(line, n);
  }

  lemma EndedLineTaken(line: seq<Byte>, more: seq<Byte>)
    requires Ended(line)
    ensures Taken(line + more) == |First(line)|
  {
    var n := |First(line)|;
    assert (line + more)[..n - 1] == line[..|line| - 1][..n - 1];
    assert n == |line| ==> (line + more)[n - 1] == NEWLINE;
    TakenIs(line + more, n);
  }

  lemma FirstIs(text: seq<Byte>)
    ensures |First(text)| == (if |text| <= LINESZ then |text| else LINESZ) && text[..|First(text)|] == First(text)
  {
  }

  lemma LinePieces(line: seq<Byte>)
    requires OneLine(line)
    ensures Pieces(line) == [First(line)] + Pieces(line[|First(line)|..])
  {
    LineTaken(line);
    FirstIs(line);
    NextPiece(line);
    hide Taken, Pieces, First;
  }

  lemma EndedLinePieces(line: seq<Byte>, more: seq<Byte>)
    requires Ended(line)
    ensures Pieces(line + more) == [First(line)] + Pieces(line[|First(line)|..] + more)
  {
    EndedLineTaken(line, more);
    FirstIs(line);
    hide Taken, Pieces, First, Ended;
    NextPiece(line + more);
    SumFrom(line, more, |First(line)|);
  }

  lemma PiecesOfNothing(rest: seq<Byte>, more: seq<Byte>)
    requires rest == []
    ensures Pieces(rest + more) == Pieces(rest) + Pieces(more)
  {
    assert rest + more == more;
  }

  /** A newline ends a piece: what is typed after it is cut as though typed on its own. */
  lemma {:induction false} LinesAreCutApart(line: seq<Byte>, more: seq<Byte>)
    requires Ended(line)
    ensures Pieces(line + more) == Pieces(line) + Pieces(more)
    decreases |line|
  {
    var n := |First(line)|;
    assert OneLine(line);
    hide Taken, Ended, OneLine, Pieces, First;
    LinePieces(line);
    EndedLinePieces(line, more);
    FirstIs(line);
    if n < |line| {
      RestOfLine(line, n);
      LinesAreCutApart(line[n..], more);
    } else {
      PiecesOfNothing(line[n..], more);
    }
    Assoc([First(line)], Pieces(line[n..]), Pieces(more));
  }

  /** The pieces of a line are its stretches of 245 bytes, the last one shorter. */
  lemma {:induction false} PieceOfLine(line: seq<Byte>, k: nat)
    requires OneLine(line) && LINESZ * k < |line|
    ensures k < |Pieces(line)| && Pieces(line)[k] == First(line[LINESZ * k..])
    decreases k
  {
    hide Taken, OneLine, Pieces, First;
    LinePieces(line);
    FirstIs(line);
    if k == 0 {
      assert line[0..] == line;
    } else {
      RestOfLine(line, LINESZ);
      DropTwice(line, LINESZ, LINESZ * (k - 1));
      PieceOfLine(line[LINESZ..], k - 1);
    }
  }

  lemma PrefixOfPiece(word: seq<Byte>, text: seq<Byte>, n: nat)
    requires |word| <= n <= |text|
    ensures word <= text[..n] <==> word <= text
  {
    assert word <= text ==> text[..n][..|word|] == word;
    assert word <= text[..n] ==> text[..|word|] == word;
  }

  lemma CommandOfFirst(text: seq<Byte>)
    ensures GetCommand(First(text)) == GetCommand(text)
  {
    if |text| > LINESZ {
      var n := LINESZ;
      PrefixOfPiece(PRINT, text, n);
      PrefixOfPiece(EXIT, text, n);
      PrefixOfPiece(CD, text, n);
      PrefixOfPiece(LS, text, n);
      PrefixOfPiece(FINDALL, text, n);
      PrefixOfPiece(SHELL, text, n);
      PrefixOfPiece(QUIT, text, n);
    }
  }

  /** Every piece of a long line is a request of its own, and read as a command by how it begins: as
      though the line had been typed from there. */
  lemma {:induction false} PieceIsCommand(line: seq<Byte>, k: nat)
    requires OneLine(line) && LINESZ * k < |line|
    ensures k < |Pieces(line)| && GetCommand(Pieces(line)[k]) == GetCommand(line[LINESZ * k..])
  {
    hide OneLine, Pieces, First, GetCommand;
    PieceOfLine(line, k);
    CommandOfFirst(line[LINESZ * k..]);
  }

  /** A short word at the start of a piece comes through, and none appears there. */
  lemma WordArrives(word: seq<Byte>, piece: seq<Byte>)
    requires |word| <= LINESZ && 0 !in word && CR_MASK !in word
    ensures word <= Arrived(piece) <==> word <= piece
  {
    var n := |word|;
    ArrivedIsPrefix(piece);
    if word <= piece {
      assert piece[..n] == word;
      BeforeIsNoLonger(piece, 0, n);
      assert Kept(piece)[..n] == CStr(piece)[..n] == word;
      BeforeIsNoLonger(Kept(piece), CR_MASK, n);
      assert Arrived(piece)[..n] == word;
    }
  }

  lemma ArrivedIsPrefix(piece: seq<Byte>)
    ensures Arrived(piece) <= piece
  {
    var a, k, c := Arrived(piece), Kept(piece), CStr(piece);
    assert a == k[..|a|] && k == c[..|k|] && c == piece[..|c|];
  }

  /** Client and server read the same command from every piece. */
  lemma CommandArrives(piece: seq<Byte>)
    ensures GetCommand(Arrived(piece)) == GetCommand(piece)
  {
    hide Arrived;
    WordArrives(PRINT, piece);
    WordArrives(EXIT, piece);
    WordArrives(CD, piece);
    WordArrives(LS, piece);
    WordArrives(FINDALL, piece);
    WordArrives(SHELL, piece);
    WordArrives(QUIT, piece);
  }

  // ---------------------------------------------------------------- the client's loop

  /** The pieces up to the first that says quit, after which the client ends. */
  function Spoken(pieces: seq<seq<Byte>>): seq<seq<Byte>> {
    if pieces == [] then []
    else if GetCommand(pieces[0]) == Quit then [pieces[0]]
    else [pieces[0]] + Spoken(pieces[1..])
  }

  lemma NextSpoken(rest: seq<Byte>)
    requires rest != []
    ensures var piece, later := rest[..Taken(rest)], rest[Taken(rest)..];
      Spoken(Pieces(rest)) == [piece] + if GetCommand(piece) == Quit then [] else Spoken(Pieces(later))
  {
    hide Taken, GetCommand;
    NextPiece(rest);
  }

  /** The server gets from these frames the id, and what arrives of the first of these pieces. */
  predicate Heard(datagrams: seq<seq<Byte>>, id: nat, said: seq<seq<Byte>>) {
    && |datagrams| <= |said|
    && forall k :: 0 <= k < |datagrams| ==> Separate(Received(datagrams[k])) == (WireId(id), Arrived(said[k]))
  }

  lemma HeardMore(datagrams: seq<seq<Byte>>, id: nat, said: seq<seq<Byte>>, datagram: seq<Byte>)
    requires Heard(datagrams, id, said) && |datagrams| < |said|
    requires Separate(Received(datagram)) == (WireId(id), Arrived(said[|datagrams|]))
    ensures Heard(datagrams + [datagram], id, said)
  {
    hide Separate, Received, Arrived, WireId;
  }

  /** main: one frame for each piece of the input, until quit or the end of it. */
  method Requests(id: nat, input: seq<Byte>) returns (datagrams: seq<seq<Byte>>)
    requires id < 0x8000_0000
    ensures |datagrams| == |Spoken(Pieces(input))| && Heard(datagrams, id, Spoken(Pieces(input)))
  {
    hide Separate, Received, Arrived, WireId, Taken, PaddedId, Pieces, GetCommand, Spoken;
    var clientId, buffer := new Byte[IDSZ], new Byte[BUFSZ];
    GetId(id, clientId);
    ghost var said := Spoken(Pieces(input));
    datagrams := [];
    var rest, flag := input, true;
    while flag && rest != []
      invariant clientId[..] == PaddedId(id)
      invariant Heard(datagrams, id, said)
      invariant said[|datagrams|..] == if flag then Spoken(Pieces(rest)) else []
      decreases |rest|, flag
    {
      hide Heard;
      NextSpoken(rest);
      var command, datagram, later := SendNext(buffer, clientId, id, rest);
      HeadOfRest(said, |datagrams|, rest[..Taken(rest)], if command == Quit then [] else Spoken(Pieces(later)));
      HeardMore(datagrams, id, said, datagram);
      datagrams := datagrams + [datagram];
      rest, flag := later, command != Quit;
    }
    NothingLeft();
  }

  lemma NothingLeft()
    ensures Spoken(Pieces([])) == []
  {
  }

  /** One turn of the loop, up to the sending. */
  method SendNext(buffer: array<Byte>, clientId: array<Byte>, id: nat, input: seq<Byte>)
    returns (command: Command, datagram: seq<Byte>, rest: seq<Byte>)
    requires buffer.Length == BUFSZ && clientId.Length == IDSZ && buffer != clientId
    requires id < 0x8000_0000 && clientId[..] == PaddedId(id) && input != []
    modifies buffer
    ensures rest == input[Taken(input)..] && command == GetCommand(input[..Taken(input)])
    ensures Separate(Received(datagram)) == (WireId(id), Arrived(input[..Taken(input)]))
  {
    hide Separate, Received, Encoded, Framed, Arrived, WireId, Taken, PaddedId, GetCommand;
    FrameRoundTrip(buffer[..], id, input[..Taken(input)]);
    command, rest := GetStr(buffer, clientId, input);
    datagram := SendBuf(buffer);
  }
}
