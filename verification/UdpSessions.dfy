/** From what is typed at a client to a session's pipe: what get_str of Socket/client.c frames, what
    receive_buf and separate_buffer make of it, and what master of Socket/UDP.c does with the result. */
module UdpSessions {
  import opened SocketCommands
  import opened SocketFrame
  import opened SocketClient
  import opened SocketTyped
  import opened UdpServer
  import opened UdpTable

  /** One piece of what is typed at the client with this id, framed in a buffer that held something
      before, and what the server's system answers while it is served. */
  datatype Message = Message(buffer: seq<Byte>, id: nat, piece: seq<Byte>, pipe: Pipe, pid: int, writes: bool)

  /** rand gives ids below 2^31. */
  predicate Proper(m: Message) { |m.buffer| == BUFSZ && m.id < 0x8000_0000 }

  predicate AllProper(ms: seq<Message>) { forall i :: 0 <= i < |ms| ==> Proper(ms[i]) }

  function OnWire(m: Message): seq<Byte>
    requires Proper(m)
  {
    Encoded(Framed(m.buffer, PaddedId(m.id), m.piece))
  }

  /** What the server takes the message for. */
  function RequestOf(m: Message): Request
    requires Proper(m)
  {
    var (id, data) := Separate(Received(OnWire(m)));
    Request(id, data, m.pipe, m.pid, m.writes)
  }

  function RequestsOf(ms: seq<Message>): (rs: seq<Request>)
    requires AllProper(ms)
    ensures |rs| == |ms| && forall i :: 0 <= i < |ms| ==> rs[i] == RequestOf(ms[i])
  {
    seq(|ms|, i requires 0 <= i < |ms| => RequestOf(ms[i]))
  }

  lemma RequestIs(m: Message)
    requires Proper(m)
    ensures RequestOf(m) == Request(WireId(m.id), Arrived(m.piece), m.pipe, m.pid, m.writes)
  {
    FrameRoundTrip(m.buffer, m.id, m.piece);
  }

  /** Whether the piece goes into its client's pipe. */
  predicate Piped(m: Message) { GetCommand(Arrived(m.piece)) != FindAll && m.writes }

  /** What arrives in the pipe from the clients a server knows by `id`. */
  function PipedFrom(ms: seq<Message>, id: int): seq<Byte> {
    if ms == [] then []
    else
      var m := ms[|ms| - 1];
      PipedFrom(ms[..|ms| - 1], id) + if WireId(m.id) == id && Piped(m) then Arrived(m.piece) else []
  }

  lemma {:induction false} WrittenPieces(ms: seq<Message>, id: int)
    requires AllProper(ms)
    ensures WrittenBy(RequestsOf(ms), id) == PipedFrom(ms, id)
  {
    hide RequestOf, Arrived, WireId;
    if ms != [] {
      var front, m := ms[..|ms| - 1], ms[|ms| - 1];
      WrittenPieces(front, id);
      RequestIs(m);
      assert RequestsOf(ms) == RequestsOf(front) + [RequestOf(m)];
      WrittenBySnoc(RequestsOf(front), RequestOf(m), id);
    }
  }

  lemma RequestsFrom(ms: seq<Message>, j: nat)
    requires AllProper(ms) && j <= |ms|
    ensures AllProper(ms[j..]) && RequestsOf(ms)[j..] == RequestsOf(ms[j..])
  {
    hide RequestOf, Proper;
  }

  /** Over any pieces from any clients, a live session's pipe holds, in order, what arrived of those of
      the clients it stands for since they connected, apart from findall and failed writes. */
  lemma {:induction false} SessionHoldsThePieces(ms: seq<Message>, id: int) returns (j: nat)
    requires AllProper(ms) && id in Run(RequestsOf(ms))
    ensures ConnectedSince(RequestsOf(ms), id, j)
    ensures Run(RequestsOf(ms))[id].sent == PipedFrom(ms[j..], id)
  {
    j := PipeHoldsTheRequests(RequestsOf(ms), id);
    hide RequestOf, Run, Proper;
    RequestsFrom(ms, j);
    WrittenPieces(ms[j..], id);
  }

  // ---------------------------------------------------------------- what was typed

  /** The pieces from the clients a server knows by `id`, in order. */
  function PiecesFrom(ms: seq<Message>, id: int): seq<seq<Byte>> {
    if ms == [] then []
    else
      var m := ms[|ms| - 1];
      PiecesFrom(ms[..|ms| - 1], id) + if WireId(m.id) == id then [m.piece] else []
  }

  predicate AllPiped(ms: seq<Message>, id: int) {
    forall i :: 0 <= i < |ms| && WireId(ms[i].id) == id ==> Piped(ms[i])
  }

  lemma {:induction false} ArrivedSnoc(texts: seq<seq<Byte>>, text: seq<Byte>)
    ensures ArrivedAll(texts + [text]) == ArrivedAll(texts) + Arrived(text)
  {
    hide Arrived;
    if texts == [] {
      assert [] + [text] == [text] && [text][1..] == [];
    } else {
      ArrivedSnoc(texts[1..], text);
      assert (texts + [text])[1..] == texts[1..] + [text];
    }
  }

  lemma {:induction false} PipedIsArrived(ms: seq<Message>, id: int)
    requires AllPiped(ms, id)
    ensures PipedFrom(ms, id) == ArrivedAll(PiecesFrom(ms, id))
  {
    hide Piped, WireId, Arrived, ArrivedAll;
    if ms == [] {
      assert ArrivedAll([]) == [] by { NoneArrived(); }
    } else {
      var front, m := ms[..|ms| - 1], ms[|ms| - 1];
      PipedIsArrived(front, id);
      ArrivedSnoc(PiecesFrom(front, id), m.piece);
      assert PiecesFrom(front, id) + [] == PiecesFrom(front, id);
      assert PipedFrom(front, id) + [] == PipedFrom(front, id);
    }
  }

  lemma NoneArrived()
    ensures ArrivedAll([]) == []
  {
  }

  /** However long the lines: if a session has been sent the pieces of some input and all were written,
      its pipe holds exactly what was typed, if and only if no byte of that is 0 or 0xAA. */
  lemma {:induction false} SessionHoldsWhatWasTyped(ms: seq<Message>, id: int, input: seq<Byte>) returns (j: nat)
    requires AllProper(ms) && id in Run(RequestsOf(ms))
    ensures ConnectedSince(RequestsOf(ms), id, j)
    ensures PiecesFrom(ms[j..], id) == Pieces(input) && AllPiped(ms[j..], id) ==>
      (Run(RequestsOf(ms))[id].sent == input <==> 0 !in input && CR_MASK !in input)
  {
    j := SessionHoldsThePieces(ms, id);
    hide Run, RequestsOf, Pieces, ArrivedAll, AllPiped, PiecesFrom;
    if PiecesFrom(ms[j..], id) == Pieces(input) && AllPiped(ms[j..], id) {
      PipedIsArrived(ms[j..], id);
      TypedArrivesExactly(input);
    }
  }

  /** A piece that is what one call takes of some text, as every piece of a line is of the line from
      there on, closes the session exactly when that text begins with quit. */
  lemma {:induction false} PieceCloses(ss: Sessions, m: Message, text: seq<Byte>)
    requires Proper(m) && m.piece == First(text) && Served(ss, RequestOf(m)) && m.writes
    ensures WireId(m.id) !in Route(ss, RequestOf(m)) <==> GetCommand(text) == Quit
  {
    hide GetCommand, Arrived, WireId, RequestOf, First;
    RequestIs(m);
    CommandArrives(m.piece);
    CommandOfFirst(text);
    QuitCloses(ss, RequestOf(m));
  }

  lemma QuitCloses(ss: Sessions, r: Request)
    requires Served(ss, r) && r.writes
    ensures r.id !in Route(ss, r) <==> GetCommand(r.data) == Quit
  {
    hide GetCommand;
  }

  // ---------------------------------------------------------------- who shares a session

  /** Two ids are one to the server exactly when they agree after a tenth digit is dropped. */
  lemma SameIdExactly(a: nat, b: nat)
    ensures WireId(a) == WireId(b) <==>
      || a == b
      || (a >= 1_000_000_000 && b >= 1_000_000_000 && a / 10 == b / 10)
      || (a >= 1_000_000_000 > b && a / 10 == b)
      || (b >= 1_000_000_000 > a && b / 10 == a)
  {
  }

  /** A client of its own comes in and asks for something other than to quit. */
  predicate Joins(m: Message) { Proper(m) && m.pipe.Ends? && GetCommand(Arrived(m.piece)) != Quit }

  lemma JoinRoutes(ss: Sessions, m: Message)
    requires Joins(m) && |ss| < MAX_CLIENTS
    ensures Route(ss, RequestOf(m)).Keys == ss.Keys + {WireId(m.id)}
  {
    RequestIs(m);
    hide RequestOf, Arrived, WireId, GetCommand;
    RouteKeys(ss, RequestOf(m));
  }

  lemma RouteKeys(ss: Sessions, r: Request)
    requires Served(ss, r) && GetCommand(r.data) != Quit
    ensures Route(ss, r).Keys == ss.Keys + {r.id}
  {
    hide GetCommand;
    var cs := Connected(ss, r);
    assert cs.Keys == ss.Keys + {r.id};
    if Delivered(r) {
      assert cs[r.id := cs[r.id].(sent := cs[r.id].sent + r.data)].Keys == cs.Keys;
    }
  }

  /** Of two clients that come in one after the other, with nobody else known by their ids and room for
      both, the second is given the first one's session exactly when their ids agree so; what it
      types then follows what the first one typed in the same pipe. */
  lemma {:induction false} SessionSharedExactly(ss: Sessions, a: Message, b: Message)
    requires Joins(a) && Joins(b) && |ss| + 2 <= MAX_CLIENTS
    requires WireId(a.id) !in ss && WireId(b.id) !in ss
    ensures var two := Route(Route(ss, RequestOf(a)), RequestOf(b));
      && (|two| == |ss| + 1 <==> WireId(a.id) == WireId(b.id))
      && WireId(a.id) in two
      && two[WireId(a.id)].sent == (if Piped(a) then Arrived(a.piece) else [])
           + (if WireId(a.id) == WireId(b.id) && Piped(b) then Arrived(b.piece) else [])
  {
    hide RequestOf, Arrived, WireId, GetCommand, Route;
    var q, r := RequestOf(a), RequestOf(b);
    var one := Route(ss, q);
    var two := Route(one, r);
    RequestIs(a);
    RequestIs(b);
    JoinRoutes(ss, a);
    SizeOfKeys(ss, one, q.id);
    JoinRoutes(one, b);
    SizeOfKeys(one, two, r.id);
    RouteWrites(ss, q, q.id);
    RouteWrites(one, r, q.id);
  }

  lemma SizeOfKeys(ss: Sessions, more: Sessions, id: int)
    requires more.Keys == ss.Keys + {id}
    ensures |more| == if id in ss then |ss| else |ss| + 1
  {
    assert |more| == |more.Keys| && |ss| == |ss.Keys|;
    assert id in ss ==> ss.Keys + {id} == ss.Keys;
  }

  /** In this history two different clients have written into the pipe of one session. */
  ghost predicate Mixed(ms: seq<Message>)
    requires AllProper(ms)
  {
    exists id, j, a, b :: MixedAt(ms, id, j, a, b)
  }

  predicate MixedAt(ms: seq<Message>, id: int, j: nat, a: nat, b: nat)
    requires AllProper(ms)
  {
    && ConnectedSince(RequestsOf(ms), id, j) && j <= a < |ms| && j <= b < |ms|
    && Heeded(ms[a], id) && Heeded(ms[b], id) && ms[a].id != ms[b].id
  }

  /** The piece leaves bytes in the pipe of the session with this id. */
  predicate Heeded(m: Message, id: int) { WireId(m.id) == id && Piped(m) && Arrived(m.piece) != [] }

  predicate Among(ms: seq<Message>, clients: set<nat>) {
    AllProper(ms) && forall i :: 0 <= i < |ms| ==> ms[i].id in clients
  }

  predicate Distinct(clients: set<nat>) {
    forall a, b :: a in clients && b in clients && WireId(a) == WireId(b) ==> a == b
  }

  const A: seq<Byte> := [0x61]

  /** A message that says "a". */
  function Hello(id: nat): Message {
    Message(seq(BUFSZ, i => 0), id, A, Ends(3, 4), 0, true)
  }

  lemma HelloArrives(id: nat)
    requires id < 0x8000_0000
    ensures Proper(Hello(id)) && Arrived(Hello(id).piece) == A && GetCommand(A) == Unknown
    ensures RequestOf(Hello(id)) == Request(WireId(id), A, Ends(3, 4), 0, true)
  {
    ArrivesWholeExactly(A);
    RequestIs(Hello(id));
    hide Arrived, RequestOf, WireId;
  }

  lemma HelloConnects(ss: Sessions, r: Request)
    requires r.pipe.Ends? && r.writes && GetCommand(r.data) == Unknown && |ss| < MAX_CLIENTS
    ensures Route(ss, r).Keys == ss.Keys + {r.id}
  {
    RouteKeys(ss, r);
  }

  lemma {:induction false} TwoHellosMix(a: nat, b: nat)
    requires a < 0x8000_0000 && b < 0x8000_0000 && a != b && WireId(a) == WireId(b)
    ensures AllProper([Hello(a), Hello(b)]) && Mixed([Hello(a), Hello(b)])
  {
    HelloArrives(a);
    HelloArrives(b);
    hide Arrived, WireId, GetCommand, RequestOf, Route, Hello;
    var ms, id := [Hello(a), Hello(b)], WireId(a);
    var rs := RequestsOf(ms);
    var q, r := RequestOf(Hello(a)), RequestOf(Hello(b));
    assert rs == [q, r];
    RunOfTwo(q, r);
    HelloConnects(map[], q);
    var one := Route(map[], q);
    assert |one| == |one.Keys| && one.Keys == {id};
    HelloConnects(one, r);
    ConnectedInTwo(q, r, id);
    assert MixedAt(ms, id, 0, 0, 1) by { HelloIsHeeded(a); HelloIsHeeded(b); HelloIsFrom(a); HelloIsFrom(b); }
  }

  lemma HelloIsFrom(id: nat)
    ensures Hello(id).id == id
  {
  }

  lemma HelloIsHeeded(id: nat)
    requires id < 0x8000_0000
    ensures Heeded(Hello(id), WireId(id))
  {
    HelloArrives(id);
    hide Arrived, WireId, RequestOf;
  }

  lemma RunOfTwo(q: Request, r: Request)
    ensures Run([]) == map[] && Run([q]) == Route(map[], q) && Run([q, r]) == Route(Route(map[], q), r)
  {
    hide Route;
    assert [q, r][..1] == [q] && [q][..0] == [];
  }

  lemma ConnectedInTwo(q: Request, r: Request, id: int)
    requires q.id == id && id in Run([q]) && id in Run([q, r])
    ensures ConnectedSince([q, r], id, 0)
  {
    RunOfTwo(q, r);
    hide Run, Route;
    var rs := [q, r];
    assert rs[..0] == [];
    forall k | 0 < k <= 2 ensures id in Run(rs[..k]) {
      assert rs[..k] == if k == 1 then [q] else rs;
    }
  }

  lemma {:induction false} SharedIdsMix(clients: set<nat>) returns (ms: seq<Message>)
    requires forall c :: c in clients ==> c < 0x8000_0000
    requires !Distinct(clients)
    ensures Among(ms, clients) && Mixed(ms)
  {
    var a, b := SharedIds(clients);
    hide WireId, Hello, Mixed, RequestsOf, Distinct, Among, AllProper;
    TwoHellosMix(a, b);
    HelloIsFrom(a);
    HelloIsFrom(b);
    ms := [Hello(a), Hello(b)];
    AmongTwo(Hello(a), Hello(b), clients);
  }

  lemma SharedIds(clients: set<nat>) returns (a: nat, b: nat)
    requires !Distinct(clients)
    ensures a in clients && b in clients && WireId(a) == WireId(b) && a != b
  {
    hide WireId;
    a, b :| a in clients && b in clients && WireId(a) == WireId(b) && a != b;
  }

  lemma AmongTwo(m: Message, n: Message, clients: set<nat>)
    requires AllProper([m, n]) && m.id in clients && n.id in clients
    ensures Among([m, n], clients)
  {
  }

  /** Every history of a set of clients keeps each session to one client, if and only if no two of
      their ids agree after a tenth digit is dropped. */
  lemma {:induction false} SessionsKeptApartExactly(clients: set<nat>)
    requires forall c :: c in clients ==> c < 0x8000_0000
    ensures (forall ms :: Among(ms, clients) ==> !Mixed(ms)) <==> Distinct(clients)
  {
    assert forall ms :: Among(ms, clients) ==> AllProper(ms);
    hide Among, Mixed, Distinct;
    if Distinct(clients) {
      forall ms | Among(ms, clients) ensures !Mixed(ms) {
        NotMixed(ms, clients);
      }
    } else {
      var ms := SharedIdsMix(clients);
    }
  }

  lemma NotMixed(ms: seq<Message>, clients: set<nat>)
    requires Among(ms, clients) && Distinct(clients)
    ensures !Mixed(ms)
  {
    hide WireId, Piped, Arrived, RequestsOf, ConnectedSince;
    forall id, j: nat, a: nat, b: nat ensures !MixedAt(ms, id, j, a, b) {
      if j <= a < |ms| && j <= b < |ms| && Heeded(ms[a], id) && Heeded(ms[b], id) {
        assert ms[a].id in clients && ms[b].id in clients;
      }
    }
  }

  // ---------------------------------------------------------------- the server on datagrams

  lemma BufferEnds(datagram: seq<Byte>)
    ensures |Received(datagram)| == BUFSZ && 0 in Received(datagram)[IDSZ..]
  {
    var got := Received(datagram);
    assert Raw(datagram)[BUFSZ - 1] == 0;
    assert got[BUFSZ - 1] == 0 by {
      var n := |CStr(Raw(datagram))|;
      assert n <= BUFSZ - 1;
    }
    assert got[IDSZ..][BUFSZ - 1 - IDSZ] == 0;
  }

  /** One turn of master's loop, from the datagram on. */
  method ReceiveAndTurn(server: Server, m: Message, buffer: array<Byte>, data: array<Byte>) returns (found: bool)
    requires server.Valid() && Proper(m) && Fresh(m.pipe, server.open)
    requires buffer.Length == data.Length == BUFSZ && buffer != data
    modifies server, server.clients, buffer, data
    ensures server.Valid()
    ensures server.sessions == Route(old(server.sessions), RequestOf(m))
  {
    hide Separate, Route, Encoded, Framed, Fresh;
    BufferEnds(OnWire(m));
    var _ := ReceiveBuf(OnWire(m), buffer);
    var clientId := SeparateBuffer(buffer, data);
    var size := StrLen(data);
    assert data[..size] == CStr(data[..]);
    found := server.Turn(Request(clientId, data[..size], m.pipe, m.pid, m.writes));
  }

  /** Any pieces from any clients: the table is the map they describe. */
  method Serve(server: Server, ms: seq<Message>)
    requires server.Valid() && server.sessions == map[] && AllProper(ms)
    requires forall k :: 0 <= k < |ms| ==> Fresh(ms[k].pipe, OpenEnds(Run(RequestsOf(ms)[..k])))
    modifies server, server.clients
    ensures server.Valid() && server.sessions == Run(RequestsOf(ms)) && server.open == OpenEnds(server.sessions)
  {
    hide Route, OpenEnds, Stands, Owned, Fresh, RequestOf;
    var buffer, data := new Byte[BUFSZ], new Byte[BUFSZ];
    ghost var rs := RequestsOf(ms);
    EndsOf(server);
    assert rs[..0] == [];
    for k := 0 to |ms|
      invariant server.Valid() && server.sessions == Run(rs[..k]) && server.open == OpenEnds(server.sessions)
    {
      RunSnoc(rs, k);
      hide Run;
      var _ := ReceiveAndTurn(server, ms[k], buffer, data);
      EndsOf(server);
    }
    assert rs[..|rs|] == rs;
  }

  lemma RunSnoc(rs: seq<Request>, k: nat)
    requires k < |rs|
    ensures Run(rs[..k + 1]) == Route(Run(rs[..k]), rs[k])
  {
    assert rs[..k + 1][..k] == rs[..k];
  }

  lemma EndsOf(server: Server)
    requires server.Valid()
    ensures server.open == OpenEnds(server.sessions)
  {
    OwnedEnds(server.sessions, server.owner);
  }
}
