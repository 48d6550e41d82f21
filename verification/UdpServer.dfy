/** What the loop of master in Socket/UDP.c means: a map from client ids to sessions, each with the
    bytes written into its pipe, and what a request does to it. */
module UdpServer {
  import opened SocketCommands
  import opened SocketFrame

  const MAX_CLIENTS: nat := 10

  // ---------------------------------------------------------------- sessions

  /** client_info. */
  datatype Client = Client(pid: int, id: int, rd: int, wr: int)

  /** What a session amounts to: its pipe, and the bytes written into it so far. */
  datatype Session = Session(rd: int, wr: int, sent: seq<Byte>)

  datatype Pipe = NoPipe | Ends(rd: int, wr: int)

  /** A request, with what the system answers if asked on its behalf: the ends of a new pipe, the
      number of a new process, and whether a write into the client's pipe succeeds. */
  datatype Request = Request(id: int, data: seq<Byte>, pipe: Pipe, pid: int, writes: bool)

  type Sessions = map<int, Session>

  /** Whether the request leaves its client with a session to write to. */
  predicate Served(ss: Sessions, r: Request) {
    r.id in ss || (|ss| < MAX_CLIENTS && r.pipe.Ends?)
  }

  function Connected(ss: Sessions, r: Request): Sessions
    requires Served(ss, r)
  {
    if r.id in ss then ss else ss[r.id := Session(r.pipe.rd, r.pipe.wr, [])]
  }

  predicate Delivered(r: Request) { GetCommand(r.data) != FindAll && r.writes }

  /** What the command does to the sessions once its client has one. */
  function Answered(ss: Sessions, r: Request): Sessions
    requires r.id in ss
  {
    if !Delivered(r) then ss
    else if GetCommand(r.data) == Quit then ss - {r.id}
    else ss[r.id := ss[r.id].(sent := ss[r.id].sent + r.data)]
  }

  /** The meaning of one turn of master's loop. */
  function Route(ss: Sessions, r: Request): Sessions {
    if Served(ss, r) then Answered(Connected(ss, r), r) else ss
  }

  /** One turn, case by case: a stranger is turned away by a full table of ten or for want of a pipe;
      anyone else has a session, old or new, and findall, a failed write, quit and any other command
      differ in what becomes of it. */
  lemma RouteIs(ss: Sessions, r: Request)
    ensures r.id !in ss && (|ss| >= 10 || r.pipe.NoPipe?) ==> !Served(ss, r) && Route(ss, r) == ss
    ensures r.id in ss || (|ss| < 10 && r.pipe.Ends?) ==>
      var was := if r.id in ss then ss[r.id] else Session(r.pipe.rd, r.pipe.wr, []);
      var now := ss[r.id := was];
      && Served(ss, r)
      && (GetCommand(r.data) == FindAll || !r.writes ==> Route(ss, r) == now)
      && (GetCommand(r.data) != FindAll && r.writes ==>
            Route(ss, r) == if GetCommand(r.data) == Quit then now - {r.id}
                            else now[r.id := Session(was.rd, was.wr, was.sent + r.data)])
  {
    hide GetCommand;
    assert r.id in ss ==> ss[r.id := ss[r.id]] == ss;
  }

  function Run(rs: seq<Request>): Sessions {
    if rs == [] then map[] else Route(Run(rs[..|rs| - 1]), rs[|rs| - 1])
  }

  /** The data of the requests of `id` that were written into its pipe. */
  function WrittenBy(rs: seq<Request>, id: int): seq<Byte> {
    if rs == [] then []
    else
      var r := rs[|rs| - 1];
      WrittenBy(rs[..|rs| - 1], id) + if r.id == id && Delivered(r) then r.data else []
  }

  /** Since request `j` the client has been connected without a break, and was not before. */
  predicate ConnectedSince(rs: seq<Request>, id: int, j: nat) {
    j < |rs| && rs[j].id == id && id !in Run(rs[..j])
    && forall k :: j < k <= |rs| ==> id in Run(rs[..k])
  }

  lemma {:induction false} WrittenBySnoc(rs: seq<Request>, r: Request, id: int)
    ensures WrittenBy(rs + [r], id) == WrittenBy(rs, id) + if r.id == id && Delivered(r) then r.data else []
  {
    assert (rs + [r])[..|rs|] == rs;
  }

  lemma RouteWrites(ss: Sessions, r: Request, id: int)
    requires id in Route(ss, r)
    ensures id !in ss ==> r.id == id
    ensures Route(ss, r)[id].sent ==
      (if id in ss then ss[id].sent else []) + if r.id == id && Delivered(r) then r.data else []
  {
  }

  lemma StillConnected(rs: seq<Request>, r: Request, id: int, j: nat)
    requires ConnectedSince(rs, id, j) && id in Run(rs + [r])
    ensures ConnectedSince(rs + [r], id, j)
  {
    hide Run;
    assert (rs + [r])[..j] == rs[..j];
    forall k | j < k <= |rs| + 1 ensures id in Run((rs + [r])[..k]) {
      assert k <= |rs| ==> (rs + [r])[..k] == rs[..k];
      assert k > |rs| ==> (rs + [r])[..k] == rs + [r];
    }
  }

  lemma JustConnected(rs: seq<Request>, r: Request, id: int)
    requires id !in Run(rs) && id in Run(rs + [r]) && r.id == id
    ensures ConnectedSince(rs + [r], id, |rs|)
  {
    hide Run;
    assert (rs + [r])[..|rs|] == rs && (rs + [r])[..|rs| + 1] == rs + [r];
  }

  /** The pipe of a live session holds, in order, exactly what its client has sent since it
      connected, apart from findall and failed writes. */
  lemma {:induction false} PipeHoldsTheRequests(rs: seq<Request>, id: int) returns (j: nat)
    requires id in Run(rs)
    ensures ConnectedSince(rs, id, j)
    ensures Run(rs)[id].sent == WrittenBy(rs[j..], id)
  {
    var n := |rs| - 1;
    var front, r := rs[..n], rs[n];
    assert rs == front + [r];
    assert Run(rs) == Route(Run(front), r);
    RouteWrites(Run(front), r, id);
    if id in Run(front) {
      j := PipeHoldsTheRequests(front, id);
      hide Route, Delivered, Run, WrittenBy;
      StillConnected(front, r, id, j);
      WrittenBySnoc(front[j..], r, id);
      assert rs[j..] == front[j..] + [r];
    } else {
      j := n;
      WrittenBySnoc([], r, id);
      assert rs[n..] == [] + [r];
      JustConnected(front, r, id);
    }
  }
}
