/** master, find_client, add_client and client_disconnect of Socket/UDP.c over the global array,
    proved to do what `UdpServer.Route` says. */
module UdpTable {
  import opened SocketCommands
  import opened SocketFrame
  import opened UdpServer

  /** `slot` is the position of each client. */
  predicate Placed(live: seq<Client>, slot: map<int, nat>) {
    && (forall i :: 0 <= i < |live| ==> live[i].id in slot && slot[live[i].id] == i)
    && (forall id :: id in slot ==> slot[id] < |live| && live[slot[id]].id == id)
  }

  predicate Described(live: seq<Client>, piped: map<int, seq<Byte>>, ss: Sessions) {
    forall i :: 0 <= i < |live| ==>
      && live[i].id in ss && live[i].wr in piped
      && ss[live[i].id] == Session(live[i].rd, live[i].wr, piped[live[i].wr])
  }

  /** Every entry is one session, every session one entry. */
  predicate Stands(live: seq<Client>, slot: map<int, nat>, piped: map<int, seq<Byte>>, ss: Sessions) {
    && Placed(live, slot) && Described(live, piped, ss)
    && slot.Keys == ss.Keys && |ss| == |live|
  }

  /** `owner` is the client of each open pipe end: every session owns two of its own, and no end
      is open that no session owns. */
  predicate Owned(ss: Sessions, owner: map<int, int>) {
    && (forall id :: id in ss ==>
          var s := ss[id];
          s.rd != s.wr && s.rd in owner && s.wr in owner && owner[s.rd] == id && owner[s.wr] == id)
    && (forall x :: x in owner ==> owner[x] in ss && (x == ss[owner[x]].rd || x == ss[owner[x]].wr))
  }

  /** The last entry moves into the hole. */
  function RemoveSwap(live: seq<Client>, p: nat): (r: seq<Client>)
    requires p < |live|
    ensures |r| == |live| - 1
  {
    var n := |live| - 1;
    if p == n then live[..n] else live[..n][p := live[n]]
  }

  lemma StandsAdd(live: seq<Client>, slot: map<int, nat>, piped: map<int, seq<Byte>>, ss: Sessions, c: Client)
    requires Stands(live, slot, piped, ss) && c.id !in ss
    requires forall i :: 0 <= i < |live| ==> live[i].wr != c.wr
    ensures Stands(live + [c], slot[c.id := |live|], piped[c.wr := []], ss[c.id := Session(c.rd, c.wr, [])])
  {
  }

  /** No two live entries have the same id. */
  lemma IdsDiffer(live: seq<Client>, slot: map<int, nat>, i: nat, j: nat)
    requires Placed(live, slot) && i < |live| && j < |live| && i != j
    ensures live[i].id != live[j].id
  {
  }

  lemma PlacedRemove(live: seq<Client>, slot: map<int, nat>, p: nat)
    requires Placed(live, slot) && p < |live|
    ensures Placed(RemoveSwap(live, p), slot[live[|live| - 1].id := p] - {live[p].id})
    ensures (slot[live[|live| - 1].id := p] - {live[p].id}).Keys == slot.Keys - {live[p].id}
  {
    var n, r := |live| - 1, RemoveSwap(live, p);
    assert forall i :: 0 <= i < n ==> r[i] == if i == p then live[n] else live[i];
  }

  lemma DescribedRemove(live: seq<Client>, slot: map<int, nat>, piped: map<int, seq<Byte>>, ss: Sessions, p: nat)
    requires Placed(live, slot) && Described(live, piped, ss) && p < |live|
    ensures Described(RemoveSwap(live, p), piped, ss - {live[p].id})
  {
    var n, r := |live| - 1, RemoveSwap(live, p);
    forall i | 0 <= i < n
      ensures r[i].id in ss - {live[p].id} && r[i].wr in piped
        && (ss - {live[p].id})[r[i].id] == Session(r[i].rd, r[i].wr, piped[r[i].wr])
    {
      var j := if i == p then n else i;
      assert r[i] == live[j];
      IdsDiffer(live, slot, j, p);
    }
  }

  lemma StandsRemove(live: seq<Client>, slot: map<int, nat>, piped: map<int, seq<Byte>>, ss: Sessions, p: nat)
    requires Stands(live, slot, piped, ss) && p < |live|
    ensures var id, last := live[p].id, live[|live| - 1].id;
      Stands(RemoveSwap(live, p), slot[last := p] - {id}, piped, ss - {id})
  {
    var id := live[p].id;
    PlacedRemove(live, slot, p);
    DescribedRemove(live, slot, piped, ss, p);
    assert id in slot;
    hide Placed, Described, RemoveSwap;
    assert (ss - {id}).Keys == ss.Keys - {id} && id in ss.Keys;
    assert |ss - {id}| == |(ss - {id}).Keys| && |ss| == |ss.Keys|;
  }

  /** More bytes in one session's pipe. */
  function MoreSent(ss: Sessions, id: int, data: seq<Byte>): Sessions
    requires id in ss
  {
    ss[id := ss[id].(sent := ss[id].sent + data)]
  }

  lemma StandsWrite(live: seq<Client>, slot: map<int, nat>, piped: map<int, seq<Byte>>, ss: Sessions,
                    p: nat, data: seq<Byte>)
    requires Stands(live, slot, piped, ss) && p < |live|
    requires forall i :: 0 <= i < |live| && i != p ==> live[i].wr != live[p].wr
    ensures Stands(live, slot, piped[live[p].wr := piped[live[p].wr] + data], MoreSent(ss, live[p].id, data))
  {
    var c := live[p];
    var ss', piped' := MoreSent(ss, c.id, data), piped[c.wr := piped[c.wr] + data];
    assert ss'.Keys == ss.Keys;
    assert |ss'| == |ss'.Keys| && |ss| == |ss.Keys|;
    forall i | 0 <= i < |live|
      ensures live[i].id in ss' && live[i].wr in piped'
        && ss'[live[i].id] == Session(live[i].rd, live[i].wr, piped'[live[i].wr])
    {
      if i != p { IdsDiffer(live, slot, i, p); }
    }
    hide Placed, MoreSent;
  }

  lemma OwnedAdd(ss: Sessions, owner: map<int, int>, id: int, rd: int, wr: int)
    requires Owned(ss, owner) && id !in ss && rd !in owner && wr !in owner && rd != wr
    ensures Owned(ss[id := Session(rd, wr, [])], owner[rd := id][wr := id])
    ensures owner[rd := id][wr := id].Keys == owner.Keys + {rd, wr}
  {
  }

  lemma OwnedRemove(ss: Sessions, owner: map<int, int>, id: int)
    requires Owned(ss, owner) && id in ss
    ensures Owned(ss - {id}, owner - {ss[id].rd, ss[id].wr})
    ensures (owner - {ss[id].rd, ss[id].wr}).Keys == owner.Keys - {ss[id].rd, ss[id].wr}
  {
  }

  /** An entry leaves: the slots, the owners and the sessions that remain. */
  lemma DropEntry(live: seq<Client>, slot: map<int, nat>, piped: map<int, seq<Byte>>, ss: Sessions,
                  owner: map<int, int>, p: nat)
    returns (slot': map<int, nat>, owner': map<int, int>)
    requires Stands(live, slot, piped, ss) && Owned(ss, owner) && p < |live|
    ensures Stands(RemoveSwap(live, p), slot', piped, ss - {live[p].id})
    ensures Owned(ss - {live[p].id}, owner') && owner'.Keys == owner.Keys - {live[p].rd, live[p].wr}
  {
    StandsRemove(live, slot, piped, ss, p);
    OwnedRemove(ss, owner, live[p].id);
    slot', owner' := slot[live[|live| - 1].id := p] - {live[p].id}, owner - {live[p].rd, live[p].wr};
  }

  lemma OwnWriteEnds(live: seq<Client>, slot: map<int, nat>, piped: map<int, seq<Byte>>, ss: Sessions,
                     owner: map<int, int>)
    requires Stands(live, slot, piped, ss) && Owned(ss, owner)
    ensures forall i :: 0 <= i < |live| ==> live[i].wr in owner && owner[live[i].wr] == live[i].id
    ensures forall i, j :: 0 <= i < |live| && 0 <= j < |live| && i != j ==> live[i].wr != live[j].wr
  {
    forall i | 0 <= i < |live| ensures live[i].wr in owner && owner[live[i].wr] == live[i].id {
      assert ss[live[i].id].wr == live[i].wr;
    }
  }

  lemma EntryCount(live: seq<Client>, slot: map<int, nat>, piped: map<int, seq<Byte>>, ss: Sessions)
    requires Stands(live, slot, piped, ss)
    ensures |ss| == |live|
  {
  }

  /** An entry joins at the end. */
  lemma EnterEntry(live: seq<Client>, slot: map<int, nat>, piped: map<int, seq<Byte>>, ss: Sessions,
                   owner: map<int, int>, c: Client)
    requires Stands(live, slot, piped, ss) && Owned(ss, owner)
    requires c.id !in ss && c.rd !in owner && c.wr !in owner && c.rd != c.wr
    ensures Stands(live + [c], slot[c.id := |live|], piped[c.wr := []], ss[c.id := Session(c.rd, c.wr, [])])
    ensures Owned(ss[c.id := Session(c.rd, c.wr, [])], owner[c.rd := c.id][c.wr := c.id])
    ensures owner[c.rd := c.id][c.wr := c.id].Keys == owner.Keys + {c.rd, c.wr}
  {
    OwnWriteEnds(live, slot, piped, ss, owner);
    OwnedAdd(ss, owner, c.id, c.rd, c.wr);
    hide Owned;
    StandsAdd(live, slot, piped, ss, c);
  }

  /** The globals of the server process, with the pipes the system keeps for it. */
  class Server {
    const clients: array<Client>
    var count: nat
    var open: set<int>
    var piped: map<int, seq<Byte>>
    ghost var sessions: Sessions
    ghost var slot: map<int, nat>
    ghost var owner: map<int, int>

    ghost predicate Valid()
      reads this, clients
    {
      && clients.Length == MAX_CLIENTS && count <= MAX_CLIENTS
      && Stands(clients[..count], slot, piped, sessions)
      && Owned(sessions, owner) && open == owner.Keys
    }

    constructor ()
      ensures Valid() && fresh(clients)
      ensures sessions == map[] && open == {}
    {
      clients := new Client[MAX_CLIENTS](_ => Client(0, 0, 0, 0));
      count, open, piped, sessions, slot, owner := 0, {}, map[], map[], map[], map[];
    }

    /** The position of the live entry with this id, or -1 if there is none. */
    method FindClient(id: int) returns (position: int)
      requires Valid()
      ensures -1 <= position < count
      ensures position >= 0 <==> id in sessions
      ensures position >= 0 ==> clients[position].id == id
    {
      var i := 0;
      while i < count
        invariant i <= count && forall j :: 0 <= j < i ==> clients[..count][j].id != id
      {
        if clients[i].id == id {
          assert clients[..count][i].id == id;
          return i;
        }
        i := i + 1;
      }
      return -1;
    }

    /** Takes the first free cell; the caller counts it in. */
    method AddClient(id: int, pipe: Pipe) returns (ret: int)
      requires clients.Length == MAX_CLIENTS && count <= MAX_CLIENTS
      modifies this`open, this`piped, clients
      ensures clients[..count] == old(clients[..count])
      ensures ret == if count < MAX_CLIENTS && pipe.Ends? then count else -1
      ensures ret < 0 ==> open == old(open) && piped == old(piped)
      ensures ret >= 0 ==>
        && clients[count] == Client(old(clients[count]).pid, id, pipe.rd, pipe.wr)
        && open == old(open) + {pipe.rd, pipe.wr} && piped == old(piped)[pipe.wr := []]
    {
      if count >= MAX_CLIENTS {
        return -1;
      }
      clients[count] := clients[count].(id := id);
      if pipe.NoPipe? {
        return -1;
      }
      clients[count] := clients[count].(rd := pipe.rd, wr := pipe.wr);
      open := open + {pipe.rd, pipe.wr};
      piped := piped[pipe.wr := []];
      return count;
    }

    method CloseEnds(rd: int, wr: int)
      modifies this`open
      ensures open == old(open) - {rd, wr}
    {
      open := open - {rd};
      open := open - {wr};
    }

    /** The entry's cell is given up, and the last entry moves into it. */
    method FillCell(position: nat, ghost slot': map<int, nat>, ghost owner': map<int, int>, ghost sessions': Sessions)
      requires clients.Length == MAX_CLIENTS && position < count <= MAX_CLIENTS
      requires Stands(RemoveSwap(clients[..count], position), slot', piped, sessions')
      requires Owned(sessions', owner') && open == owner'.Keys
      modifies this`count, this`slot, this`owner, this`sessions, clients
      ensures Valid() && sessions == sessions' && count == old(count) - 1
      ensures clients[..count] == RemoveSwap(old(clients[..count]), position)
    {
      hide Stands, Placed, Described, Owned;
      clients[position] := clients[position].(id := 0);
      count := count - 1;
      if count != position {
        clients[position] := clients[count];
        clients[count] := clients[count].(id := 0);
      }
      slot, owner, sessions := slot', owner', sessions';
      assert clients[..count] == RemoveSwap(old(clients[..count]), position);
    }

    /** Closes exactly the two ends of the entry's pipe and removes the entry. */
    method ClientDisconnect(position: nat)
      requires Valid() && position < count
      modifies this`count, this`open, this`sessions, this`slot, this`owner, clients
      ensures Valid() && count == old(count) - 1
      ensures clients[..count] == RemoveSwap(old(clients[..count]), position)
      ensures open == old(open) - {old(clients[position].rd), old(clients[position].wr)}
      ensures sessions == old(sessions) - {old(clients[position].id)}
    {
      hide Stands, Placed, Described, Owned, RemoveSwap;
      ghost var live := clients[..count];
      var gone := clients[position];
      assert live[position] == gone;
      ghost var slot', owner' := DropEntry(live, slot, piped, sessions, owner, position);
      CloseEnds(gone.rd, gone.wr);
      FillCell(position, slot', owner', sessions - {gone.id});
    }

    /** The parent's side of the fork: the cell behind the live entries becomes one of them. */
    method CountIn(pid: int, ghost slot': map<int, nat>, ghost owner': map<int, int>, ghost sessions': Sessions)
      requires clients.Length == MAX_CLIENTS && count < MAX_CLIENTS
      requires Stands(clients[..count] + [clients[count].(pid := pid)], slot', piped, sessions')
      requires Owned(sessions', owner') && open == owner'.Keys
      modifies this`count, this`slot, this`owner, this`sessions, clients
      ensures Valid() && sessions == sessions'
      ensures count == old(count) + 1 && clients[old(count)].id == old(clients[count]).id
    {
      hide Stands, Placed, Described, Owned;
      clients[count] := clients[count].(pid := pid);
      count := count + 1;
      slot, owner, sessions := slot', owner', sessions';
      assert clients[..count] == old(clients[..count] + [clients[count].(pid := pid)]);
    }

    /** A new client is counted in after the fork. */
    method Connect(id: int, pipe: Pipe, pid: int) returns (position: int)
      requires Valid() && id !in sessions && Fresh(pipe, open)
      modifies this, clients
      ensures Valid()
      ensures position >= 0 <==> |old(sessions)| < MAX_CLIENTS && pipe.Ends?
      ensures position < 0 ==> sessions == old(sessions) && open == old(open)
      ensures position >= 0 ==>
        && position < count && clients[position].id == id
        && sessions == old(sessions)[id := Session(pipe.rd, pipe.wr, [])]
        && open == old(open) + {pipe.rd, pipe.wr}
    {
      hide Stands, Placed, Described, Owned;
      ghost var live := clients[..count];
      EntryCount(live, slot, piped, sessions);
      position := AddClient(id, pipe);
      if position < 0 {
        return -1;
      }
      position := count;
      ghost var c := Client(pid, id, pipe.rd, pipe.wr);
      EnterEntry(live, slot, old(piped), sessions, owner, c);
      hide Fresh;
      CountIn(pid, slot[id := |live|], owner[pipe.rd := id][pipe.wr := id],
              sessions[id := Session(pipe.rd, pipe.wr, [])]);
    }

    method WriteTo(position: nat, data: seq<Byte>)
      requires Valid() && position < count
      modifies this`piped, this`sessions
      ensures Valid()
      ensures var id := clients[position].id;
        id in old(sessions)
        && sessions == old(sessions)[id := old(sessions)[id].(sent := old(sessions)[id].sent + data)]
    {
      ghost var live := clients[..count];
      var c := clients[position];
      assert live[position] == c;
      OwnWriteEnds(live, slot, piped, sessions, owner);
      StandsWrite(live, slot, piped, sessions, position, data);
      piped := piped[c.wr := piped[c.wr] + data];
      sessions := sessions[c.id := sessions[c.id].(sent := sessions[c.id].sent + data)];
    }

    /** The second half of the turn: findall is answered, anything else goes into the pipe, and
        quit then ends the session. */
    method Answer(position: nat, r: Request) returns (found: bool)
      requires Valid() && position < count && clients[position].id == r.id && r.id in sessions
      modifies this, clients
      ensures Valid()
      ensures sessions == Answered(old(sessions), r)
      ensures found <==> GetCommand(r.data) == FindAll
    {
      hide Stands, Placed, Described, Owned, GetCommand, RemoveSwap;
      var command := GetCommand(r.data);
      if command == FindAll {
        return true;
      }
      found := false;
      if !r.writes {
        return;
      }
      ghost var before := sessions;
      WriteTo(position, r.data);
      if command == Quit {
        ClientDisconnect(position);
        assert sessions == before - {r.id};
      }
    }

    /** One turn of master's loop; `found` says whether a findall was answered. */
    method Turn(r: Request) returns (found: bool)
      requires Valid() && Fresh(r.pipe, open)
      modifies this, clients
      ensures Valid()
      ensures sessions == Route(old(sessions), r)
      ensures found <==> Served(old(sessions), r) && GetCommand(r.data) == FindAll
    {
      hide Stands, Placed, Described, Owned, GetCommand, Answered;
      var position := FindClient(r.id);
      if position < 0 {
        position := Connect(r.id, r.pipe, r.pid);
        if position < 0 {
          return false;
        }
      }
      found := Answer(position, r);
    }

    /** Over any requests the table stays a map of at most ten sessions, the one `Run` computes,
        and the open pipe ends are those of its sessions.  New pipes get ends that are not open. */
    method Master(rs: seq<Request>)
      requires Valid() && sessions == map[]
      requires forall k :: 0 <= k < |rs| ==> Fresh(rs[k].pipe, OpenEnds(Run(rs[..k])))
      modifies this, clients
      ensures Valid() && sessions == Run(rs) && open == OpenEnds(sessions)
    {
      OwnedEnds(sessions, owner);
      assert rs[..0] == [];
      for k := 0 to |rs|
        invariant Valid() && sessions == Run(rs[..k]) && open == OpenEnds(sessions)
      {
        hide Route, OpenEnds, Stands, Owned, Fresh;
        assert rs[..k + 1][..k] == rs[..k];
        var _ := Turn(rs[k]);
        OwnedEnds(sessions, owner);
      }
      assert rs[..|rs|] == rs;
    }
  }

  /** pipe returns two different descriptors that are not open. */
  predicate Fresh(pipe: Pipe, open: set<int>) {
    pipe.Ends? ==> pipe.rd != pipe.wr && pipe.rd !in open && pipe.wr !in open
  }

  function OpenEnds(ss: Sessions): set<int> {
    (set id | id in ss :: ss[id].rd) + (set id | id in ss :: ss[id].wr)
  }

  /** The open ends are those of the live sessions and no others; no two sessions share one. */
  lemma OwnedEnds(ss: Sessions, owner: map<int, int>)
    requires Owned(ss, owner)
    ensures owner.Keys == OpenEnds(ss)
    ensures forall i, j :: i in ss && j in ss && i != j ==>
      ss[i].rd != ss[j].rd && ss[i].rd != ss[j].wr && ss[i].wr != ss[j].wr
  {
    forall x | x in owner ensures x in OpenEnds(ss) {
      var id := owner[x];
      assert id in ss && (x == ss[id].rd || x == ss[id].wr);
    }
  }
}
