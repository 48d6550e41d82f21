/** create_pipes, close_pipes and do_subcoms of Operator_Stick/main_stick.c over one process's
    descriptors, proved to build the tables of `Pipeline`. */
module PipelineCalls {
  import opened Pipeline

  /** A table whose first `m` descriptors, and no others, are in use: the standard ones, then the ends
      of the pipes in order. */
  ghost predicate Numbered(t: Table, m: nat) {
    && (forall fd :: fd in t <==> 0 <= fd < m)
    && (forall fd :: 0 <= fd < m ==> t[fd] == if fd < 3 then Std(fd) else EndOf(fd - 3))
  }

  lemma NumberedNext(t: Table, i: nat)
    requires Numbered(t, 2 * i + 3)
    ensures Numbered(t[2 * i + 3 := Rd(i)][2 * i + 4 := Wr(i)], 2 * i + 5)
  {
  }

  lemma LowestTwo(t: Table, m: nat, rd: nat, wr: nat)
    requires Numbered(t, m)
    requires rd !in t && forall x :: 0 <= x < rd ==> x in t
    requires wr !in t && wr > rd && forall x :: 0 <= x < wr && x != rd ==> x in t
    ensures rd == m && wr == m + 1
  {
    assert m !in t && m + 1 !in t;
    assert !(rd < m) && !(m < rd);
  }

  class Process {
    var table: Table

    constructor (t: Table)
      ensures table == t
    {
      table := t;
    }

    /** The lowest descriptor not in use. */
    method Lowest() returns (fd: nat)
      ensures fd !in table && forall x :: 0 <= x < fd ==> x in table
    {
      fd := 0;
      ghost var left := table.Keys;
      while fd in table
        invariant forall x :: 0 <= x < fd ==> x in table
        invariant forall x :: x in table && x >= fd ==> x in left
        decreases left
      {
        left := left - {fd as int};
        fd := fd + 1;
      }
    }

    /** pipe(): the two lowest descriptors, the read end first. */
    method OpenPipe(k: nat) returns (rd: nat, wr: nat)
      modifies this
      ensures rd !in old(table) && forall x :: 0 <= x < rd ==> x in old(table)
      ensures wr !in old(table) && wr > rd && forall x :: 0 <= x < wr && x != rd ==> x in old(table)
      ensures table == old(table)[rd := Rd(k)][wr := Wr(k)]
    {
      rd := Lowest();
      table := table[rd := Rd(k)];
      wr := Lowest();
      assert rd in table && !(wr < rd);
      forall x | 0 <= x < wr && x != rd ensures x in old(table) {
        assert x in table;
      }
      table := table[wr := Wr(k)];
    }

    /** Pipe k gets the descriptors 2 k + 3 and 2 k + 4. */
    method CreatePipes(count: nat) returns (pipes: array<int>)
      requires table == STANDARD
      modifies this
      ensures fresh(pipes) && pipes.Length == 2 * count
      ensures forall j :: 0 <= j < pipes.Length ==> pipes[j] == j + 3
      ensures Proper(pipes[..]) && table == Opened(STANDARD, pipes[..], 0)
    {
      pipes := new int[count * 2];
      var i := 0;
      while i < count
        invariant i <= count && fresh(pipes) && pipes.Length == 2 * count
        invariant forall j :: 0 <= j < 2 * i ==> pipes[j] == j + 3
        invariant Numbered(table, 2 * i + 3)
      {
        hide Numbered;
        NumberedNext(table, i);
        ghost var before := table;
        var rd, wr := OpenPipe(i);
        LowestTwo(before, 2 * i + 3, rd, wr);
        pipes[2 * i], pipes[2 * i + 1] := rd, wr;
        i := i + 1;
      }
      NumbersInOrder(table, pipes[..]);
    }

    method ClosePipes(pipes: array<int>, count: nat, ghost own: Table)
      requires Proper(pipes[..]) && pipes.Length == 2 * count
      requires table == Opened(own, pipes[..], 0) && forall fd :: fd in own ==> fd < 3
      modifies this
      ensures table == own
    {
      hide Proper, Opened;
      var i := 0;
      while i < count
        invariant i <= count
        invariant table == Opened(own, pipes[..], 2 * i)
      {
        CloseNext(own, pipes[..], 2 * i);
        CloseNext(own, pipes[..], 2 * i + 1);
        table := Close(table, pipes[i * 2]);
        table := Close(table, pipes[2 * i + 1]);
        i := i + 1;
      }
      assert table == own by { NothingOpened(own, pipes[..]); }
    }

    /** The table with which command `id` starts: its neighbours' pipes in place of the standard
        input and output, and nothing else. */
    method DoSubcoms(pipes: array<int>, count: nat, id: nat)
      requires Proper(pipes[..]) && pipes.Length == 2 * count && id < count
      requires table == KidTable(pipes[..], id, count, 0)
      modifies this
      ensures table == KidTable(pipes[..], id, count, 2 + pipes.Length) == Wired(id, count, 2)
      ensures table.Keys == {0, 1, 2}
      ensures table[0] == if id == 0 then Std(0) else Rd(id - 1)
      ensures table[1] == if id == count - 1 then Std(1) else Wr(id)
      ensures table[2] == Std(2)
    {
      hide Proper, Opened, Wired, KidTable;
      KidTableNext(pipes[..], id, count, 0);
      if id != 0 {
        table := Dup2(table, pipes[2 * (id - 1)], 0);
      }
      assert table == KidTable(pipes[..], id, count, 1);
      KidTableNext(pipes[..], id, count, 1);
      if id < count - 1 {
        table := Dup2(table, pipes[2 * id + 1], 1);
      }
      assert table == KidTable(pipes[..], id, count, 2);
      WiredUp(pipes[..], id, count);
      ClosePipes(pipes, count, Wired(id, count, 2));
      CommandTable(id, count);
    }
  }

  lemma NumberInOrder(t: Table, pipes: seq<int>, fd: int)
    requires forall j :: 0 <= j < |pipes| ==> pipes[j] == j + 3
    requires Numbered(t, |pipes| + 3)
    ensures var o := Opened(STANDARD, pipes, 0);
      (fd in t <==> fd in o) && (fd in t ==> t[fd] == o[fd])
  {
    hide Opened, EndOf;
    assert pipes[0..] == pipes;
    OpenedAt(STANDARD, pipes, 0, fd);
    if 3 <= fd < |pipes| + 3 { assert pipes[fd - 3] == fd; }
  }

  lemma NumbersInOrder(t: Table, pipes: seq<int>)
    requires |pipes| % 2 == 0 && forall j :: 0 <= j < |pipes| ==> pipes[j] == j + 3
    requires Numbered(t, |pipes| + 3)
    ensures Proper(pipes) && t == Opened(STANDARD, pipes, 0)
  {
    hide Opened, Numbered;
    var o := Opened(STANDARD, pipes, 0);
    forall fd ensures (fd in t <==> fd in o) && (fd in t ==> t[fd] == o[fd]) {
      NumberInOrder(t, pipes, fd);
    }
  }

  lemma WiredAtFirst(i: nat, count: nat)
    ensures Wired(i, count, 0) == STANDARD
  {
  }

  /** main: the parent wires every child and keeps nothing but its own three descriptors. */
  method RunCommands(count: nat) returns (parent: Table, kids: seq<Table>)
    ensures parent == STANDARD && |kids| == count
    ensures forall i :: 0 <= i < count ==>
      && kids[i].Keys == {0, 1, 2}
      && kids[i][0] == (if i == 0 then Std(0) else Rd(i - 1))
      && kids[i][1] == (if i == count - 1 then Std(1) else Wr(i))
      && kids[i][2] == Std(2)
    ensures parent.Keys == {0, 1, 2} && parent[0] == Std(0) && parent[1] == Std(1) && parent[2] == Std(2)
  {
    hide Proper, Opened, Wired;
    var shell := new Process(STANDARD);
    var pipes := shell.CreatePipes(count);
    kids := [];
    var i := 0;
    while i < count
      invariant i <= count && |kids| == i
      invariant Proper(pipes[..]) && shell.table == Opened(STANDARD, pipes[..], 0)
      invariant forall j :: 0 <= j < i ==> kids[j] == Wired(j, count, 2)
    {
      WiredAtFirst(i, count);
      var kid := new Process(shell.table);
      kid.DoSubcoms(pipes, count, i);
      kids := kids + [kid.table];
      i := i + 1;
    }
    shell.ClosePipes(pipes, count, STANDARD);
    parent := shell.table;
    forall i | 0 <= i < count
      ensures kids[i].Keys == {0, 1, 2}
      ensures kids[i][0] == if i == 0 then Std(0) else Rd(i - 1)
      ensures kids[i][1] == if i == count - 1 then Std(1) else Wr(i)
      ensures kids[i][2] == Std(2)
    {
      CommandTable(i, count);
    }
  }
}
