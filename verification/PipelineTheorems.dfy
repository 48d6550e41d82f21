/** Who holds which pipe end, and why end-of-file passes down the line. */
module PipelineTheorems {
  import opened Pipeline

  ghost predicate In(e: End, t: Table) { exists fd :: fd in t && t[fd] == e }

  ghost predicate Holds(p: Proc, e: End) { p.Live? && In(e, p.tab) }

  ghost predicate Held(s: State, e: End) {
    Holds(s.parent, e) || exists i :: 0 <= i < |s.kids| && Holds(s.kids[i], e)
  }

  /** A reader of pipe k sees end-of-file: no process can write into it any more. */
  ghost predicate EndOfFile(s: State, k: nat) { !Held(s, Wr(k)) }

  /** The position of a pipe end in the array. */
  function Number(e: End): nat
    requires !e.Std?
  {
    if e.Rd? then 2 * e.k else 2 * e.k + 1
  }

  lemma NumberOfEnd(j: nat)
    ensures !EndOf(j).Std? && Number(EndOf(j)) == j
  {
  }

  /** Besides its own descriptors a process holds the ends it has not yet closed, and no others. */
  lemma OpenedHolds(t: Table, pipes: seq<int>, j: nat, e: End)
    requires Proper(pipes) && j <= |pipes| && !e.Std?
    requires forall fd :: fd in t ==> fd < 3
    ensures In(e, Opened(t, pipes, j)) <==> In(e, t) || j <= Number(e) < |pipes|
  {
    hide Opened, EndOf, Place;
    var o := Opened(t, pipes, j);
    if j <= Number(e) < |pipes| {
      var n := Number(e);
      assert pipes[j..][n - j] == pipes[n];
      assert pipes[n] in pipes[j..] && pipes[n] in pipes;
      OpenedAt(t, pipes, j, pipes[n]);
      assert Place(pipes, pipes[n]) == n;
      assert EndOf(n) == e by { EndOfNumber(e); }
      assert o[pipes[n]] == e;
    }
    if In(e, t) {
      var fd :| fd in t && t[fd] == e;
      assert fd !in pipes[j..];
      OpenedAt(t, pipes, j, fd);
      assert o[fd] == e;
    }
    if In(e, o) {
      var fd :| fd in o && o[fd] == e;
      OpenedAt(t, pipes, j, fd);
      if fd in pipes[j..] {
        var m :| 0 <= m < |pipes[j..]| && pipes[j..][m] == fd;
        assert pipes[j + m] == fd;
        assert Place(pipes, fd) == j + m;
        NumberOfEnd(j + m);
      }
    }
  }

  lemma EndOfNumber(e: End)
    requires !e.Std?
    ensures EndOf(Number(e)) == e
  {
  }

  lemma WiredHolds(i: nat, count: nat, at: nat, e: End)
    requires !e.Std?
    ensures forall fd :: fd in Wired(i, count, at) ==> fd < 3
    ensures In(e, Wired(i, count, at)) <==>
      (at > 0 && i != 0 && e == Rd(i - 1)) || (at > 1 && i < count - 1 && e == Wr(i))
  {
    var t := Wired(i, count, at);
    assert 0 in t && 1 in t && t[0] == t[0] && t[1] == t[1];
  }

  lemma KidTableHolds(pipes: seq<int>, i: nat, count: nat, at: nat, e: End)
    requires Proper(pipes) && at <= 2 + |pipes| && !e.Std? && Number(e) < |pipes|
    ensures In(e, KidTable(pipes, i, count, at)) <==>
      || (at > 0 && i != 0 && e == Rd(i - 1)) || (at > 1 && i < count - 1 && e == Wr(i))
      || at <= Number(e) + 2
  {
    hide Proper, Opened, Wired, In;
    WiredHolds(i, count, at, e);
    OpenedHolds(Wired(i, count, at), pipes, if at <= 2 then 0 else at - 2, e);
  }

  lemma ParentTableHolds(pipes: seq<int>, count: nat, at: nat, e: End)
    requires Proper(pipes) && at <= count + |pipes| && !e.Std? && Number(e) < |pipes|
    ensures In(e, ParentTable(pipes, count, at)) <==> at <= count + Number(e)
  {
    assert !In(e, STANDARD);
    hide Proper, Opened, In;
    OpenedHolds(STANDARD, pipes, if at <= count then 0 else at - count, e);
  }

  /** In every reachable state a child holds the read end of pipe k exactly if it is child k + 1 and
      has taken it over, or has not closed it yet; likewise the write end and child k. */
  lemma KidHoldsExactly(s: State, i: nat, k: nat)
    requires Inv(s) && i < |s.kids| && k < |s.kids| && s.kids[i].Live?
    ensures var kid, count := s.kids[i], |s.kids|;
      && (Holds(kid, Rd(k)) <==> (i == k + 1 && kid.at > 0) || kid.at <= 2 * k + 2)
      && (Holds(kid, Wr(k)) <==> (i == k < count - 1 && kid.at > 1) || kid.at <= 2 * k + 3)
  {
    hide Proper, KidTable, ParentTable, In;
    assert KidOk(s, i);
    KidTableHolds(s.pipes, i, |s.kids|, s.kids[i].at, Rd(k));
    KidTableHolds(s.pipes, i, |s.kids|, s.kids[i].at, Wr(k));
  }

  lemma ParentHoldsExactly(s: State, k: nat)
    requires Inv(s) && k < |s.kids| && s.parent.Live?
    ensures Holds(s.parent, Rd(k)) <==> s.parent.at <= |s.kids| + 2 * k
    ensures Holds(s.parent, Wr(k)) <==> s.parent.at <= |s.kids| + 2 * k + 1
  {
    hide Proper, KidTable, ParentTable, In;
    ParentTableHolds(s.pipes, |s.kids|, s.parent.at, Rd(k));
    ParentTableHolds(s.pipes, |s.kids|, s.parent.at, Wr(k));
  }

  /** Whether a process is done with the pipe end of this number. */
  predicate Past(p: Proc, first: nat, n: nat) { p.Gone? || (p.Live? && p.at > first + n) }

  predicate OthersPast(s: State, but: int, n: nat) {
    && Past(s.parent, |s.kids|, n)
    && forall i :: 0 <= i < |s.kids| && i != but ==> Past(s.kids[i], 2, n)
  }

  /** End-of-file on pipe k means exactly that its writer has exited and that everyone else has
      closed the write end: never earlier, and then at once. */
  lemma EndOfFileExactly(s: State, k: nat)
    requires Inv(s) && k + 1 < |s.kids|
    ensures EndOfFile(s, k) <==> s.kids[k].Gone? && OthersPast(s, k, 2 * k + 1)
  {
    hide Inv;
    NobodyHolds(s, k, Wr(k), k);
  }

  /** Writing into pipe k fails exactly if its reader has exited and everyone else has closed the
      read end; so no writer is cut off while its reader lives. */
  lemma BrokenPipeExactly(s: State, k: nat)
    requires Inv(s) && k + 1 < |s.kids|
    ensures !Held(s, Rd(k)) <==> s.kids[k + 1].Gone? && OthersPast(s, k + 1, 2 * k)
  {
    hide Inv;
    NobodyHolds(s, k, Rd(k), k + 1);
  }

  lemma NobodyHolds(s: State, k: nat, e: End, owner: nat)
    requires Inv(s) && k + 1 < |s.kids|
    requires (e == Wr(k) && owner == k) || (e == Rd(k) && owner == k + 1)
    ensures !Held(s, e) <==> s.kids[owner].Gone? && OthersPast(s, owner, Number(e))
  {
    forall i | 0 <= i < |s.kids|
      ensures !Holds(s.kids[i], e) && s.kids[i].Live? ==> Past(s.kids[i], 2, Number(e)) && i != owner
      ensures i != owner && Past(s.kids[i], 2, Number(e)) ==> !Holds(s.kids[i], e)
      ensures s.kids[i].Unborn? ==> s.parent.Live? && s.parent.at <= |s.kids|
    {
      assert KidOk(s, i);
      if s.kids[i].Live? { KidHoldsExactly(s, i, k); }
    }
    if s.parent.Live? { ParentHoldsExactly(s, k); }
  }

  // ---------------------------------------------------------------- after all closes

  /** In every reachable state a command that runs has three descriptors: its input is pipe i - 1, or the
      program's own for the first command; its output pipe i, or the program's own for the last. */
  lemma RunningTable(s: State, i: nat)
    requires Reachable(s) && Running(s, i)
    ensures var t := s.kids[i].tab;
      && t.Keys == {0, 1, 2}
      && t[0] == (if i == 0 then Std(0) else Rd(i - 1))
      && t[1] == (if i == |s.kids| - 1 then Std(1) else Wr(i))
      && t[2] == Std(2)
  {
    ReachableInv(s);
    assert KidOk(s, i);
    WiredUp(s.pipes, i, |s.kids|);
    CommandTable(i, |s.kids|);
    hide Reachable, Inv, KidTable, Wired, Opened;
  }

  predicate Settled(s: State) {
    && (s.parent.Gone? || (s.parent.Live? && s.parent.at == |s.kids| + |s.pipes|))
    && forall i :: 0 <= i < |s.kids| ==> s.kids[i].Gone? || Running(s, i)
  }

  /** Once every close is done, pipe k has child k as its only writer and child k + 1 as its only
      reader, and nobody holds the last pipe. */
  lemma SettledWiring(s: State, k: nat)
    requires Inv(s) && Settled(s) && k < |s.kids|
    ensures !Holds(s.parent, Rd(k)) && !Holds(s.parent, Wr(k))
    ensures forall i :: 0 <= i < |s.kids| ==>
      && (Holds(s.kids[i], Wr(k)) <==> i == k < |s.kids| - 1 && s.kids[i].Live?)
      && (Holds(s.kids[i], Rd(k)) <==> i == k + 1 && s.kids[i].Live?)
  {
    if s.parent.Live? { ParentHoldsExactly(s, k); }
    forall i | 0 <= i < |s.kids|
      ensures Holds(s.kids[i], Wr(k)) <==> i == k < |s.kids| - 1 && s.kids[i].Live?
      ensures Holds(s.kids[i], Rd(k)) <==> i == k + 1 && s.kids[i].Live?
    {
      if s.kids[i].Live? { KidHoldsExactly(s, i, k); }
    }
  }

  /** So a reader sees end-of-file exactly when the child before it has exited. */
  lemma SettledEndOfFile(s: State, k: nat)
    requires Inv(s) && Settled(s) && k + 1 < |s.kids|
    ensures EndOfFile(s, k) <==> s.kids[k].Gone?
    ensures !Held(s, Rd(k)) <==> s.kids[k + 1].Gone?
  {
    SettledWiring(s, k);
    hide Inv, Settled, Holds;
    assert Holds(s.kids[k], Wr(k)) <==> s.kids[k].Live?;
    assert Holds(s.kids[k + 1], Rd(k)) <==> s.kids[k + 1].Live?;
    assert s.kids[k].Gone? || s.kids[k].Live? by { assert Running(s, k) || s.kids[k].Gone? by { SettledKid(s, k); } }
    assert s.kids[k + 1].Gone? || s.kids[k + 1].Live? by { SettledKid(s, k + 1); }
  }

  lemma SettledKid(s: State, i: nat)
    requires Settled(s) && i < |s.kids|
    ensures s.kids[i].Gone? || s.kids[i].Live?
  {
  }

  // ---------------------------------------------------------------- nobody waits for ever

  /** The moves of a pipeline whose first command ends by itself and whose other commands end once
      they have read to end-of-file. */
  ghost predicate Moves(s: State, l: Label) {
    && Enabled(s, l)
    && (l.KidExit? ==> Running(s, l.i) && (l.i == 0 || EndOfFile(s, l.i - 1)))
  }

  /** The first child that has not exited. */
  function FirstLeft(kids: seq<Proc>): (i: nat)
    ensures i <= |kids| && (i < |kids| ==> !kids[i].Gone?) && forall j :: 0 <= j < i ==> kids[j].Gone?
  {
    if kids == [] || !kids[0].Gone? then 0 else 1 + FirstLeft(kids[1..])
  }

  /** Some process can move until all are gone: end-of-file passes down the line by itself. */
  lemma NobodyHangs(s: State) returns (l: Label)
    requires Inv(s) && !s.parent.Gone?
    ensures Moves(s, l)
  {
    var i := FirstLeft(s.kids);
    if s.parent.at < |s.kids| + |s.pipes| || i == |s.kids| {
      return ParentStep;
    }
    if j :| 0 <= j < |s.kids| && s.kids[j].Live? && !Running(s, j) {
      assert KidOk(s, j);
      hide Opened, Wired;
      KidTableNext(s.pipes, j, |s.kids|, s.kids[j].at);
      return KidStep(j);
    }
    assert KidOk(s, i);
    assert Running(s, i);
    if i > 0 {
      assert forall j :: 0 <= j < |s.kids| && s.kids[j].Unborn? ==> KidOk(s, j);
      SettledEndOfFile(s, i - 1);
    }
    l := KidExit(i);
  }

  function Left(p: Proc, last: nat): nat {
    match p
    case Unborn => last + 3
    case Live(at, _) => if at <= last then last - at + 1 else 1
    case Gone => 0
  }

  function Sum(kids: seq<Proc>, last: nat): nat {
    if kids == [] then 0 else Left(kids[0], last) + Sum(kids[1..], last)
  }

  /** How many more steps there can be. */
  function Rank(s: State): nat {
    Left(s.parent, |s.kids| + |s.pipes|) + Sum(s.kids, 2 + |s.pipes|)
  }

  lemma {:induction false} SumChange(kids: seq<Proc>, last: nat, i: nat, p: Proc)
    requires i < |kids|
    ensures Sum(kids[i := p], last) == Sum(kids, last) - Left(kids[i], last) + Left(p, last)
  {
    if i == 0 {
      assert kids[0 := p][1..] == kids[1..];
    } else {
      SumChange(kids[1..], last, i - 1, p);
      assert kids[i := p][1..] == kids[1..][i - 1 := p];
    }
  }

  lemma RankFalls(s: State, l: Label)
    requires Inv(s) && Enabled(s, l)
    ensures Inv(Do(s, l)) && Rank(Do(s, l)) < Rank(s)
  {
    hide Proper, Opened, KidTable, ParentTable, KidDoes, KidCan;
    var s', last := Do(s, l), 2 + |s.pipes|;
    if l.ParentStep? {
      ParentKeepsInv(s);
      if s.parent.at < |s.kids| {
        assert KidOk(s, s.parent.at);
        SumChange(s.kids, last, s.parent.at, s'.kids[s.parent.at]);
      }
    } else {
      KidKeepsInv(s, l);
      assert KidOk(s, l.i) && KidOk(s', l.i);
      SumChange(s.kids, last, l.i, s'.kids[l.i]);
    }
  }

  /** Every step brings the end nearer, so a run takes at most Rank steps. */
  lemma {:induction false} RunsEnd(s: State, ls: seq<Label>)
    requires Inv(s) && Valid(s, ls)
    ensures |ls| <= Rank(s)
    decreases |ls|
  {
    hide Inv, Enabled, Do, Rank;
    if ls != [] {
      RankFalls(s, ls[0]);
      RunsEnd(Do(s, ls[0]), ls[1..]);
    }
  }
}
