/** The pipeline runner Operator_Stick/main_stick.c: a parent that forks one child per command, and
    children that wire their standard input and output to the pipes between them. */
module Pipeline {
  /** What a descriptor stands for: an end of pipe k, or one of the three the program started with. */
  datatype End = Rd(k: nat) | Wr(k: nat) | Std(n: nat)

  type Table = map<int, End>

  /** A process: how far it has come, and its descriptors. */
  datatype Proc = Unborn | Live(at: nat, tab: Table) | Gone

  /** `pipes` is the array every process inherits; child i runs command i. */
  datatype State = State(pipes: seq<int>, parent: Proc, kids: seq<Proc>)

  datatype Label = ParentStep | KidStep(i: nat) | KidExit(i: nat)

  function EndOf(j: nat): End { if j % 2 == 0 then Rd(j / 2) else Wr(j / 2) }

  /** pipe() gives descriptors that are not in use, so they are different and none is standard. */
  predicate Proper(pipes: seq<int>) {
    && |pipes| % 2 == 0
    && (forall j :: 0 <= j < |pipes| ==> pipes[j] >= 3)
    && (forall i, j :: 0 <= i < j < |pipes| ==> pipes[i] != pipes[j])
  }

  // ---------------------------------------------------------------- steps

  const STANDARD: Table := map[0 := Std(0), 1 := Std(1), 2 := Std(2)]

  function Close(t: Table, fd: int): Table { t - {fd} }

  function Dup2(t: Table, from: int, to: int): Table
    requires from in t
  {
    t[to := t[from]]
  }

  /** Step `at` of do_subcoms: two rewirings, the closes, and then the command itself. */
  predicate KidCan(pipes: seq<int>, i: nat, count: nat, at: nat, t: Table) {
    && at < 2 + |pipes|
    && (at == 0 && i != 0 ==> 2 * (i - 1) < |pipes| && pipes[2 * (i - 1)] in t)
    && (at == 1 && i < count - 1 ==> 2 * i + 1 < |pipes| && pipes[2 * i + 1] in t)
  }

  function KidDoes(pipes: seq<int>, i: nat, count: nat, at: nat, t: Table): Table
    requires KidCan(pipes, i, count, at, t)
  {
    if at == 0 then (if i != 0 then Dup2(t, pipes[2 * (i - 1)], 0) else t)
    else if at == 1 then (if i < count - 1 then Dup2(t, pipes[2 * i + 1], 1) else t)
    else Close(t, pipes[at - 2])
  }

  predicate Running(s: State, i: nat) {
    i < |s.kids| && s.kids[i].Live? && s.kids[i].at == 2 + |s.pipes|
  }

  predicate AllGone(kids: seq<Proc>) { forall i :: 0 <= i < |kids| ==> kids[i].Gone? }

  predicate Enabled(s: State, l: Label) {
    match l
    case ParentStep =>
      && s.parent.Live?
      && (s.parent.at < |s.kids| + |s.pipes| || AllGone(s.kids))
    case KidStep(i) =>
      i < |s.kids| && s.kids[i].Live? && KidCan(s.pipes, i, |s.kids|, s.kids[i].at, s.kids[i].tab)
    case KidExit(i) => i < |s.kids| && s.kids[i].Live?
  }

  /** The parent forks every child, closes every end, and waits for all its children. */
  function Do(s: State, l: Label): State
    requires Enabled(s, l)
  {
    match l
    case ParentStep =>
      var at, t := s.parent.at, s.parent.tab;
      if at < |s.kids| then s.(parent := Live(at + 1, t), kids := s.kids[at := Live(0, t)])
      else if at < |s.kids| + |s.pipes| then s.(parent := Live(at + 1, Close(t, s.pipes[at - |s.kids|])))
      else s.(parent := Gone)
    case KidStep(i) =>
      var kid := s.kids[i];
      s.(kids := s.kids[i := Live(kid.at + 1, KidDoes(s.pipes, i, |s.kids|, kid.at, kid.tab))])
    case KidExit(i) => s.(kids := s.kids[i := Gone])
  }

  predicate Valid(s: State, ls: seq<Label>)
    decreases |ls|
  {
    ls == [] || (Enabled(s, ls[0]) && Valid(Do(s, ls[0]), ls[1..]))
  }

  function Exec(s: State, ls: seq<Label>): State
    requires Valid(s, ls)
    decreases |ls|
  {
    if ls == [] then s else Exec(Do(s, ls[0]), ls[1..])
  }

  /** After create_pipes. */
  predicate Init(s: State) {
    && Proper(s.pipes) && |s.pipes| == 2 * |s.kids|
    && s.parent == Live(0, Opened(STANDARD, s.pipes, 0))
    && forall i :: 0 <= i < |s.kids| ==> s.kids[i].Unborn?
  }

  ghost predicate Reachable(s: State) {
    exists s0, ls :: Init(s0) && Valid(s0, ls) && s == Exec(s0, ls)
  }

  // ---------------------------------------------------------------- tables in closed form

  function Place(pipes: seq<int>, fd: int): (n: nat)
    requires fd in pipes
    ensures n < |pipes| && pipes[n] == fd
  {
    if pipes[0] == fd then 0 else 1 + Place(pipes[1..], fd)
  }

  /** The table `t` together with the pipe ends from number `j` on. */
  function Opened(t: Table, pipes: seq<int>, j: nat): Table
    requires j <= |pipes|
  {
    t + map fd | fd in pipes[j..] :: EndOf(Place(pipes, fd))
  }

  /** The standard descriptors of child `i` at step `at`. */
  function Wired(i: nat, count: nat, at: nat): Table {
    map[0 := if at > 0 && i != 0 then Rd(i - 1) else Std(0),
        1 := if at > 1 && i < count - 1 then Wr(i) else Std(1),
        2 := Std(2)]
  }

  /** The table a command starts with. */
  lemma CommandTable(i: nat, count: nat)
    requires i < count
    ensures Wired(i, count, 2).Keys == {0, 1, 2}
    ensures Wired(i, count, 2)[0] == if i == 0 then Std(0) else Rd(i - 1)
    ensures Wired(i, count, 2)[1] == if i == count - 1 then Std(1) else Wr(i)
    ensures Wired(i, count, 2)[2] == Std(2)
  {
  }

  function KidTable(pipes: seq<int>, i: nat, count: nat, at: nat): Table
    requires at <= 2 + |pipes|
  {
    Opened(Wired(i, count, at), pipes, if at <= 2 then 0 else at - 2)
  }

  function ParentTable(pipes: seq<int>, count: nat, at: nat): Table
    requires at <= count + |pipes|
  {
    Opened(STANDARD, pipes, if at <= count then 0 else at - count)
  }

  lemma OpenedAt(t: Table, pipes: seq<int>, j: nat, fd: int)
    requires j <= |pipes|
    ensures fd in Opened(t, pipes, j) <==> fd in t || fd in pipes[j..]
    ensures fd in pipes[j..] ==> Opened(t, pipes, j)[fd] == EndOf(Place(pipes, fd))
    ensures fd in t && fd !in pipes[j..] ==> Opened(t, pipes, j)[fd] == t[fd]
  {
    hide Place, EndOf;
  }

  lemma CloseNext(t: Table, pipes: seq<int>, j: nat)
    requires Proper(pipes) && j < |pipes|
    requires forall fd :: fd in t ==> fd < 3
    ensures Close(Opened(t, pipes, j), pipes[j]) == Opened(t, pipes, j + 1)
  {
    hide Opened, Place, EndOf;
    assert pipes[j..] == [pipes[j]] + pipes[j + 1..];
    assert pipes[j] !in pipes[j + 1..] && pipes[j] !in t;
    hide Proper;
    var a, b := Close(Opened(t, pipes, j), pipes[j]), Opened(t, pipes, j + 1);
    forall fd ensures fd in a <==> fd in b {
      OpenedAt(t, pipes, j, fd);
      OpenedAt(t, pipes, j + 1, fd);
    }
    forall fd | fd in a ensures a[fd] == b[fd] {
      OpenedAt(t, pipes, j, fd);
      OpenedAt(t, pipes, j + 1, fd);
    }
  }

  lemma DupStandard(t: Table, pipes: seq<int>, j: nat, to: int)
    requires Proper(pipes) && j < |pipes| && to < 3
    ensures pipes[j] in Opened(t, pipes, 0)
    ensures Dup2(Opened(t, pipes, 0), pipes[j], to) == Opened(t[to := EndOf(j)], pipes, 0)
  {
    hide Opened, EndOf;
    var t' := t[to := EndOf(j)];
    assert pipes[0..] == pipes && pipes[j] in pipes && to !in pipes;
    assert Place(pipes, pipes[j]) == j;
    hide Proper, Place;
    OpenedAt(t, pipes, 0, pipes[j]);
    var a, b := Dup2(Opened(t, pipes, 0), pipes[j], to), Opened(t', pipes, 0);
    forall fd ensures fd in a <==> fd in b {
      OpenedAt(t, pipes, 0, fd);
      OpenedAt(t', pipes, 0, fd);
    }
    forall fd | fd in a ensures a[fd] == b[fd] {
      OpenedAt(t, pipes, 0, fd);
      OpenedAt(t', pipes, 0, fd);
    }
  }

  lemma NothingOpened(t: Table, pipes: seq<int>)
    ensures Opened(t, pipes, |pipes|) == t
  {
  }

  lemma WiredUp(pipes: seq<int>, id: nat, count: nat)
    ensures KidTable(pipes, id, count, 2) == Opened(Wired(id, count, 2), pipes, 0)
    ensures KidTable(pipes, id, count, 2 + |pipes|) == Wired(id, count, 2)
    ensures forall fd :: fd in Wired(id, count, 2) ==> fd < 3
  {
    hide Opened;
    assert Wired(id, count, 2 + |pipes|) == Wired(id, count, 2);
    NothingOpened(Wired(id, count, 2), pipes);
  }

  lemma KidTableNext(pipes: seq<int>, i: nat, count: nat, at: nat)
    requires Proper(pipes) && |pipes| == 2 * count && i < count && at < 2 + |pipes|
    ensures KidCan(pipes, i, count, at, KidTable(pipes, i, count, at))
    ensures KidDoes(pipes, i, count, at, KidTable(pipes, i, count, at)) == KidTable(pipes, i, count, at + 1)
  {
    hide Proper, Opened;
    var t := Wired(i, count, at);
    if at == 0 {
      if i != 0 { DupStandard(t, pipes, 2 * (i - 1), 0); }
    } else if at == 1 {
      if i < count - 1 { DupStandard(t, pipes, 2 * i + 1, 1); }
    } else {
      CloseNext(t, pipes, at - 2);
    }
    assert Wired(i, count, at + 1) ==
      if at == 0 && i != 0 then t[0 := EndOf(2 * (i - 1))]
      else if at == 1 && i < count - 1 then t[1 := EndOf(2 * i + 1)]
      else t;
  }

  // ---------------------------------------------------------------- invariant

  /** Every process holds exactly the table its own position calls for, whatever the others do. */
  predicate Inv(s: State) {
    && Proper(s.pipes) && |s.pipes| == 2 * |s.kids|
    && (s.parent.Live? ==>
          && s.parent.at <= |s.kids| + |s.pipes|
          && s.parent.tab == ParentTable(s.pipes, |s.kids|, s.parent.at))
    && !s.parent.Unborn?
    && (s.parent.Gone? ==> AllGone(s.kids))
    && (forall i :: 0 <= i < |s.kids| ==> KidOk(s, i))
  }

  predicate KidOk(s: State, i: nat)
    requires i < |s.kids|
  {
    match s.kids[i]
    case Unborn => s.parent.Live? && s.parent.at <= i
    case Live(at, tab) =>
      && at <= 2 + |s.pipes| && tab == KidTable(s.pipes, i, |s.kids|, at)
      && s.parent.Live? && i < s.parent.at
    case Gone => s.parent.Live? ==> i < s.parent.at
  }

  lemma ParentKeepsInv(s: State)
    requires Inv(s) && Enabled(s, ParentStep)
    ensures Inv(Do(s, ParentStep))
  {
    hide Opened, Proper;
    var at, count := s.parent.at, |s.kids|;
    var s' := Do(s, ParentStep);
    if at < count {
      assert Wired(at, count, 0) == STANDARD;
    } else if at < count + |s.pipes| {
      CloseNext(STANDARD, s.pipes, at - count);
    }
    forall i | 0 <= i < count ensures KidOk(s', i) {
      assert KidOk(s, i);
    }
  }

  lemma KidKeepsInv(s: State, l: Label)
    requires Inv(s) && Enabled(s, l) && !l.ParentStep?
    ensures Inv(Do(s, l))
  {
    hide Opened, Proper, Wired, KidTable;
    var s' := Do(s, l);
    assert KidOk(s, l.i);
    if l.KidStep? {
      KidTableNext(s.pipes, l.i, |s.kids|, s.kids[l.i].at);
    }
    forall j | 0 <= j < |s'.kids| ensures KidOk(s', j) {
      assert KidOk(s, j);
    }
  }

  lemma {:induction false} ExecKeepsInv(s: State, ls: seq<Label>)
    requires Inv(s) && Valid(s, ls)
    ensures Inv(Exec(s, ls))
    decreases |ls|
  {
    if ls != [] {
      if ls[0].ParentStep? { ParentKeepsInv(s); } else { KidKeepsInv(s, ls[0]); }
      hide Inv, Enabled, Do;
      ExecKeepsInv(Do(s, ls[0]), ls[1..]);
    }
  }

  /** In every reachable state each live process holds exactly the table of its own position. */
  lemma ReachableInv(s: State)
    requires Reachable(s)
    ensures Inv(s)
  {
    var s0, ls :| Init(s0) && Valid(s0, ls) && s == Exec(s0, ls);
    ExecKeepsInv(s0, ls);
  }
}
