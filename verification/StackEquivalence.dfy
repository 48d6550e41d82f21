/** The two stacks are interchangeable: while nobody dies and nobody is refused the lock, each
    shows exactly the behaviours the other shows. */
module StackEquivalence {
  import Sequences
  import S = SysVStack
  import T = SysVTheorems
  import R = SysVTraces
  import opened PosixStack

  lemma {:induction false} ConsObserved(s: State, l: Label, ls: seq<Label>)
    requires Enabled(s, l) && Valid(Do(s, l), ls)
    ensures Valid(s, [l] + ls)
    ensures Exec(s, [l] + ls) == Exec(Do(s, l), ls)
    ensures Observed(s, [l] + ls) == [Observe(s, l)] + Observed(Do(s, l), ls)
  {
    hide Enabled, Do, Observe;
    assert ([l] + ls)[1..] == ls;
  }

  lemma {:induction false} Cons(s: State, l: Label, ls: seq<Label>)
    requires Enabled(s, l) && Valid(Do(s, l), ls)
    ensures Valid(s, [l] + ls)
    ensures Exec(s, [l] + ls) == Exec(Do(s, l), ls)
    ensures A.Visible(Observed(s, [l] + ls)) == A.Visible([Observe(s, l)]) + A.Visible(Observed(Do(s, l), ls))
  {
    hide Enabled, Do, Observe, Valid, Exec, Observed, A.Visible;
    ConsObserved(s, l, ls);
    A.VisibleConcat([Observe(s, l)], Observed(Do(s, l), ls));
  }

  lemma {:induction false} ObservedConcat(s: State, ls: seq<Label>, ms: seq<Label>)
    requires Valid(s, ls) && Valid(Exec(s, ls), ms)
    ensures Valid(s, ls + ms)
    ensures Observed(s, ls + ms) == Observed(s, ls) + Observed(Exec(s, ls), ms)
    decreases |ls|
  {
    if ls == [] {
      assert ls + ms == ms;
    } else {
      var l, rest, t := ls[0], ls[1..], Do(s, ls[0]);
      hide Enabled, Do, Observe;
      assert Enabled(s, l) && Valid(t, rest) && Exec(s, ls) == Exec(t, rest);
      assert Observed(s, ls) == [Observe(s, l)] + Observed(t, rest);
      hide Valid, Exec, Observed;
      ObservedConcat(t, rest, ms);
      Sequences.Regroup(ls, ms);
      ConsObserved(s, l, rest + ms);
      Sequences.Assoc([Observe(s, l)], Observed(t, rest), Observed(Exec(s, ls), ms));
    }
  }

  lemma {:induction false} Join(s: State, ls: seq<Label>, ms: seq<Label>)
    requires Valid(s, ls) && Valid(Exec(s, ls), ms)
    ensures Valid(s, ls + ms)
    ensures A.Visible(Observed(s, ls + ms)) == A.Visible(Observed(s, ls)) + A.Visible(Observed(Exec(s, ls), ms))
  {
    hide Enabled, Do, Observe, Valid, Exec, Observed, A.Visible;
    ObservedConcat(s, ls, ms);
    A.VisibleConcat(Observed(s, ls), Observed(Exec(s, ls), ms));
  }

  predicate Quiet(s: State) {
    Inv(s) && forall p :: 0 <= p < |s.procs| ==> !Critical(s.procs[p].pc)
  }

  function Distance(pc: Pc): nat {
    match pc
    case PushTest(_) => 5
    case PushIndex(_, _) => 4
    case PushStore(_, _, _) => 3
    case PushPost(_) => 2
    case PopTest => 5
    case PopWait(_) => 4
    case PopIndex(_) => 3
    case PopLoad(_, _) => 2
    case Release(_, _) => 1
    case _ => 0
  }

  lemma HolderMoves(sh: Shared, pr: Proc)
    requires Sound(sh) && Local(sh, pr) && Critical(pr.pc)
    ensures var pc := StepProc(sh, pr).1.pc;
      if pr.pc.Release? then !Critical(pc) else Critical(pc) && Distance(pc) < Distance(pr.pc)
  {
  }

  /** Left alone, the holder of the flag gives it back, having performed its operation once. */
  lemma {:induction false} HolderReleases(s: State, q: nat) returns (ls: seq<Label>)
    requires Inv(s) && q < |s.procs| && Critical(s.procs[q].pc)
    ensures forall i :: 0 <= i < |ls| ==> ls[i] == Label(q, Step)
    ensures Valid(s, ls) && Quiet(Exec(s, ls))
    ensures A.Visible(Observed(s, ls)) == []
    ensures Abs(Exec(s, ls)) ==
      if Client(s.sh, s.procs[q]).Pending? then A.Do(Abs(s), A.Commit(q)) else Abs(s)
    decreases Distance(s.procs[q].pc)
  {
    var l := Label(q, Step);
    HolderNeverBlocks(s, q);
    StepSimulates(s, l);
    assert Local(s.sh, s.procs[q]);
    HolderMoves(s.sh, s.procs[q]);
    HoldersCount(s.procs);
    var t := Do(s, l);
    HolderStep(s, q);
    T.HiddenEvent(Observe(s, l));
    hide Do, Enabled, Observe, StepProc, Distance, Happens, Inv, Client, Valid, Exec, Observed, Quiet;
    hide A.Visible, A.Do, A.Enabled;
    ls := [];
    if !s.procs[q].pc.Release? {
      ls := HolderReleases(t, q);
    } else {
      Nothing(t);
    }
    Cons(s, l, ls);
    ls := [l] + ls;
  }

  lemma Nothing(t: State)
    ensures Valid(t, []) && Exec(t, []) == t && A.Visible(Observed(t, [])) == []
  {
  }

  /** One action of the holder: still inside, or out and the flag free; either way the rest of the
      call comes to the same. */
  lemma HolderStep(s: State, q: nat)
    requires Inv(s) && q < |s.procs| && Critical(s.procs[q].pc) && Enabled(s, Label(q, Step))
    ensures var t, e := Do(s, Label(q, Step)), Observe(s, Label(q, Step));
      && Inv(t) && q < |t.procs| && !e.Call? && !e.Return? && !e.Die?
      && (if s.procs[q].pc.Release? then Quiet(t)
          else Critical(t.procs[q].pc) && Distance(t.procs[q].pc) < Distance(s.procs[q].pc))
      && (if !Client(s.sh, s.procs[q]).Pending? then Abs(t) == Abs(s) && !Client(t.sh, t.procs[q]).Pending?
          else if Client(t.sh, t.procs[q]).Pending? then Abs(t) == Abs(s)
          else Abs(t) == A.Do(Abs(s), A.Commit(q)))
  {
    var l := Label(q, Step);
    StepSimulates(s, l);
    assert Local(s.sh, s.procs[q]);
    HolderMoves(s.sh, s.procs[q]);
    HoldersCount(s.procs);
    MoveSimulates(s.sh, s.procs[q]);
    hide StepProc, Distance, A.Apply, Holders, Local;
  }

  /** A refusal that is never reported may as well not have happened. */
  predicate Agree(c: A.Client, a: A.Client) {
    c == a || (a.Committed? && a.ret == A.Refused && c == A.Pending(a.op))
  }

  predicate Matches(s: State, a: A.Atomic)
    requires Sound(s.sh)
  {
    && Abs(s).stack == a.stack && Abs(s).sizes == a.sizes && |a.clients| == |s.procs|
    && forall p :: 0 <= p < |s.procs| ==> Agree(Abs(s).clients[p], a.clients[p])
  }

  /** Neither a death nor a refused lock is seen. */
  predicate Undisturbed(vis: seq<A.Event>) {
    forall i :: 0 <= i < |vis| ==> !vis[i].Die? && !(vis[i].Return? && vis[i].ret == A.Refused)
  }

  /** A commit is an undisturbed pass through the critical section. */
  lemma {:induction false} RealiseCommit(s: State, a: A.Atomic, p: nat) returns (ls: seq<Label>)
    requires Quiet(s) && Matches(s, a) && A.Enabled(a, A.Commit(p))
    ensures Valid(s, ls) && Quiet(Exec(s, ls)) && Matches(Exec(s, ls), A.Do(a, A.Commit(p)))
    ensures A.Visible(Observed(s, ls)) == []
  {
    var l := Label(p, Step);
    hide StepProc, Local, Holders, Sound, Enabled, Do, Observe, Valid, Exec, Observed, Client, Abs, Agree;
    hide A.Visible, A.Do, A.Enabled;
    PendingToo(s, a, p);
    Enter(s, p);
    var t := Do(s, l);
    var more := HolderReleases(t, p);
    T.HiddenEvent(A.Tau);
    Cons(s, l, more);
    ls := [l] + more;
    MatchesCommit(s, a, p, Exec(s, ls));
  }

  lemma PendingToo(s: State, a: A.Atomic, p: nat)
    requires Sound(s.sh) && Matches(s, a) && A.Enabled(a, A.Commit(p))
    ensures p < |s.procs| && Client(s.sh, s.procs[p]).Pending? && A.Enabled(Abs(s), A.Commit(p))
  {
    assert Agree(Abs(s).clients[p], a.clients[p]);
  }

  lemma MatchesCommit(s: State, a: A.Atomic, p: nat, t: State)
    requires Sound(s.sh) && Sound(t.sh) && Matches(s, a) && A.Enabled(a, A.Commit(p))
    requires A.Enabled(Abs(s), A.Commit(p)) && Abs(t) == A.Do(Abs(s), A.Commit(p))
    ensures Matches(t, A.Do(a, A.Commit(p)))
  {
    hide Client, A.Apply;
    assert Agree(Abs(s).clients[p], a.clients[p]);
    assert |t.procs| == |Abs(t).clients| == |s.procs|;
    forall q | 0 <= q < |t.procs| ensures Agree(Abs(t).clients[q], A.Do(a, A.Commit(p)).clients[q]) {
      assert Agree(Abs(s).clients[q], a.clients[q]);
    }
  }

  lemma Enter(s: State, p: nat)
    requires Quiet(s) && p < |s.procs| && Client(s.sh, s.procs[p]).Pending?
    ensures var l := Label(p, Step);
      && Enabled(s, l) && Observe(s, l) == A.Tau
      && Inv(Do(s, l)) && Abs(Do(s, l)) == Abs(s) && p < |Do(s, l).procs|
      && Critical(Do(s, l).procs[p].pc) && Client(Do(s, l).sh, Do(s, l).procs[p]).Pending?
  {
    assert s.procs[p].pc.Acquire?;
    HoldersCount(s.procs);
    StepSimulates(s, Label(p, Step));
  }

  lemma {:induction false} RealiseOne(s: State, a: A.Atomic, e: A.Event) returns (ls: seq<Label>)
    requires Quiet(s) && Matches(s, a) && A.Enabled(a, e) && Undisturbed(A.Visible([e]))
    ensures Valid(s, ls) && Quiet(Exec(s, ls)) && Matches(Exec(s, ls), A.Do(a, e))
    ensures A.Visible(Observed(s, ls)) == A.Visible([e])
  {
    T.HiddenEvent(e);
    ls := [];
    assert forall i :: 0 <= i < |A.Visible([e])| ==> A.Visible([e])[i] == e;
    if e.Commit? {
      ls := RealiseCommit(s, a, e.p);
    } else if e.Call? || e.Return? {
      assert Agree(Abs(s).clients[e.p], a.clients[e.p]);
      var l := Label(e.p, if e.Call? then Invoke(e.op) else Answer);
      StepSimulates(s, l);
      hide StepProc, A.Visible, A.Apply, Holders, Local;
      Cons(s, l, []);
      ls := [l] + [];
    }
  }

  lemma {:induction false} Realise(s: State, a: A.Atomic, es: seq<A.Event>) returns (ls: seq<Label>)
    requires Quiet(s) && Matches(s, a) && A.Valid(a, es) && Undisturbed(A.Visible(es))
    ensures Valid(s, ls)
    ensures A.Visible(Observed(s, ls)) == A.Visible(es)
    decreases |es|
  {
    hide Enabled, Do, Observe;
    ls := [];
    if es != [] {
      assert [es[0]] + es[1..] == es;
      A.VisibleConcat([es[0]], es[1..]);
      var head, rest := A.Visible([es[0]]), A.Visible(es[1..]);
      assert forall i :: 0 <= i < |head| ==> head[i] == A.Visible(es)[i];
      assert forall i :: 0 <= i < |rest| ==> rest[i] == A.Visible(es)[|head| + i];
      var ms := RealiseOne(s, a, es[0]);
      var ns := Realise(Exec(s, ms), A.Do(a, es[0]), es[1..]);
      Join(s, ms, ns);
      ls := ms + ns;
    }
  }

  ghost predicate ShownByPosix(s: State, vis: seq<A.Event>) {
    exists ls :: Valid(s, ls) && A.Visible(Observed(s, ls)) == vis
  }

  /** Two implementations, one stack: started with the same cells, sizes and waiting callers,
      the old and the new stack show the same calls and answers. */
  lemma {:induction false} SameStack(s: State, v: S.State, vis: seq<A.Event>)
    requires Quiet(s) && R.Quiet(v) && Abs(s) == T.Abs(v)
    requires Undisturbed(vis)
    ensures ShownByPosix(s, vis) <==> R.ShownBy(v, vis)
  {
    R.SameBehaviours(v, vis);
    if ShownByPosix(s, vis) {
      var ls :| Valid(s, ls) && A.Visible(Observed(s, ls)) == vis;
      Linearizable(s, ls);
      assert A.Valid(Abs(s), Observed(s, ls));
    }
    if R.ShownByAtomic(Abs(s), vis) {
      var es :| A.Valid(Abs(s), es) && A.Visible(es) == vis;
      var ls := Realise(s, Abs(s), es);
    }
  }
}
