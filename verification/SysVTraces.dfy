/** What an outside observer can see of Stack/stack.c: exactly the behaviours of the atomic stack,
    provided no process asks for more cells than a semaphore can count. */
module SysVTraces {
  import opened SysVStack
  import opened SysVTheorems

  /** Attaching is over and nobody holds the lock. */
  predicate Quiet(s: State) {
    && Inv(s) && Fits(s)
    && s.sh.flag == 1
    && forall p :: 0 <= p < |s.procs| ==>
         var pc := s.procs[p].pc; pc.Ready? || pc.Acquire? || pc.Returning? || pc.Dead?
  }

  /** A label that is visible from outside is matched by the same atomic event, and back. */
  function LabelOf(e: A.Event): Label
    requires !e.Commit? && !e.Tau?
  {
    match e
    case Call(p, op) => Label(p, Invoke(op))
    case Refuse(p) => Label(p, Fail)
    case Return(p, _) => Label(p, Answer)
    case Die(p) => Label(p, Crash)
  }

  lemma PassIsQuiet(s: State, p: nat)
    requires Quiet(s) && p < |s.procs| && s.procs[p].pc.Acquire?
    requires var t := Finished(Do(s, Label(p, Step)), p); Inv(t) && t.sh.flag == 1
    ensures Quiet(Finished(Do(s, Label(p, Step)), p))
  {
    hide Inv, Finish;
  }

  lemma EntersUnseen(s: State, p: nat)
    requires Quiet(s) && A.Enabled(Abs(s), A.Commit(p))
    ensures p < |s.procs| && s.procs[p].pc.Acquire? && Enabled(s, Label(p, Step))
    ensures var t := Do(s, Label(p, Step));
      && Inv(t) && Fits(t) && p < |t.procs| && Critical(t.procs[p].pc)
      && Client(t.procs[p]).Pending? && Abs(t) == Abs(s)
  {
    assert Clients(s.procs)[p] == Client(s.procs[p]);
    StepSimulates(s, Label(p, Step));
    hide Inv, Clients, Sizes;
  }

  /** A commit is realised by an undisturbed pass through the critical section. */
  lemma {:induction false} RealiseCommit(s: State, p: nat) returns (ls: seq<Label>)
    requires Quiet(s) && A.Enabled(Abs(s), A.Commit(p))
    ensures Valid(s, ls)
    ensures Quiet(Exec(s, ls)) && Abs(Exec(s, ls)) == A.Do(Abs(s), A.Commit(p))
    ensures A.Visible(Observed(s, ls)) == []
  {
    hide Inv, Enabled, Do, Valid, Exec, Observed, A.Visible, Finished, Client, Abs, A.Do, A.Enabled;
    EntersUnseen(s, p);
    ls := PassAlone(s, p);
    FinishCommits(Do(s, Label(p, Step)), p);
    PassIsQuiet(s, p);
  }

  lemma {:induction false} RealiseVisible(s: State, e: A.Event)
    requires Quiet(s) && A.Enabled(Abs(s), e) && !e.Commit? && !e.Tau?
    ensures var l := LabelOf(e);
      && Enabled(s, l)
      && Observe(s, l) == e
      && Quiet(Do(s, l)) && Abs(Do(s, l)) == A.Do(Abs(s), e)
  {
    assert Local(s.sh, s.procs[LabelOf(e).p]);
    StepSimulates(s, LabelOf(e));
  }

  lemma {:induction false} Realise(s: State, es: seq<A.Event>) returns (ls: seq<Label>)
    requires Quiet(s) && A.Valid(Abs(s), es)
    ensures Valid(s, ls)
    ensures A.Visible(Observed(s, ls)) == A.Visible(es)
    decreases |es|
  {
    hide Enabled, Do, Observe;
    ls := [];
    if es != [] {
      var e := es[0];
      if e.Tau? {
        ls := Realise(s, es[1..]);
      } else if e.Commit? {
        var ms := RealiseCommit(s, e.p);
        var ns := Realise(Exec(s, ms), es[1..]);
        Join(s, ms, ns);
        ls := ms + ns;
      } else {
        var l := LabelOf(e);
        RealiseVisible(s, e);
        var ns := Realise(Do(s, l), es[1..]);
        Cons(s, l, ns);
        A.VisibleConcat([e], Observed(Do(s, l), ns));
        assert [e] + es[1..] == es;
        A.VisibleConcat([e], es[1..]);
        ls := [l] + ns;
      }
    }
  }

  ghost predicate ShownBy(s: State, vis: seq<A.Event>) {
    exists ls :: Valid(s, ls) && A.Visible(Observed(s, ls)) == vis
  }

  ghost predicate ShownByAtomic(a: A.Atomic, vis: seq<A.Event>) {
    exists es :: A.Valid(a, es) && A.Visible(es) == vis
  }

  /** Once everyone is attached, the calls, answers and deaths that can be seen are exactly those
      the atomic stack can show: nothing more and nothing less. */
  lemma {:induction false} SameBehaviours(s: State, vis: seq<A.Event>)
    requires Quiet(s)
    ensures ShownBy(s, vis) <==> ShownByAtomic(Abs(s), vis)
  {
    if ShownBy(s, vis) {
      var ls :| Valid(s, ls) && A.Visible(Observed(s, ls)) == vis;
      Linearizable(s, ls);
      assert A.Valid(Abs(s), Observed(s, ls));
    }
    if ShownByAtomic(Abs(s), vis) {
      var es :| A.Valid(Abs(s), es) && A.Visible(es) == vis;
      var ls := Realise(s, es);
    }
  }

  // ---------------------------------------------------------------- the capacity limit

  /** Every run looks from outside like a run of the atomic stack. */
  ghost predicate LooksAtomic(s: State)
    requires Sound(s.sh)
  {
    forall ls :: Valid(s, ls) ==> ShownByAtomic(Abs(s), A.Visible(Observed(s, ls)))
  }

  /** How a run that overran the semaphore ends: the push reports success, yet the next pop
      answers with an older value. */
  function LostPush(p: nat): seq<A.Event> {
    [A.Call(p, A.Push(1)), A.Return(p, A.Pushed), A.Call(p, A.Pop), A.Return(p, A.Got(0))]
  }

  /** Where a client that will show a lost push stands with `n` events to go. */
  predicate DoomedClient(c: A.Client, top: bool, n: nat) {
    match n
    case 0 => false
    case 1 => (c == A.Pending(A.Pop) && top) || (c.Committed? && c.ret != A.Got(0))
    case 2 => c.Idle? && top
    case 3 => c == A.Pending(A.Push(1)) || (c.Committed? && (c.ret == A.Pushed ==> top))
    case _ => true
  }

  predicate TopIsOne(a: A.Atomic) { a.stack != [] && a.stack[|a.stack| - 1] == 1 }

  /** `vis` consists of calls and answers of `p` and ends as a lost push does. */
  predicate EndsLost(p: nat, vis: seq<A.Event>) {
    && (forall i :: 0 <= i < |vis| ==> (vis[i].Call? || vis[i].Return?) && vis[i].p == p)
    && (|vis| >= 1 ==> vis[|vis| - 1] == A.Return(p, A.Got(0)))
    && (|vis| >= 2 ==> vis[|vis| - 2] == A.Call(p, A.Pop))
    && (|vis| >= 3 ==> vis[|vis| - 3] == A.Return(p, A.Pushed))
    && (|vis| >= 4 ==> vis[|vis| - 4] == A.Call(p, A.Push(1)))
  }

  /** Observations which no run of the atomic stack from `a` can show. */
  predicate Doomed(a: A.Atomic, p: nat, vis: seq<A.Event>) {
    && A.Has(a, p)
    && (forall q :: 0 <= q < |a.clients| && q != p ==> a.clients[q].Idle?)
    && EndsLost(p, vis)
    && DoomedClient(a.clients[p], TopIsOne(a), |vis|)
  }

  lemma DoomedHidden(a: A.Atomic, p: nat, e: A.Event, vis: seq<A.Event>)
    requires A.Enabled(a, e) && (e.Commit? || e.Refuse? || e.Tau?) && Doomed(a, p, vis)
    ensures Doomed(A.Do(a, e), p, vis)
  {
  }

  lemma DoomedVisible(a: A.Atomic, p: nat, vis: seq<A.Event>)
    requires vis != [] && A.Enabled(a, vis[0]) && Doomed(a, p, vis)
    ensures Doomed(A.Do(a, vis[0]), p, vis[1..])
  {
  }

  lemma {:induction false} DoomedNeverShown(a: A.Atomic, p: nat, es: seq<A.Event>)
    requires A.Valid(a, es)
    ensures !Doomed(a, p, A.Visible(es))
    decreases |es|
  {
    if es != [] && Doomed(a, p, A.Visible(es)) {
      assert [es[0]] + es[1..] == es;
      A.VisibleConcat([es[0]], es[1..]);
      HiddenEvent(es[0]);
      if es[0].Call? || es[0].Return? || es[0].Die? {
        DoomedVisible(a, p, A.Visible(es));
        assert A.Visible(es)[1..] == A.Visible(es[1..]);
      } else {
        DoomedHidden(a, p, es[0], A.Visible(es));
        assert A.Visible(es) == A.Visible(es[1..]);
      }
      DoomedNeverShown(A.Do(a, es[0]), p, es[1..]);
    }
  }

  /** `p` is attached and idle and nobody holds the lock. */
  predicate Idle(s: State, p: nat) {
    Inv(s) && p < |s.procs| && s.procs[p].pc == Ready && s.sh.flag == 1 && s.sh.raises == 1
  }

  lemma {:induction false} CallEnds(s: State, p: nat, op: A.Op)
    requires Idle(s, p)
    ensures var call, l, answer := Label(p, Invoke(op)), Label(p, Step), Label(p, Answer);
      && Enabled(s, call) && Observe(s, call) == A.Call(p, op)
      && (var s1 := Do(s, call);
          && Inv(s1) && s1.procs[p].pc == Acquire(op) && s1.sh.flag == 1 && Enabled(s1, l)
          && (var s3 := Finished(Do(s1, l), p);
              && Enabled(s3, answer) && Observe(s3, answer) == A.Return(p, Outcome(s.sh, s.semvmx, s.procs[p], op).1)
              && Do(s3, answer) == s.(sh := Outcome(s.sh, s.semvmx, s.procs[p], op).0)))
  {
    StepKeepsInv(s, Label(p, Invoke(op)));
    assert Local(s.sh, s.procs[p]);
    var s3 := Finished(Do(Do(s, Label(p, Invoke(op))), Label(p, Step)), p);
    assert Do(s3, Label(p, Answer)).procs == s.procs;
  }

  /** A whole call with nobody in between: invoke, enter, finish, answer. */
  lemma {:induction false} CallAlone(s: State, p: nat, op: A.Op) returns (ls: seq<Label>)
    requires Idle(s, p)
    ensures Valid(s, ls)
    ensures Exec(s, ls) == s.(sh := Outcome(s.sh, s.semvmx, s.procs[p], op).0)
    ensures Idle(Exec(s, ls), p)
    ensures A.Visible(Observed(s, ls)) == [A.Call(p, op), A.Return(p, Outcome(s.sh, s.semvmx, s.procs[p], op).1)]
  {
    hide StepProc, Finish, EffectOf, Finished, A.Visible;
    var call, answer := Label(p, Invoke(op)), Label(p, Answer);
    CallEnds(s, p, op);
    var s1 := Do(s, call);
    var pass := PassAlone(s1, p);
    var s3 := Exec(s1, pass);
    StepKeepsInv(s3, answer);
    One(s3, answer);
    Join(s1, pass, [answer]);
    Cons(s, call, pass + [answer]);
    ls := [call] + (pass + [answer]);
    A.VisibleConcat([Observe(s, call)], Observed(s1, pass + [answer]));
    HiddenEvent(Observe(s, call));
    HiddenEvent(Observe(s3, answer));
  }

  /** `p` created the segment, larger than the semaphore counts to, and filled `k` cells with 0. */
  predicate Filling(s: State, p: nat, k: nat) {
    && Idle(s, p)
    && s.semvmx < s.procs[p].size == |s.sh.mem|
    && s.sh.count == k <= s.semvmx
    && forall i :: 0 <= i < s.semvmx ==> s.sh.mem[i] == 0
  }

  /** `p` alone on its way through attach_stack as the creator. */
  predicate CreatingAlone(s: State, p: nat) {
    && Inv(s) && p < |s.procs| && 1 <= s.semvmx < s.procs[p].size && s.sh.raises == 0 && s.sh.count == 0
    && match s.procs[p].pc
       case Start => s.sh.seg.Absent?
       case Missing => s.sh.seg.Absent?
       case Created => s.sh.mem == Zeroed(s.procs[p].size)
       case Raising => s.sh.mem == Zeroed(s.procs[p].size)
       case _ => false
  }

  lemma {:induction false} CreateAlone(s: State, p: nat) returns (ls: seq<Label>)
    requires CreatingAlone(s, p)
    ensures Valid(s, ls) && Filling(Exec(s, ls), p, 0) && Exec(s, ls).semvmx == s.semvmx
    ensures A.Visible(Observed(s, ls)) == []
    decreases var pc := s.procs[p].pc;
      if pc.Start? then 3 else if pc.Missing? then 2 else if pc.Created? then 1 else 0
  {
    var l := Label(p, Step);
    StepKeepsInv(s, l);
    MutualExclusion(s);
    assert Local(s.sh, s.procs[p]);
    var t := Do(s, l);
    One(s, l);
    HiddenEvent(Observe(s, l));
    ls := [l];
    if s.procs[p].pc.Raising? {
      CreatorRaisesFromZero(s, p);
    } else {
      var more := CreateAlone(t, p);
      Join(s, [l], more);
      ls := [l] + more;
    }
  }

  lemma {:induction false} FillAlone(s: State, p: nat, k: nat) returns (ls: seq<Label>)
    requires Filling(s, p, k)
    ensures Valid(s, ls) && Filling(Exec(s, ls), p, s.semvmx) && Exec(s, ls).semvmx == s.semvmx
    ensures forall e :: e in A.Visible(Observed(s, ls)) ==> (e.Call? || e.Return?) && e.p == p
    decreases s.semvmx - k
  {
    hide Enabled, Do, Observe, Inv;
    ls := [];
    if k < s.semvmx {
      var call := CallAlone(s, p, A.Push(0));
      var t := Exec(s, call);
      var more := FillAlone(t, p, k + 1);
      ls := call + more;
      Join(s, call, more);
    }
  }

  lemma {:induction false} PushIsLost(s: State, p: nat) returns (ls: seq<Label>)
    requires Filling(s, p, s.semvmx) && s.semvmx >= 1
    ensures Valid(s, ls) && A.Visible(Observed(s, ls)) == LostPush(p)
  {
    hide Enabled, Do, Observe, Inv;
    var push := CallAlone(s, p, A.Push(1));
    var t := Exec(s, push);
    var pop := CallAlone(t, p, A.Pop);
    Join(s, push, pop);
    ls := push + pop;
  }

  lemma LostAtTheEnd(p: nat, early: seq<A.Event>)
    requires forall e :: e in early ==> (e.Call? || e.Return?) && e.p == p
    ensures EndsLost(p, early + LostPush(p)) && |early + LostPush(p)| >= 4
  {
    var vis := early + LostPush(p);
    forall i | 0 <= i < |vis| ensures (vis[i].Call? || vis[i].Return?) && vis[i].p == p {
      if i < |early| { assert vis[i] in early; }
    }
  }

  lemma {:induction false} FillAndLose(s: State, p: nat) returns (ls: seq<Label>)
    requires Filling(s, p, 0) && s.semvmx >= 1
    ensures Valid(s, ls) && EndsLost(p, A.Visible(Observed(s, ls)))
    ensures |A.Visible(Observed(s, ls))| >= 4
  {
    hide Enabled, Do, Observe, Valid, Exec, Observed, A.Visible, EndsLost, LostPush, Filling;
    var fill := FillAlone(s, p, 0);
    var t := Exec(s, fill);
    var lost := PushIsLost(t, p);
    Join(s, fill, lost);
    ls := fill + lost;
    LostAtTheEnd(p, A.Visible(Observed(s, fill)));
  }

  /** A process that asks for more cells than the semaphore counts to can lose a push. */
  lemma {:induction false} Overrun(s: State, p: nat) returns (ls: seq<Label>)
    requires CreatingAlone(s, p)
    ensures Valid(s, ls) && EndsLost(p, A.Visible(Observed(s, ls)))
    ensures |A.Visible(Observed(s, ls))| >= 4
  {
    hide Enabled, Do, Observe;
    var create := CreateAlone(s, p);
    var lose := FillAndLose(Exec(s, create), p);
    Join(s, create, lose);
    ls := create + lose;
  }

  /** stack.c ignores a COUNT raise that fails, so from a fresh start its behaviours are those
      of an atomic stack exactly when no process asks for more cells than a semaphore can count. */
  lemma {:induction false} AtomicExactlyWhenCountable(s: State)
    requires Init(s)
    ensures Inv(s)
    ensures LooksAtomic(s) <==> Fits(s)
  {
    InitInv(s);
    if Fits(s) {
      forall ls | Valid(s, ls) ensures ShownByAtomic(Abs(s), A.Visible(Observed(s, ls))) {
        Linearizable(s, ls);
      }
    } else {
      var p :| 0 <= p < |s.procs| && s.procs[p].size > s.semvmx;
      var ls := Overrun(s, p);
      var vis := A.Visible(Observed(s, ls));
      assert Doomed(Abs(s), p, vis);
      forall es | A.Valid(Abs(s), es) ensures A.Visible(es) != vis {
        DoomedNeverShown(Abs(s), p, es);
      }
    }
  }
}
