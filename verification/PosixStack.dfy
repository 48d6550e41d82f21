/** The stack of Stack/stack_old.c in its infinite-wait mode: the same calls over two POSIX
    semaphores.  Its pop lowers the count before it reads the cell, where stack.c reads first. */
module PosixStack {
  import A = AtomicStack

  datatype Pc =
    | Ready
    | Acquire(op: A.Op)                            // about to sem_wait(flag)
    | PushTest(v: A.Val)
    | PushIndex(v: A.Val, seen: int)
    | PushStore(v: A.Val, seen: int, idx: int)
    | PushPost(v: A.Val)                           // about to sem_post(count)
    | PopTest
    | PopWait(seen: int)                           // about to sem_wait(count)
    | PopIndex(seen: int)
    | PopLoad(seen: int, idx: int)
    | Release(done: A.Op, ret: A.Ret)              // about to sem_post(flag)
    | Returning(done: A.Op, ret: A.Ret)

  datatype Proc = Proc(pc: Pc, size: int)

  datatype Shared = Shared(flag: int, count: int, mem: seq<A.Val>)

  datatype State = State(sh: Shared, procs: seq<Proc>)

  datatype Action = Step | Invoke(op: A.Op) | Answer

  datatype Label = Label(p: nat, act: Action)

  /** Accesses outside the segment have no defined effect; states within `Inv` make none. */
  function Load(sh: Shared, i: int): A.Val { if 0 <= i < |sh.mem| then sh.mem[i] else 0 }

  function Store(sh: Shared, i: int, v: A.Val): Shared {
    if 0 <= i < |sh.mem| then sh.(mem := sh.mem[i := v]) else sh
  }

  predicate Enabled(s: State, l: Label) {
    && l.p < |s.procs|
    && var pc := s.procs[l.p].pc;
       match l.act
       case Step =>
         && !pc.Ready? && !pc.Returning?
         && (pc.Acquire? ==> s.sh.flag >= 1)
         && (pc.PopWait? ==> s.sh.count >= 1)
       case Invoke(_) => pc.Ready?
       case Answer => pc.Returning?
  }

  function StepProc(sh: Shared, pr: Proc): (Shared, Proc) {
    match pr.pc
    case Acquire(op) =>
      (sh.(flag := sh.flag - 1), pr.(pc := if op.Push? then PushTest(op.val) else PopTest))
    case PushTest(v) =>
      (sh, pr.(pc := if sh.count >= pr.size then Release(A.Push(v), A.Full) else PushIndex(v, sh.count)))
    case PushIndex(v, seen) => (sh, pr.(pc := PushStore(v, seen, sh.count)))
    case PushStore(v, _, idx) => (Store(sh, idx, v), pr.(pc := PushPost(v)))
    case PushPost(v) => (sh.(count := sh.count + 1), pr.(pc := Release(A.Push(v), A.Pushed)))
    case PopTest =>
      (sh, pr.(pc := if sh.count == 0 then Release(A.Pop, A.Empty) else PopWait(sh.count)))
    case PopWait(seen) => (sh.(count := sh.count - 1), pr.(pc := PopIndex(seen)))
    case PopIndex(seen) => (sh, pr.(pc := PopLoad(seen, sh.count)))
    case PopLoad(_, idx) => (sh, pr.(pc := Release(A.Pop, A.Got(Load(sh, idx)))))
    case Release(op, ret) => (sh.(flag := sh.flag + 1), pr.(pc := Returning(op, ret)))
    case _ => (sh, pr)
  }

  function Do(s: State, l: Label): State
    requires Enabled(s, l)
  {
    var pr := s.procs[l.p];
    match l.act
    case Step =>
      var r := StepProc(s.sh, pr);
      State(r.0, s.procs[l.p := r.1])
    case Invoke(op) => s.(procs := s.procs[l.p := pr.(pc := Acquire(op))])
    case Answer => s.(procs := s.procs[l.p := pr.(pc := Ready)])
  }

  predicate Valid(s: State, ls: seq<Label>)
    decreases |ls|
  {
    ls == [] || (Enabled(s, ls[0]) && Valid(Do(s, ls[0]), ls[1..]))
  }

  function Exec(s: State, ls: seq<Label>): State
    requires Valid(s, ls)
    decreases |ls|
  {
    if ls == [] then s else Exec(Do(s, ls[0]), ls[1..])
  }

  // ---------------------------------------------------------------- invariant

  predicate Critical(pc: Pc) { !pc.Ready? && !pc.Acquire? && !pc.Returning? }

  /** How many processes are between sem_wait(flag) and sem_post(flag). */
  function Holders(procs: seq<Proc>): nat {
    if procs == [] then 0 else (if Critical(procs[0].pc) then 1 else 0) + Holders(procs[1..])
  }

  predicate Sound(sh: Shared) {
    0 <= sh.count <= |sh.mem| && 0 <= sh.flag
  }

  predicate Local(sh: Shared, pr: Proc)
    requires Sound(sh)
  {
    && pr.size <= |sh.mem|
    && match pr.pc
       case PushIndex(_, seen) => seen == sh.count < pr.size
       case PushStore(_, seen, idx) => seen == idx == sh.count < pr.size
       case PushPost(v) => sh.count < pr.size && sh.mem[sh.count] == v
       case PopWait(seen) => seen == sh.count > 0
       case PopIndex(seen) => seen == sh.count + 1 <= |sh.mem|
       case PopLoad(seen, idx) => seen == idx + 1 == sh.count + 1 <= |sh.mem|
       case _ => true
  }

  /** FLAG and the number of holders always add up to 1. */
  predicate Inv(s: State) {
    && Sound(s.sh)
    && s.sh.flag + Holders(s.procs) == 1
    && forall p :: 0 <= p < |s.procs| ==> Local(s.sh, s.procs[p])
  }

  /** After the creator has posted the flag: nothing stored, nobody inside. */
  predicate Start(s: State) {
    && s.sh.flag == 1 && s.sh.count == 0
    && forall p :: 0 <= p < |s.procs| ==> s.procs[p].pc.Ready? && s.procs[p].size <= |s.sh.mem|
  }

  lemma StartInv(s: State)
    requires Start(s)
    ensures Inv(s) && Abs(s).stack == []
  {
    HoldersCount(s.procs);
  }

  lemma {:induction false} HoldersUpdate(procs: seq<Proc>, p: nat, pr: Proc)
    requires p < |procs|
    ensures Holders(procs[p := pr]) + (if Critical(procs[p].pc) then 1 else 0)
         == Holders(procs) + (if Critical(pr.pc) then 1 else 0)
  {
    if p == 0 {
      assert procs[0 := pr][1..] == procs[1..];
    } else {
      HoldersUpdate(procs[1..], p - 1, pr);
      assert procs[p := pr][1..] == procs[1..][p - 1 := pr];
    }
  }

  lemma {:induction false} HoldersCount(procs: seq<Proc>)
    ensures Holders(procs) == 0 <==> forall p :: 0 <= p < |procs| ==> !Critical(procs[p].pc)
    ensures Holders(procs) <= 1 ==>
      forall p, q :: 0 <= p < q < |procs| ==> !(Critical(procs[p].pc) && Critical(procs[q].pc))
  {
    if procs != [] {
      HoldersCount(procs[1..]);
      assert forall p :: 0 < p < |procs| ==> procs[p] == procs[1..][p - 1];
      assert forall p :: 0 <= p < |procs| - 1 ==> procs[1..][p] == procs[p + 1];
    }
  }

  /** pop's wait on the count semaphore never sleeps, and neither does any other action taken
      while the flag is held; reads of the count inside one call agree. */
  lemma HolderNeverBlocks(s: State, p: nat)
    requires Inv(s) && p < |s.procs| && Critical(s.procs[p].pc)
    ensures Enabled(s, Label(p, Step))
    ensures var pc := s.procs[p].pc;
      && (pc.PushStore? ==> pc.seen == pc.idx == s.sh.count && 0 <= pc.idx < |s.sh.mem|)
      && (pc.PopLoad? ==> pc.seen == pc.idx + 1 == s.sh.count + 1 && 0 <= pc.idx < |s.sh.mem|)
  {
    assert Local(s.sh, s.procs[p]);
  }

  // ---------------------------------------------------------------- abstraction

  /** Between lowering the count and reading the cell, pop's answer is already settled. */
  function Client(sh: Shared, pr: Proc): A.Client {
    match pr.pc
    case Ready => A.Idle
    case Acquire(op) => A.Pending(op)
    case PushTest(v) => A.Pending(A.Push(v))
    case PushIndex(v, _) => A.Pending(A.Push(v))
    case PushStore(v, _, _) => A.Pending(A.Push(v))
    case PushPost(v) => A.Pending(A.Push(v))
    case PopTest => A.Pending(A.Pop)
    case PopWait(_) => A.Pending(A.Pop)
    case PopIndex(_) => A.Committed(A.Pop, A.Got(Load(sh, sh.count)))
    case PopLoad(_, idx) => A.Committed(A.Pop, A.Got(Load(sh, idx)))
    case Release(op, ret) => A.Committed(op, ret)
    case Returning(op, ret) => A.Committed(op, ret)
  }

  function Abs(s: State): A.Atomic
    requires Sound(s.sh)
  {
    A.Atomic(s.sh.mem[..s.sh.count],
             seq(|s.procs|, i requires 0 <= i < |s.procs| => s.procs[i].size),
             seq(|s.procs|, i requires 0 <= i < |s.procs| => Client(s.sh, s.procs[i])))
  }

  predicate Happens(sh: Shared, pr: Proc) {
    pr.pc.PushPost? || pr.pc.PopWait? || (pr.pc.PushTest? && sh.count >= pr.size)
    || (pr.pc.PopTest? && sh.count == 0)
  }

  function Observe(s: State, l: Label): A.Event
    requires Enabled(s, l)
  {
    var pr := s.procs[l.p];
    match l.act
    case Step => if Happens(s.sh, pr) then A.Commit(l.p) else A.Tau
    case Invoke(op) => A.Call(l.p, op)
    case Answer => A.Return(l.p, pr.pc.ret)
  }

  function Observed(s: State, ls: seq<Label>): seq<A.Event>
    requires Valid(s, ls)
    decreases |ls|
  {
    if ls == [] then [] else [Observe(s, ls[0])] + Observed(Do(s, ls[0]), ls[1..])
  }

  // ---------------------------------------------------------------- linearizability

  /** The action keeps the mover's knowledge and the balance of the flag, and is silent or performs
      the whole call. */
  predicate MovesWell(sh: Shared, pr: Proc)
    requires Sound(sh)
  {
    var (sh', pr') := StepProc(sh, pr);
    && Sound(sh') && Local(sh', pr')
    && sh'.flag + (if Critical(pr'.pc) then 1 else 0) == sh.flag + (if Critical(pr.pc) then 1 else 0)
    && var stack, stack' := sh.mem[..sh.count], sh'.mem[..sh'.count];
       if Happens(sh, pr) then
         && Client(sh, pr).Pending?
         && var r := A.Apply(stack, Client(sh, pr).op, pr.size);
            stack' == r.0 && Client(sh', pr') == A.Committed(Client(sh, pr).op, r.1)
       else stack' == stack && Client(sh', pr') == Client(sh, pr)
  }

  lemma PushSimulates(sh: Shared, pr: Proc)
    requires Sound(sh) && Local(sh, pr)
    requires pr.pc.PushTest? || pr.pc.PushIndex? || pr.pc.PushStore? || pr.pc.PushPost?
    ensures MovesWell(sh, pr)
  {
    var (sh', pr') := StepProc(sh, pr);
    if pr.pc.PushPost? {
      assert sh'.mem[..sh'.count] == sh.mem[..sh.count] + [pr.pc.v];
    } else if pr.pc.PushStore? {
      assert sh'.mem[..sh.count] == sh.mem[..sh.count];
    }
  }

  lemma PopSimulates(sh: Shared, pr: Proc)
    requires Sound(sh) && Local(sh, pr)
    requires pr.pc.PopTest? || pr.pc.PopWait? || pr.pc.PopIndex? || pr.pc.PopLoad?
    ensures MovesWell(sh, pr)
  {
    var (sh', pr') := StepProc(sh, pr);
    if pr.pc.PopWait? {
      assert sh.mem[..sh.count][..sh.count - 1] == sh'.mem[..sh'.count];
    }
  }

  lemma MoveSimulates(sh: Shared, pr: Proc)
    requires Sound(sh) && Local(sh, pr)
    requires pr.pc.Acquire? ==> sh.flag >= 1
    ensures MovesWell(sh, pr)
  {
    if pr.pc.PushTest? || pr.pc.PushIndex? || pr.pc.PushStore? || pr.pc.PushPost? {
      PushSimulates(sh, pr);
    } else if pr.pc.PopTest? || pr.pc.PopWait? || pr.pc.PopIndex? || pr.pc.PopLoad? {
      PopSimulates(sh, pr);
    }
  }

  lemma MoveOther(sh: Shared, pr: Proc, other: Proc)
    requires Sound(sh) && Local(sh, pr) && Local(sh, other)
    requires pr.pc.Acquire? ==> sh.flag >= 1
    requires (Critical(pr.pc) || pr.pc.Acquire?) && !Critical(other.pc)
    ensures Sound(StepProc(sh, pr).0) && Local(StepProc(sh, pr).0, other)
    ensures Client(StepProc(sh, pr).0, other) == Client(sh, other)
  {
    MoveSimulates(sh, pr);
  }

  lemma AbsUpdate(s: State, t: State, p: nat, pr: Proc)
    requires Sound(s.sh) && Sound(t.sh) && p < |s.procs|
    requires t.procs == s.procs[p := pr] && pr.size == s.procs[p].size
    requires forall q :: 0 <= q < |s.procs| && q != p ==> Client(t.sh, s.procs[q]) == Client(s.sh, s.procs[q])
    ensures Abs(t) == A.Atomic(t.sh.mem[..t.sh.count], Abs(s).sizes, Abs(s).clients[p := Client(t.sh, pr)])
    ensures Client(t.sh, pr) == Client(s.sh, s.procs[p]) ==> Abs(t).clients == Abs(s).clients
  {
    hide Client;
    assert Abs(t).clients == Abs(s).clients[p := Client(t.sh, pr)];
    assert Abs(t).sizes == Abs(s).sizes;
  }

  /** Everyone but the mover is left as they were. */
  lemma OthersKeep(s: State, p: nat)
    requires Inv(s) && Enabled(s, Label(p, Step))
    ensures var t := Do(s, Label(p, Step));
      && Sound(t.sh)
      && forall q :: 0 <= q < |s.procs| && q != p ==>
           Local(t.sh, s.procs[q]) && Client(t.sh, s.procs[q]) == Client(s.sh, s.procs[q])
  {
    var t, pr := Do(s, Label(p, Step)), s.procs[p];
    HoldersCount(s.procs);
    HoldersUpdate(s.procs, p, t.procs[p]);
    assert Local(s.sh, pr);
    MoveSimulates(s.sh, pr);
    hide StepProc, Client, A.Apply, Happens;
    forall q | 0 <= q < |s.procs| && q != p
      ensures Local(t.sh, s.procs[q]) && Client(t.sh, s.procs[q]) == Client(s.sh, s.procs[q])
    {
      assert Local(s.sh, s.procs[q]) && !Critical(s.procs[q].pc);
      MoveOther(s.sh, pr, s.procs[q]);
    }
  }

  lemma ActionSimulates(s: State, p: nat)
    requires Inv(s) && Enabled(s, Label(p, Step))
    ensures Inv(Do(s, Label(p, Step)))
    ensures A.Enabled(Abs(s), Observe(s, Label(p, Step)))
    ensures A.Do(Abs(s), Observe(s, Label(p, Step))) == Abs(Do(s, Label(p, Step)))
  {
    var t, pr := Do(s, Label(p, Step)), s.procs[p];
    assert Local(s.sh, pr);
    assert t.procs == s.procs[p := StepProc(s.sh, pr).1] && StepProc(s.sh, pr).1.size == pr.size;
    HoldersUpdate(s.procs, p, t.procs[p]);
    MoveSimulates(s.sh, pr);
    OthersKeep(s, p);
    hide StepProc, Client, Local, Sound, A.Apply, Happens, Holders, Critical;
    AbsUpdate(s, t, p, t.procs[p]);
    assert Abs(s).clients[p] == Client(s.sh, pr) && Abs(s).sizes[p] == pr.size;
    assert Abs(s).stack == s.sh.mem[..s.sh.count];
    assert |Abs(s).clients| == |Abs(s).sizes| == |s.procs|;
    hide Abs;
  }

  lemma OtherSimulates(s: State, l: Label)
    requires Inv(s) && Enabled(s, l) && !l.act.Step?
    ensures Inv(Do(s, l))
    ensures A.Enabled(Abs(s), Observe(s, l))
    ensures A.Do(Abs(s), Observe(s, l)) == Abs(Do(s, l))
  {
    var t, pr := Do(s, l), s.procs[l.p];
    HoldersUpdate(s.procs, l.p, t.procs[l.p]);
    assert Local(s.sh, pr);
    hide StepProc, A.Apply, Happens, Holders;
    AbsUpdate(s, t, l.p, t.procs[l.p]);
  }

  lemma {:induction false} StepSimulates(s: State, l: Label)
    requires Inv(s) && Enabled(s, l)
    ensures Inv(Do(s, l))
    ensures A.Enabled(Abs(s), Observe(s, l))
    ensures A.Do(Abs(s), Observe(s, l)) == Abs(Do(s, l))
  {
    if l.act.Step? {
      ActionSimulates(s, l.p);
    } else {
      OtherSimulates(s, l);
    }
  }

  /** Every run is a run of the atomic stack, each call taking effect where it changes or tests
      the count. */
  lemma {:induction false} Linearizable(s: State, ls: seq<Label>)
    requires Inv(s) && Valid(s, ls)
    ensures Inv(Exec(s, ls))
    ensures A.Valid(Abs(s), Observed(s, ls))
    ensures A.Exec(Abs(s), Observed(s, ls)) == Abs(Exec(s, ls))
    decreases |ls|
  {
    if ls != [] {
      StepSimulates(s, ls[0]);
      Linearizable(Do(s, ls[0]), ls[1..]);
      assert Observed(s, ls)[1..] == Observed(Do(s, ls[0]), ls[1..]);
    }
  }
}
