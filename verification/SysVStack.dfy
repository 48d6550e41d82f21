/** The stack of Stack/stack.c as a transition system.  One label is one indivisible action of
    one process: a system call, a read of COUNT, or one access to the shared cells.  Any process
    may move next, and any process may die between two of its actions; the kernel then applies
    its SEM_UNDO adjustment. */
module SysVStack {
  import opened AtomicStack

  datatype Segment = Absent | Present(size: int)

  datatype Pc =
    | Start                                        // about to look the segment up
    | Found                                        // segment found, about to look the semaphores up
    | Missing                                      // not found, about to create the segment
    | Created                                      // segment created, about to create the semaphores
    | Raising                                      // semaphores created, about to raise FLAG without undo
    | Rejected                                     // attach_stack returned NULL
    | Ready                                        // attached, no call in progress
    | Acquire(op: Op)                              // about to lower FLAG with undo
    | PushTest(v: Val)
    | PushIndex(v: Val, seen: int)                 // capacity test passed with this COUNT
    | PushStore(v: Val, seen: int, idx: int)       // second read of COUNT done
    | PushCount(v: Val)
    | PopTest
    | PopIndex(seen: int)
    | PopLoad(seen: int, idx: int)
    | PopCount(x: Val)
    | Release(done: Op, ret: Ret)                  // about to raise FLAG with undo
    | Returning(done: Op, ret: Ret)
    | Dead

  datatype Proc = Proc(pc: Pc, size: int, undo: int)

  /** What the processes share.  `creators` and `raises` count successful segment creations and
      initial raises of FLAG; no step reads them. */
  datatype Shared = Shared(seg: Segment, sems: bool, flag: int, count: int, mem: seq<Val>,
                           creators: nat, raises: nat)

  /** `semvmx` is the largest value the system allows a semaphore. */
  datatype State = State(sh: Shared, procs: seq<Proc>, semvmx: nat)

  datatype Action = Step | Fail | Invoke(op: Op) | Answer | Crash

  datatype Label = Label(p: nat, act: Action)

  // ---------------------------------------------------------------- shared accesses

  function FlagDown(sh: Shared): Shared { sh.(flag := sh.flag - 1) }
  function FlagUp(sh: Shared): Shared { sh.(flag := sh.flag + 1) }
  /** sem_change on COUNT; its result is ignored by push, so a failing raise changes nothing. */
  function CountUp(sh: Shared, semvmx: nat): Shared {
    if sh.count + 1 > semvmx then sh else sh.(count := sh.count + 1)
  }
  function CountDown(sh: Shared): Shared { sh.(count := sh.count - 1) }
  /** Accesses outside the segment have no defined effect; `Reachable` states make none. */
  function Store(sh: Shared, i: int, v: Val): Shared {
    if 0 <= i < |sh.mem| then sh.(mem := sh.mem[i := v]) else sh
  }
  function Load(sh: Shared, i: int): Val { if 0 <= i < |sh.mem| then sh.mem[i] else 0 }
  function Zeroed(size: nat): seq<Val> { seq(size, i => 0) }

  // ---------------------------------------------------------------- steps

  predicate Init(s: State) {
    && s.sh == Shared(Absent, false, 0, 0, [], 0, 0)
    && s.semvmx >= 1
    && forall p :: 0 <= p < |s.procs| ==> s.procs[p].pc == Start && s.procs[p].undo == 0
  }

  predicate Enabled(s: State, l: Label) {
    && l.p < |s.procs|
    && var pc := s.procs[l.p].pc;
       match l.act
       case Step =>
         && !pc.Ready? && !pc.Returning? && !pc.Dead? && !pc.Rejected?
         && (pc.Acquire? ==> s.sh.flag >= 1)
         && (pc.PopCount? ==> s.sh.count >= 1)
       case Fail => pc.Acquire?
       case Invoke(_) => pc.Ready?
       case Answer => pc.Returning?
       case Crash => !pc.Dead?
  }

  /** The next action of a process in state `pr`. */
  function StepProc(sh: Shared, semvmx: nat, pr: Proc): (Shared, Proc) {
    match pr.pc
    case Start =>
      if sh.seg.Absent? then (sh, pr.(pc := Missing))
      // shmget takes the size as unsigned, so a negative one is larger than any segment
      else if pr.size < 0 || pr.size > sh.seg.size then (sh, pr.(pc := Rejected))
      else (sh, pr.(pc := Found))
    case Found => (sh, pr.(pc := if sh.sems then Ready else Rejected))
    case Missing =>
      // a failed creation trips the assertion and aborts the process
      if sh.seg.Present? || pr.size < 1 then (sh, pr.(pc := Dead))
      else (sh.(seg := Present(pr.size), mem := Zeroed(pr.size), creators := sh.creators + 1),
            pr.(pc := Created))
    case Created => if sh.sems then (sh, pr.(pc := Rejected)) else (sh.(sems := true), pr.(pc := Raising))
    case Raising => (FlagUp(sh).(raises := sh.raises + 1), pr.(pc := Ready))
    case Acquire(op) =>
      (FlagDown(sh), pr.(undo := pr.undo + 1, pc := if op.Push? then PushTest(op.val) else PopTest))
    case PushTest(v) =>
      (sh, pr.(pc := if sh.count >= pr.size then Release(Push(v), Full) else PushIndex(v, sh.count)))
    case PushIndex(v, seen) => (sh, pr.(pc := PushStore(v, seen, sh.count)))
    case PushStore(v, _, idx) => (Store(sh, idx, v), pr.(pc := PushCount(v)))
    case PushCount(v) => (CountUp(sh, semvmx), pr.(pc := Release(Push(v), Pushed)))
    case PopTest =>
      (sh, pr.(pc := if sh.count == 0 then Release(Pop, Empty) else PopIndex(sh.count)))
    case PopIndex(seen) => (sh, pr.(pc := PopLoad(seen, sh.count - 1)))
    case PopLoad(_, idx) => (sh, pr.(pc := PopCount(Load(sh, idx))))
    case PopCount(x) => (CountDown(sh), pr.(pc := Release(Pop, Got(x))))
    case Release(op, ret) => (FlagUp(sh), pr.(undo := pr.undo - 1, pc := Returning(op, ret)))
    case _ => (sh, pr)
  }

  function Do(s: State, l: Label): State
    requires Enabled(s, l)
  {
    var pr := s.procs[l.p];
    match l.act
    case Step =>
      var r := StepProc(s.sh, s.semvmx, pr);
      s.(sh := r.0, procs := s.procs[l.p := r.1])
    case Fail => s.(procs := s.procs[l.p := pr.(pc := Returning(pr.pc.op, Refused))])
    case Invoke(op) => s.(procs := s.procs[l.p := pr.(pc := Acquire(op))])
    case Answer => s.(procs := s.procs[l.p := pr.(pc := Ready)])
    case Crash =>
      s.(sh := s.sh.(flag := s.sh.flag + pr.undo), procs := s.procs[l.p := pr.(pc := Dead, undo := 0)])
  }

  predicate Valid(s: State, ls: seq<Label>)
    decreases |ls|
  {
    ls == [] || (Enabled(s, ls[0]) && Valid(Do(s, ls[0]), ls[1..]))
  }

  function Exec(s: State, ls: seq<Label>): State
    requires Valid(s, ls)
    decreases |ls|
  {
    if ls == [] then s else Exec(Do(s, ls[0]), ls[1..])
  }

  lemma {:induction false} ExecConcat(s: State, ls: seq<Label>, ms: seq<Label>)
    requires Valid(s, ls)
    requires Valid(Exec(s, ls), ms)
    ensures Valid(s, ls + ms)
    ensures Exec(s, ls + ms) == Exec(Exec(s, ls), ms)
    decreases |ls|
  {
    hide Enabled, Do;
    if ls == [] {
      assert ls + ms == ms;
    } else {
      ExecConcat(Do(s, ls[0]), ls[1..], ms);
      assert (ls + ms)[1..] == ls[1..] + ms;
    }
  }

  ghost predicate Reachable(s: State) {
    exists s0, ls :: Init(s0) && Valid(s0, ls) && s == Exec(s0, ls)
  }

  // ---------------------------------------------------------------- invariant

  /** Between a successful lowering of FLAG and the raise that pairs with it. */
  predicate Critical(pc: Pc) {
    pc.PushTest? || pc.PushIndex? || pc.PushStore? || pc.PushCount?
    || pc.PopTest? || pc.PopIndex? || pc.PopLoad? || pc.PopCount? || pc.Release?
  }

  predicate Creating(pc: Pc) { pc.Created? || pc.Raising? }

  predicate Attached(pc: Pc) {
    Critical(pc) || pc.Found? || pc.Ready? || pc.Acquire? || pc.Returning? || Creating(pc)
  }

  function UndoSum(procs: seq<Proc>): int {
    if procs == [] then 0 else procs[0].undo + UndoSum(procs[1..])
  }

  /** What holds of the shared part alone. */
  predicate Sound(sh: Shared) {
    && |sh.mem| == (if sh.seg.Present? then sh.seg.size else 0)
    && sh.creators == (if sh.seg.Present? then 1 else 0)
    && (sh.sems ==> sh.seg.Present?)
    && sh.raises <= (if sh.sems then 1 else 0)
    && 0 <= sh.count <= |sh.mem|
    && 0 <= sh.flag
  }

  /** What the holder of the lock knows about COUNT and the cells. */
  predicate Holding(sh: Shared, pr: Proc)
    requires Sound(sh)
  {
    match pr.pc
    case PushIndex(_, seen) => seen == sh.count < pr.size
    case PushStore(_, seen, idx) => seen == idx == sh.count < pr.size
    case PushCount(v) => sh.count < pr.size && sh.count < |sh.mem| && sh.mem[sh.count] == v
    case PopIndex(seen) => seen == sh.count && sh.count > 0
    case PopLoad(seen, idx) => seen == sh.count && sh.count > 0 && idx == seen - 1
    case PopCount(x) => sh.count > 0 && sh.mem[sh.count - 1] == x
    case _ => true
  }

  /** What holds of one process, whatever the others do. */
  predicate Local(sh: Shared, pr: Proc)
    requires Sound(sh)
  {
    && pr.undo == (if Critical(pr.pc) then 1 else 0)
    && (Attached(pr.pc) ==> sh.seg.Present? && 0 <= pr.size <= sh.seg.size)
    && (pr.pc.Created? ==> !sh.sems)
    && (pr.pc.Raising? ==> sh.sems && sh.raises == 0)
    && (pr.pc.Ready? || pr.pc.Acquire? || pr.pc.Returning? || Critical(pr.pc) ==> sh.sems)
    && (Critical(pr.pc) ==> sh.raises == 1 && Holding(sh, pr))
  }

  /** FLAG plus every pending undo adjustment is 1 once FLAG has been raised, 0 before. */
  predicate Inv(s: State) {
    && Sound(s.sh)
    && s.sh.flag + UndoSum(s.procs) == s.sh.raises
    && (forall p :: 0 <= p < |s.procs| ==> Local(s.sh, s.procs[p]))
    && (forall p, q :: 0 <= p < q < |s.procs| ==> !(Creating(s.procs[p].pc) && Creating(s.procs[q].pc)))
  }

  lemma {:induction false} UndoUpdate(procs: seq<Proc>, p: nat, pr: Proc)
    requires p < |procs|
    ensures UndoSum(procs[p := pr]) == UndoSum(procs) - procs[p].undo + pr.undo
  {
    if p == 0 {
      assert procs[0 := pr][1..] == procs[1..];
    } else {
      UndoUpdate(procs[1..], p - 1, pr);
      assert procs[p := pr][1..] == procs[1..][p - 1 := pr];
    }
  }

  function Adjusted(procs: seq<Proc>): set<nat> {
    set p: nat | p < |procs| && procs[p].undo == 1
  }

  lemma {:induction false} ShiftKeepsSize(a: set<nat>, b: set<nat>)
    requires forall p: nat :: p in b <==> p > 0 && p - 1 in a
    ensures |a| == |b|
    decreases |a|
  {
    if p :| p in a {
      assert p + 1 in b;
      ShiftKeepsSize(a - {p}, b - {p + 1});
    } else {
      assert a == {};
      assert b == {};
    }
  }

  lemma AdjustedCount(procs: seq<Proc>)
    requires procs != []
    ensures |Adjusted(procs)| == |Adjusted(procs[1..])| + if procs[0].undo == 1 then 1 else 0
  {
    var all, rest := Adjusted(procs), Adjusted(procs[1..]);
    var later := all - {0};
    assert 0 in all <==> procs[0].undo == 1;
    forall p: nat ensures p in later <==> p > 0 && p - 1 in rest {
      if 0 < p < |procs| { assert procs[1..][p - 1] == procs[p]; }
    }
    hide Adjusted;
    ShiftKeepsSize(rest, later);
    assert 0 in all ==> all == later + {0};
    assert 0 !in all ==> all == later;
  }

  /** With adjustments of 0 or 1 their sum is the number of processes that hold one. */
  lemma {:induction false} UndoIsCount(procs: seq<Proc>)
    requires forall p :: 0 <= p < |procs| ==> procs[p].undo == 0 || procs[p].undo == 1
    ensures UndoSum(procs) == |Adjusted(procs)|
  {
    if procs == [] {
      assert Adjusted(procs) == {};
    } else {
      hide Adjusted;
      UndoIsCount(procs[1..]);
      AdjustedCount(procs);
    }
  }

  /** Which processes those are decides the sum's small values. */
  lemma {:induction false} UndoCounts(procs: seq<Proc>)
    requires forall p :: 0 <= p < |procs| ==> procs[p].undo == 0 || procs[p].undo == 1
    ensures UndoSum(procs) >= 0
    ensures UndoSum(procs) == 0 <==> forall p :: 0 <= p < |procs| ==> procs[p].undo == 0
    ensures UndoSum(procs) <= 1 ==>
      forall p, q :: 0 <= p < q < |procs| ==> procs[p].undo == 0 || procs[q].undo == 0
  {
    if procs != [] {
      UndoCounts(procs[1..]);
      assert forall p :: 0 < p < |procs| ==> procs[p] == procs[1..][p - 1];
      assert forall p :: 0 <= p < |procs| - 1 ==> procs[1..][p] == procs[p + 1];
    }
  }

  /** At most one live process is between lowering and raising FLAG, and FLAG is 0 meanwhile. */
  lemma {:induction false} MutualExclusion(s: State)
    requires Inv(s)
    ensures 0 <= s.sh.flag <= s.sh.raises <= 1
    ensures forall p, q :: 0 <= p < q < |s.procs| ==>
      !(Critical(s.procs[p].pc) && Critical(s.procs[q].pc))
    ensures forall p :: 0 <= p < |s.procs| && Critical(s.procs[p].pc) ==> s.sh.flag == 0
    ensures s.sh.raises == 1 && s.sh.flag == 0 ==>
      exists p :: 0 <= p < |s.procs| && Critical(s.procs[p].pc)
  {
    UndoCounts(s.procs);
  }

  /** What a mover keeps: its own knowledge, and the balance of FLAG, undo and raises. */
  predicate MovesWell(sh: Shared, semvmx: nat, pr: Proc) {
    var r := StepProc(sh, semvmx, pr);
    && Sound(r.0)
    && Local(r.0, r.1)
    && r.0.flag + r.1.undo - r.0.raises == sh.flag + pr.undo - sh.raises
  }

  lemma HolderMovesWell(sh: Shared, semvmx: nat, pr: Proc)
    requires Sound(sh) && Local(sh, pr) && Critical(pr.pc)
    ensures MovesWell(sh, semvmx, pr)
  {
  }

  lemma OutsiderMovesWell(sh: Shared, semvmx: nat, pr: Proc)
    requires Sound(sh) && Local(sh, pr) && !Critical(pr.pc)
    requires pr.pc.Acquire? ==> sh.flag >= 1 && sh.raises == 1
    ensures MovesWell(sh, semvmx, pr)
  {
  }

  lemma StepMover(sh: Shared, semvmx: nat, pr: Proc)
    requires Sound(sh) && Local(sh, pr)
    requires pr.pc.Acquire? ==> sh.flag >= 1 && sh.raises == 1
    ensures MovesWell(sh, semvmx, pr)
  {
    if Critical(pr.pc) { HolderMovesWell(sh, semvmx, pr); } else { OutsiderMovesWell(sh, semvmx, pr); }
  }

  lemma StepOther(sh: Shared, semvmx: nat, pr: Proc, other: Proc)
    requires Sound(sh) && Local(sh, pr) && Local(sh, other)
    requires pr.pc.Acquire? ==> sh.flag >= 1 && sh.raises == 1
    requires !(Critical(pr.pc) && Critical(other.pc))
    requires !(Creating(pr.pc) && Creating(other.pc))
    ensures var r := StepProc(sh, semvmx, pr);
      && Sound(r.0)
      && Local(r.0, other)
      && !(Creating(r.1.pc) && Creating(other.pc))
  {
    StepMover(sh, semvmx, pr);
  }

  lemma {:induction false} ReplaceKeepsInv(s: State, p: nat, sh: Shared, pr: Proc)
    requires Inv(s) && p < |s.procs|
    requires Sound(sh) && Local(sh, pr)
    requires sh.flag + pr.undo - sh.raises == s.sh.flag + s.procs[p].undo - s.sh.raises
    requires forall q :: 0 <= q < |s.procs| && q != p ==>
      Local(sh, s.procs[q]) && !(Creating(pr.pc) && Creating(s.procs[q].pc))
    ensures Inv(s.(sh := sh, procs := s.procs[p := pr]))
  {
    UndoUpdate(s.procs, p, pr);
  }

  lemma ActionKeepsInv(s: State, p: nat)
    requires Inv(s) && Enabled(s, Label(p, Step))
    ensures Inv(Do(s, Label(p, Step)))
  {
    var t, pr := Do(s, Label(p, Step)), s.procs[p];
    assert Local(s.sh, pr);
    MutualExclusion(s);
    StepMover(s.sh, s.semvmx, pr);
    hide StepProc;
    forall q | 0 <= q < |s.procs| && q != p
      ensures Local(t.sh, s.procs[q]) && !(Creating(t.procs[p].pc) && Creating(s.procs[q].pc))
    {
      StepOther(s.sh, s.semvmx, pr, s.procs[q]);
    }
    hide Local, Sound;
    ReplaceKeepsInv(s, p, t.sh, t.procs[p]);
  }

  lemma FlagIsNotLocal(sh: Shared, flag: int, pr: Proc)
    requires Sound(sh) && flag >= 0
    ensures Sound(sh.(flag := flag)) && Local(sh.(flag := flag), pr) == Local(sh, pr)
  {
  }

  lemma OtherKeepsInv(s: State, l: Label)
    requires Inv(s) && Enabled(s, l) && !l.act.Step?
    ensures Inv(Do(s, l))
  {
    hide StepProc;
    var t, pr := Do(s, l), s.procs[l.p];
    assert Local(s.sh, pr);
    var pr' := t.procs[l.p];
    assert Local(s.sh, pr') && !(Creating(pr'.pc));
    assert t.sh == s.sh.(flag := t.sh.flag) && t.sh.flag >= 0;
    assert t.sh.flag + pr'.undo == s.sh.flag + pr.undo;
    forall q | 0 <= q < |s.procs| ensures Local(t.sh, s.procs[q]) {
      FlagIsNotLocal(s.sh, t.sh.flag, s.procs[q]);
    }
    FlagIsNotLocal(s.sh, t.sh.flag, pr');
    hide Local, Sound, Enabled;
    ReplaceKeepsInv(s, l.p, t.sh, pr');
  }

  lemma {:induction false} StepKeepsInv(s: State, l: Label)
    requires Inv(s) && Enabled(s, l)
    ensures Inv(Do(s, l))
  {
    hide Inv, Enabled, Do;
    if l.act.Step? { ActionKeepsInv(s, l.p); } else { OtherKeepsInv(s, l); }
  }

  lemma {:induction false} RunKeepsInv(s: State, ls: seq<Label>)
    requires Inv(s) && Valid(s, ls)
    ensures Inv(Exec(s, ls))
    decreases |ls|
  {
    if ls != [] {
      StepKeepsInv(s, ls[0]);
      RunKeepsInv(Do(s, ls[0]), ls[1..]);
    }
  }

  lemma {:induction false} InitInv(s: State)
    requires Init(s)
    ensures Inv(s)
  {
    UndoCounts(s.procs);
  }

  /** The invariant holds in every state any run leads to. */
  lemma {:induction false} ReachableInv(s: State)
    requires Reachable(s)
    ensures Inv(s)
  {
    var s0, ls :| Init(s0) && Valid(s0, ls) && s == Exec(s0, ls);
    InitInv(s0);
    RunKeepsInv(s0, ls);
  }
}
