/** What Stack/stack.c guarantees: linearizability, crash safety, mutual exclusion, progress and
    the bounds kept across racing attaches. */
module SysVTheorems {
  import A = AtomicStack
  import Sequences
  import opened SysVStack

  // ---------------------------------------------------------------- abstraction

  /** How far the current call of a process has got, seen from outside. */
  function Client(pr: Proc): A.Client {
    match pr.pc
    case Acquire(op) => A.Pending(op)
    case PushTest(v) => A.Pending(A.Push(v))
    case PushIndex(v, _) => A.Pending(A.Push(v))
    case PushStore(v, _, _) => A.Pending(A.Push(v))
    case PushCount(v) => A.Pending(A.Push(v))
    case PopTest => A.Pending(A.Pop)
    case PopIndex(_) => A.Pending(A.Pop)
    case PopLoad(_, _) => A.Pending(A.Pop)
    case PopCount(_) => A.Pending(A.Pop)
    case Release(op, ret) => A.Committed(op, ret)
    case Returning(op, ret) => A.Committed(op, ret)
    case Dead => A.Gone
    case _ => A.Idle
  }

  function Clients(procs: seq<Proc>): seq<A.Client> {
    seq(|procs|, i requires 0 <= i < |procs| => Client(procs[i]))
  }

  function Sizes(procs: seq<Proc>): seq<int> {
    seq(|procs|, i requires 0 <= i < |procs| => procs[i].size)
  }

  /** The stack is the first COUNT cells. */
  function Abs(s: State): A.Atomic
    requires Sound(s.sh)
  {
    A.Atomic(s.sh.mem[..s.sh.count], Sizes(s.procs), Clients(s.procs))
  }

  /** What the next action of a process does to its call: an operation happens when COUNT is
      changed, or when the test that makes it fail is made. */
  datatype Effect = Silent | Happens | Aborts

  function EffectOf(sh: Shared, pr: Proc): Effect {
    match pr.pc
    case PushCount(_) => Happens
    case PopCount(_) => Happens
    case PushTest(_) => if sh.count >= pr.size then Happens else Silent
    case PopTest => if sh.count == 0 then Happens else Silent
    case Missing => if sh.seg.Present? || pr.size < 1 then Aborts else Silent
    case _ => Silent
  }

  /** The atomic event a label amounts to. */
  function Observe(s: State, l: Label): A.Event
    requires Enabled(s, l)
  {
    var pr := s.procs[l.p];
    match l.act
    case Fail => A.Refuse(l.p)
    case Invoke(op) => A.Call(l.p, op)
    case Answer => A.Return(l.p, pr.pc.ret)
    case Crash => A.Die(l.p)
    case Step =>
      match EffectOf(s.sh, pr)
      case Silent => A.Tau
      case Happens => A.Commit(l.p)
      case Aborts => A.Die(l.p)
  }

  function Observed(s: State, ls: seq<Label>): seq<A.Event>
    requires Valid(s, ls)
    decreases |ls|
  {
    if ls == [] then [] else [Observe(s, ls[0])] + Observed(Do(s, ls[0]), ls[1..])
  }

  lemma {:induction false} Cons(s: State, l: Label, ls: seq<Label>)
    requires Enabled(s, l) && Valid(Do(s, l), ls)
    ensures Valid(s, [l] + ls)
    ensures Exec(s, [l] + ls) == Exec(Do(s, l), ls)
    ensures Observed(s, [l] + ls) == [Observe(s, l)] + Observed(Do(s, l), ls)
  {
    hide Enabled, Do, Observe;
    assert ([l] + ls)[1..] == ls;
  }

  lemma {:induction false} ObservedConcat(s: State, ls: seq<Label>, ms: seq<Label>)
    requires Valid(s, ls) && Valid(Exec(s, ls), ms)
    ensures Valid(s, ls + ms)
    ensures Observed(s, ls + ms) == Observed(s, ls) + Observed(Exec(s, ls), ms)
    decreases |ls|
  {
    if ls == [] {
      assert ls + ms == ms;
    } else {
      var l, rest, t := ls[0], ls[1..], Do(s, ls[0]);
      hide Enabled, Do, Observe;
      assert Enabled(s, l) && Valid(t, rest) && Exec(s, ls) == Exec(t, rest);
      assert Observed(s, ls) == [Observe(s, l)] + Observed(t, rest);
      hide Valid, Exec, Observed;
      ObservedConcat(t, rest, ms);
      Sequences.Regroup(ls, ms);
      Cons(s, l, rest + ms);
      Sequences.Assoc([Observe(s, l)], Observed(t, rest), Observed(Exec(s, ls), ms));
    }
  }

  /** Two runs end to end. */
  lemma {:induction false} Join(s: State, ls: seq<Label>, ms: seq<Label>)
    requires Valid(s, ls) && Valid(Exec(s, ls), ms)
    ensures Valid(s, ls + ms)
    ensures Exec(s, ls + ms) == Exec(Exec(s, ls), ms)
    ensures A.Visible(Observed(s, ls + ms))
         == A.Visible(Observed(s, ls)) + A.Visible(Observed(Exec(s, ls), ms))
  {
    hide Enabled, Do, Observe;
    ObservedConcat(s, ls, ms);
    ExecConcat(s, ls, ms);
    A.VisibleConcat(Observed(s, ls), Observed(Exec(s, ls), ms));
  }

  lemma {:induction false} One(s: State, l: Label)
    requires Enabled(s, l)
    ensures Valid(s, [l]) && Exec(s, [l]) == Do(s, l)
    ensures A.Visible(Observed(s, [l])) == A.Visible([Observe(s, l)])
  {
    assert Exec(Do(s, l), []) == Do(s, l);
    assert Observed(s, [l]) == [Observe(s, l)];
  }

  /** No process attaches with more cells than a semaphore can count. */
  predicate Fits(s: State) {
    forall p :: 0 <= p < |s.procs| ==> s.procs[p].size <= s.semvmx
  }

  // ---------------------------------------------------------------- linearizability

  lemma MoveSimulates(sh: Shared, semvmx: nat, pr: Proc)
    requires Sound(sh) && Local(sh, pr) && pr.size <= semvmx
    requires pr.pc.Acquire? ==> sh.flag >= 1 && sh.raises == 1
    ensures Sound(StepProc(sh, semvmx, pr).0)
    ensures var (sh', pr') := StepProc(sh, semvmx, pr);
      var stack, stack' := sh.mem[..sh.count], sh'.mem[..sh'.count];
      match EffectOf(sh, pr)
      case Silent => stack' == stack && Client(pr') == Client(pr)
      case Aborts => stack' == stack && Client(pr) == A.Idle && Client(pr') == A.Gone
      case Happens =>
        && Client(pr).Pending?
        && var r := A.Apply(stack, Client(pr).op, pr.size);
           stack' == r.0 && Client(pr') == A.Committed(Client(pr).op, r.1)
  {
    StepMover(sh, semvmx, pr);
    var (sh', pr') := StepProc(sh, semvmx, pr);
    if pr.pc.PushCount? {
      assert sh'.mem[..sh'.count] == sh.mem[..sh.count] + [pr.pc.v];
    } else if pr.pc.PopCount? {
      assert sh.mem[..sh.count][..sh.count - 1] == sh'.mem[..sh'.count];
    } else if pr.pc.PushStore? {
      assert sh'.mem[..sh.count] == sh.mem[..sh.count];
    } else if pr.pc.Missing? && sh.seg.Absent? {
      assert sh.count == 0;
    }
  }

  lemma ClientsUpdate(procs: seq<Proc>, p: nat, pr: Proc)
    requires p < |procs| && pr.size == procs[p].size
    ensures Sizes(procs[p := pr]) == Sizes(procs)
    ensures Clients(procs[p := pr]) == Clients(procs)[p := Client(pr)]
    ensures Client(pr) == Client(procs[p]) ==> Clients(procs[p := pr]) == Clients(procs)
  {
    hide Client;
  }

  lemma ActionSimulates(s: State, p: nat)
    requires Inv(s) && Fits(s) && Enabled(s, Label(p, Step)) && Inv(Do(s, Label(p, Step)))
    ensures A.Enabled(Abs(s), Observe(s, Label(p, Step)))
    ensures A.Do(Abs(s), Observe(s, Label(p, Step))) == Abs(Do(s, Label(p, Step)))
  {
    var t := Do(s, Label(p, Step));
    MutualExclusion(s);
    assert Local(s.sh, s.procs[p]);
    ClientsUpdate(s.procs, p, t.procs[p]);
    MoveSimulates(s.sh, s.semvmx, s.procs[p]);
    hide StepProc, Client, EffectOf, A.Apply, Inv, Local, Sound;
    assert Clients(s.procs)[p] == Client(s.procs[p]) && Sizes(s.procs)[p] == s.procs[p].size;
    hide Clients, Sizes;
  }

  lemma OtherSimulates(s: State, l: Label)
    requires Inv(s) && Enabled(s, l) && !l.act.Step? && Inv(Do(s, l))
    ensures A.Enabled(Abs(s), Observe(s, l))
    ensures A.Do(Abs(s), Observe(s, l)) == Abs(Do(s, l))
  {
    var t := Do(s, l);
    ClientsUpdate(s.procs, l.p, t.procs[l.p]);
    assert Clients(s.procs)[l.p] == Client(s.procs[l.p]);
    hide StepProc, Clients, Sizes, Inv, A.Apply;
  }

  lemma StepSimulates(s: State, l: Label)
    requires Inv(s) && Fits(s) && Enabled(s, l)
    ensures Inv(Do(s, l)) && Fits(Do(s, l))
    ensures A.Enabled(Abs(s), Observe(s, l))
    ensures A.Do(Abs(s), Observe(s, l)) == Abs(Do(s, l))
  {
    StepKeepsInv(s, l);
    StaysFitting(s, l);
    hide StepProc, Enabled, Observe, Do, Abs, Inv, A.Enabled, A.Do;
    if l.act.Step? {
      ActionSimulates(s, l.p);
    } else {
      OtherSimulates(s, l);
    }
  }

  lemma StaysFitting(s: State, l: Label)
    requires Fits(s) && Enabled(s, l)
    ensures Fits(Do(s, l))
  {
  }

  /** Every run is a run of the atomic stack: `mem[..COUNT]` is its stack, and every call takes
      effect at one point between its invocation and its answer. */
  lemma {:induction false} Linearizable(s: State, ls: seq<Label>)
    requires Inv(s) && Fits(s) && Valid(s, ls)
    ensures Inv(Exec(s, ls)) && Fits(Exec(s, ls))
    ensures A.Valid(Abs(s), Observed(s, ls))
    ensures A.Exec(Abs(s), Observed(s, ls)) == Abs(Exec(s, ls))
    decreases |ls|
  {
    if ls != [] {
      StepSimulates(s, ls[0]);
      Linearizable(Do(s, ls[0]), ls[1..]);
      assert Observed(s, ls)[1..] == Observed(Do(s, ls[0]), ls[1..]);
    }
  }

  /** From a fresh start the stack a run leaves behind is the outcome of performing its calls one
      at a time, in the order in which they changed or tested COUNT. */
  lemma {:induction false} RunIsSequentialHistory(s: State, ls: seq<Label>)
    requires Init(s) && Fits(s) && Valid(s, ls)
    ensures Inv(Exec(s, ls))
    ensures A.Valid(Abs(s), Observed(s, ls))
    ensures var t := Exec(s, ls).sh;
      A.Sequential([], Sizes(s.procs), A.Commits(Abs(s), Observed(s, ls)), t.mem[..t.count])
  {
    InitInv(s);
    Linearizable(s, ls);
    A.CommitsAreSequential(Abs(s), Observed(s, ls));
  }

  // ---------------------------------------------------------------- inside one call

  /** All reads of COUNT inside one call agree, every access stays inside the segment, and no
      action of the lock's holder blocks: in particular pop's decrement of COUNT does not. */
  lemma HolderIsUndisturbed(s: State, p: nat)
    requires Inv(s) && p < |s.procs| && Critical(s.procs[p].pc)
    ensures Enabled(s, Label(p, Step))
    ensures var pc := s.procs[p].pc;
      && (pc.PushStore? ==> pc.seen == pc.idx == s.sh.count && 0 <= pc.idx < |s.sh.mem|)
      && (pc.PopLoad? ==> pc.seen == pc.idx + 1 == s.sh.count && 0 <= pc.idx < |s.sh.mem|)
  {
    assert Local(s.sh, s.procs[p]);
  }

  /** A death leaves the cells and COUNT alone, hands a held lock back, and keeps the invariant. */
  lemma {:induction false} CrashSafe(s: State, p: nat)
    requires Inv(s) && Enabled(s, Label(p, Crash))
    ensures var t := Do(s, Label(p, Crash));
      && Inv(t)
      && t.sh == s.sh.(flag := if Critical(s.procs[p].pc) then 1 else s.sh.flag)
      && (Critical(s.procs[p].pc) ==> s.sh.flag == 0)
  {
    StepKeepsInv(s, Label(p, Crash));
    MutualExclusion(s);
    assert Local(s.sh, s.procs[p]);
  }

  // ---------------------------------------------------------------- attaching

  /** However many processes race to attach: one creation, one raise of FLAG, no attached
      process with more cells than the creator asked for, and COUNT within the creator's size. */
  lemma {:induction false} AttachBounds(s: State)
    requires Reachable(s)
    ensures s.sh.creators <= 1 && s.sh.raises <= 1
    ensures forall p :: 0 <= p < |s.procs| && Attached(s.procs[p].pc) ==>
      s.sh.seg.Present? && 0 <= s.procs[p].size <= s.sh.seg.size
    ensures s.sh.seg.Present? ==> 0 <= s.sh.count <= s.sh.seg.size == |s.sh.mem|
    ensures s.sh.seg.Absent? ==> s.sh.count == 0
  {
    ReachableInv(s);
    forall p | 0 <= p < |s.procs| && Attached(s.procs[p].pc)
      ensures s.sh.seg.Present? && 0 <= s.procs[p].size <= s.sh.seg.size
    {
      assert Local(s.sh, s.procs[p]);
    }
  }

  /** The creator's raise is the one that takes FLAG from 0 to 1 with no lock held. */
  lemma {:induction false} CreatorRaisesFromZero(s: State, p: nat)
    requires Inv(s) && p < |s.procs| && s.procs[p].pc.Raising?
    ensures s.sh.flag == 0 && s.sh.raises == 0
    ensures forall q :: 0 <= q < |s.procs| ==> !Critical(s.procs[q].pc)
    ensures Enabled(s, Label(p, Step)) && Do(s, Label(p, Step)).sh == s.sh.(flag := 1, raises := 1)
  {
    assert Local(s.sh, s.procs[p]);
    MutualExclusion(s);
    forall q | 0 <= q < |s.procs| ensures !Critical(s.procs[q].pc) {
      assert Local(s.sh, s.procs[q]);
    }
  }

  /** The segment keeps the size its creator gave it. */
  lemma {:induction false} SegmentIsFixed(s: State, ls: seq<Label>)
    requires Inv(s) && Valid(s, ls)
    ensures s.sh.seg.Present? ==> Exec(s, ls).sh.seg == s.sh.seg
    decreases |ls|
  {
    if ls != [] {
      StepKeepsInv(s, ls[0]);
      SegmentIsFixed(Do(s, ls[0]), ls[1..]);
    }
  }

  // ---------------------------------------------------------------- progress

  ghost predicate CanEnter(s: State, p: nat)
    requires p < |s.procs|
  {
    exists ls :: Valid(s, ls) && Entered(Exec(s, ls), p)
  }

  predicate Entered(s: State, p: nat) { p < |s.procs| && Critical(s.procs[p].pc) }

  predicate RaisePending(s: State) {
    exists q :: 0 <= q < |s.procs| && s.procs[q].pc.Raising?
  }

  /** Actions the lock's holder still has to take before it raises FLAG. */
  function Distance(pc: Pc): nat {
    match pc
    case PushTest(_) => 5
    case PushIndex(_, _) => 4
    case PushStore(_, _, _) => 3
    case PushCount(_) => 2
    case PopTest => 5
    case PopIndex(_) => 4
    case PopLoad(_, _) => 3
    case PopCount(_) => 2
    case Release(_, _) => 1
    case _ => 0
  }

  function Repeat(l: Label, n: nat): seq<Label> {
    if n == 0 then [] else [l] + Repeat(l, n - 1)
  }

  /** What the rest of a critical section comes to if nobody interferes: the shared part it
      leaves behind, and the answer. */
  function Finish(sh: Shared, semvmx: nat, pr: Proc): (Shared, A.Op, A.Ret) {
    match pr.pc
    case PushTest(v) =>
      if sh.count >= pr.size then (FlagUp(sh), A.Push(v), A.Full)
      else (FlagUp(CountUp(Store(sh, sh.count, v), semvmx)), A.Push(v), A.Pushed)
    case PushIndex(v, _) => (FlagUp(CountUp(Store(sh, sh.count, v), semvmx)), A.Push(v), A.Pushed)
    case PushStore(v, _, idx) => (FlagUp(CountUp(Store(sh, idx, v), semvmx)), A.Push(v), A.Pushed)
    case PushCount(v) => (FlagUp(CountUp(sh, semvmx)), A.Push(v), A.Pushed)
    case PopTest =>
      if sh.count == 0 then (FlagUp(sh), A.Pop, A.Empty)
      else (FlagUp(CountDown(sh)), A.Pop, A.Got(Load(sh, sh.count - 1)))
    case PopIndex(_) => (FlagUp(CountDown(sh)), A.Pop, A.Got(Load(sh, sh.count - 1)))
    case PopLoad(_, idx) => (FlagUp(CountDown(sh)), A.Pop, A.Got(Load(sh, idx)))
    case PopCount(x) => (FlagUp(CountDown(sh)), A.Pop, A.Got(x))
    case Release(op, ret) => (FlagUp(sh), op, ret)
    case _ => (sh, A.Pop, A.Refused)
  }

  /** What a whole call by a process nobody disturbs leaves behind, and its answer. */
  function Outcome(sh: Shared, semvmx: nat, pr: Proc, op: A.Op): (Shared, A.Ret) {
    var r := Finish(FlagDown(sh), semvmx, pr.(pc := if op.Push? then PushTest(op.val) else PopTest));
    (r.0, r.2)
  }

  /** A lone call is one operation of the specification. */
  lemma OutcomeIsApply(sh: Shared, semvmx: nat, pr: Proc, op: A.Op)
    requires Sound(sh) && sh.seg.Present? && pr.size <= sh.seg.size && pr.size <= semvmx
    ensures var (sh', ret) := Outcome(sh, semvmx, pr, op);
      && 0 <= sh'.count <= |sh'.mem|
      && (sh'.mem[..sh'.count], ret) == A.Apply(sh.mem[..sh.count], op, pr.size)
      && sh'.flag == sh.flag
  {
    var (sh', ret) := Outcome(sh, semvmx, pr, op);
    match op
    case Push(v) =>
      if sh.count < pr.size {
        assert sh'.mem[..sh'.count] == sh.mem[..sh.count] + [v];
      }
    case Pop =>
      if sh.count > 0 {
        assert sh.mem[..sh.count][..sh.count - 1] == sh'.mem[..sh'.count];
      }
  }

  function Finished(s: State, q: nat): State
    requires q < |s.procs|
  {
    var r := Finish(s.sh, s.semvmx, s.procs[q]);
    s.(sh := r.0, procs := s.procs[q := s.procs[q].(pc := Returning(r.1, r.2), undo := 0)])
  }

  lemma FinishStep(sh: Shared, semvmx: nat, pr: Proc)
    requires Sound(sh) && Local(sh, pr) && Critical(pr.pc)
    ensures var r := StepProc(sh, semvmx, pr);
      && r.1.size == pr.size
      && EffectOf(sh, pr) != Aborts
      && if pr.pc.Release? then r == (Finish(sh, semvmx, pr).0, pr.(pc := Returning(pr.pc.done, pr.pc.ret), undo := 0))
         else
           && Critical(r.1.pc) && Distance(r.1.pc) < Distance(pr.pc)
           && Finish(r.0, semvmx, r.1) == Finish(sh, semvmx, pr)
  {
  }

  /** Left alone, the holder raises FLAG after at most five actions of its own, with the effect
      and answer of `Finish` and none on any other process, and unseen from outside. */
  lemma {:induction false} HolderReleases(s: State, q: nat) returns (n: nat)
    requires Inv(s) && q < |s.procs| && Critical(s.procs[q].pc)
    ensures n <= Distance(s.procs[q].pc) <= 5
    ensures var ls := Repeat(Label(q, Step), n);
      && Valid(s, ls)
      && Exec(s, ls) == Finished(s, q)
      && A.Visible(Observed(s, ls)) == []
    ensures Inv(Finished(s, q)) && Finished(s, q).sh.flag == 1
    decreases Distance(s.procs[q].pc)
  {
    var l := Label(q, Step);
    HolderMoves(s, q);
    var t := Do(s, l);
    hide Inv, Enabled, Do, Observe, Critical, Distance, Finished, Valid, Exec, Observed, A.Visible, Repeat;
    var m := 0;
    if s.procs[q].pc.Release? {
      Nothing(t, l);
    } else {
      m := HolderReleases(t, q);
    }
    n := m + 1;
    OneMoreUnseen(s, l, m);
  }

  lemma Nothing(t: State, l: Label)
    ensures Valid(t, Repeat(l, 0)) && Exec(t, Repeat(l, 0)) == t && A.Visible(Observed(t, Repeat(l, 0))) == []
  {
  }

  lemma OneMoreUnseen(s: State, l: Label, m: nat)
    requires Enabled(s, l) && Valid(Do(s, l), Repeat(l, m))
    requires var e := Observe(s, l); !e.Call? && !e.Return? && !e.Die?
    ensures Valid(s, Repeat(l, m + 1)) && Exec(s, Repeat(l, m + 1)) == Exec(Do(s, l), Repeat(l, m))
    ensures A.Visible(Observed(s, Repeat(l, m + 1))) == A.Visible(Observed(Do(s, l), Repeat(l, m)))
  {
    RepeatMore(l, m);
    hide Enabled, Do, Observe, Valid, Exec, Observed, A.Visible, Repeat;
    HiddenEvent(Observe(s, l));
    Cons(s, l, Repeat(l, m));
    A.VisibleConcat([Observe(s, l)], Observed(Do(s, l), Repeat(l, m)));
  }

  lemma RepeatMore(l: Label, n: nat)
    ensures Repeat(l, 0) == [] && Repeat(l, n + 1) == [l] + Repeat(l, n)
  {
  }

  /** One action of the holder: it is out and FLAG is up, or it is nearer to that and the rest of its
      call comes to the same. */
  lemma {:induction false} HolderMoves(s: State, q: nat)
    requires Inv(s) && q < |s.procs| && Critical(s.procs[q].pc)
    ensures Enabled(s, Label(q, Step))
    ensures var t, e := Do(s, Label(q, Step)), Observe(s, Label(q, Step));
      && Inv(t) && q < |t.procs| && !e.Call? && !e.Return? && !e.Die?
      && 1 <= Distance(s.procs[q].pc) <= 5
      && if s.procs[q].pc.Release? then t == Finished(s, q) && t.sh.flag == 1
         else
           && Critical(t.procs[q].pc) && Distance(t.procs[q].pc) < Distance(s.procs[q].pc)
           && Finished(t, q) == Finished(s, q)
  {
    var l := Label(q, Step);
    HolderIsUndisturbed(s, q);
    MutualExclusion(s);
    StepKeepsInv(s, l);
    assert Local(s.sh, s.procs[q]);
    FinishStep(s.sh, s.semvmx, s.procs[q]);
    var t := Do(s, l);
    assert s.procs[q].pc.Release? ==> StepProc(s.sh, s.semvmx, s.procs[q]).0 == FlagUp(s.sh);
    hide StepProc, Finish, Inv, Local, EffectOf;
    assert t.procs[q] == StepProc(s.sh, s.semvmx, s.procs[q]).1;
    ReplacedTwice(s.procs, q, t.procs[q], Finished(s, q).procs[q]);
  }

  lemma ReplacedTwice(procs: seq<Proc>, q: nat, pr: Proc, last: Proc)
    requires q < |procs|
    ensures procs[q := pr][q := last] == procs[q := last]
  {
  }

  lemma HiddenEvent(e: A.Event)
    ensures A.Visible([e]) == if e.Call? || e.Return? || e.Die? then [e] else []
  {
    assert [e][1..] == [] && A.Visible([]) == [];
  }

  /** Seen as a run of the atomic stack, the holder performs its operation, once. */
  lemma {:induction false} FinishCommits(s: State, q: nat)
    requires Inv(s) && Fits(s) && q < |s.procs| && Critical(s.procs[q].pc)
    ensures Inv(Finished(s, q))
    ensures Abs(Finished(s, q)) ==
      if Client(s.procs[q]).Pending? then A.Do(Abs(s), A.Commit(q)) else Abs(s)
    decreases Distance(s.procs[q].pc)
  {
    var l := Label(q, Step);
    HolderMoves(s, q);
    StepSimulates(s, l);
    hide Inv, Fits, Finished, Critical, A.Apply;
    if !s.procs[q].pc.Release? {
      FinishCommits(Do(s, l), q);
    }
  }

  /** An undisturbed pass through the critical section. */
  lemma {:induction false} PassAlone(s: State, p: nat) returns (ls: seq<Label>)
    requires Inv(s) && p < |s.procs| && s.procs[p].pc.Acquire? && s.sh.flag == 1
    ensures Enabled(s, Label(p, Step))
    ensures var t := Finished(Do(s, Label(p, Step)), p);
      Inv(t) && t.sh.flag == 1 && Valid(s, ls) && Exec(s, ls) == t
    ensures A.Visible(Observed(s, ls)) == []
  {
    var l := Label(p, Step);
    StepKeepsInv(s, l);
    var t := Do(s, l);
    var n := HolderReleases(t, p);
    ls := [l] + Repeat(l, n);
    Cons(s, l, Repeat(l, n));
    A.VisibleConcat([A.Tau], Observed(t, Repeat(l, n)));
    HiddenEvent(A.Tau);
  }

  predicate Orphaned(s: State) {
    s.sh.sems && s.sh.raises == 0 && !RaisePending(s)
  }

  lemma {:induction false} OrphanedForever(s: State, ls: seq<Label>)
    requires Inv(s) && Orphaned(s) && Valid(s, ls)
    ensures Inv(Exec(s, ls)) && Orphaned(Exec(s, ls))
    decreases |ls|
  {
    if ls != [] {
      var l := ls[0];
      StepKeepsInv(s, l);
      MutualExclusion(s);
      assert Local(s.sh, s.procs[l.p]);
      var t := Do(s, l);
      forall q | 0 <= q < |t.procs| ensures !t.procs[q].pc.Raising? {
        assert !s.procs[q].pc.Raising?;
      }
      OrphanedForever(t, ls[1..]);
    }
  }

  lemma {:induction false} EnterWhenFree(s: State, p: nat)
    requires Inv(s) && p < |s.procs| && s.procs[p].pc.Acquire? && s.sh.flag == 1
    ensures CanEnter(s, p)
  {
    var l := Label(p, Step);
    assert Valid(s, [l]);
    assert Exec(s, [l]) == Do(s, l);
    assert Entered(Exec(s, [l]), p);
  }

  lemma {:induction false} EnterAfter(s: State, ls: seq<Label>, p: nat)
    requires Valid(s, ls) && p < |s.procs| && p < |Exec(s, ls).procs|
    requires CanEnter(Exec(s, ls), p)
    ensures CanEnter(s, p)
  {
    hide Enabled, Do, Observe;
    var ms :| Valid(Exec(s, ls), ms) && Entered(Exec(Exec(s, ls), ms), p);
    ExecConcat(s, ls, ms);
    assert Entered(Exec(s, ls + ms), p);
  }

  /** A caller waiting for the lock can get it exactly when FLAG has been raised or its creator
      is alive and about to raise it.  If the creator dies between creating the semaphores and
      raising FLAG, nobody ever gets it. */
  lemma {:induction false} ProgressExactly(s: State, p: nat)
    requires Inv(s) && p < |s.procs| && s.procs[p].pc.Acquire?
    ensures CanEnter(s, p) <==> s.sh.raises == 1 || RaisePending(s)
  {
    MutualExclusion(s);
    assert Local(s.sh, s.procs[p]);
    if s.sh.raises == 1 {
      if s.sh.flag == 1 {
        EnterWhenFree(s, p);
      } else {
        var q :| 0 <= q < |s.procs| && Critical(s.procs[q].pc);
        var n := HolderReleases(s, q);
        var ls := Repeat(Label(q, Step), n);
        EnterWhenFree(Exec(s, ls), p);
        EnterAfter(s, ls, p);
      }
    } else if RaisePending(s) {
      var q :| 0 <= q < |s.procs| && s.procs[q].pc.Raising?;
      var l := Label(q, Step);
      assert Local(s.sh, s.procs[q]);
      StepKeepsInv(s, l);
      MutualExclusion(Do(s, l));
      assert Exec(s, [l]) == Do(s, l);
      EnterWhenFree(Do(s, l), p);
      EnterAfter(s, [l], p);
    } else {
      forall ls | Valid(s, ls) ensures !Entered(Exec(s, ls), p) {
        OrphanedForever(s, ls);
        var t := Exec(s, ls);
        if p < |t.procs| {
          assert Local(t.sh, t.procs[p]);
        }
      }
    }
  }
}
