/** The specification both shared-memory stacks are measured against: a bounded LIFO stack on
    which every call takes effect in one indivisible step.  Each client is idle, has called an
    operation that has not happened yet, or has one whose effect is done and whose answer has
    not been handed back. */
module AtomicStack {
  import opened Sequences

  type Val = int

  datatype Op = Push(val: Val) | Pop

  datatype Ret = Pushed | Got(val: Val) | Full | Empty | Refused

  /** The C return value. */
  function Code(ret: Ret): int {
    if ret.Pushed? || ret.Got? then 0 else -1
  }

  /** How a C call ends for a process nobody else can wake: it returns, or sleeps for good. */
  datatype Result = Returns(code: int) | Sleeps

  datatype Client = Idle | Pending(op: Op) | Committed(op: Op, ret: Ret) | Gone

  /** `sizes[p]` is the capacity client `p` attached with. */
  datatype Atomic = Atomic(stack: seq<Val>, sizes: seq<int>, clients: seq<Client>)

  datatype Event =
    | Call(p: nat, op: Op)
    | Commit(p: nat)
    | Refuse(p: nat)
    | Return(p: nat, ret: Ret)
    | Die(p: nat)
    | Tau

  function Apply(stack: seq<Val>, op: Op, size: int): (seq<Val>, Ret) {
    match op
    case Push(v) => if |stack| >= size then (stack, Full) else (stack + [v], Pushed)
    case Pop => if stack == [] then (stack, Empty) else (stack[..|stack| - 1], Got(stack[|stack| - 1]))
  }

  predicate Has(a: Atomic, p: nat) {
    p < |a.clients| && p < |a.sizes|
  }

  predicate Enabled(a: Atomic, e: Event) {
    match e
    case Call(p, _) => Has(a, p) && a.clients[p].Idle?
    case Commit(p) => Has(a, p) && a.clients[p].Pending?
    case Refuse(p) => Has(a, p) && a.clients[p].Pending?
    case Return(p, ret) => Has(a, p) && a.clients[p].Committed? && a.clients[p].ret == ret
    case Die(p) => Has(a, p) && !a.clients[p].Gone?
    case Tau => true
  }

  function Do(a: Atomic, e: Event): Atomic
    requires Enabled(a, e)
  {
    match e
    case Call(p, op) => a.(clients := a.clients[p := Pending(op)])
    case Commit(p) =>
      var op := a.clients[p].op;
      var r := Apply(a.stack, op, a.sizes[p]);
      a.(stack := r.0, clients := a.clients[p := Committed(op, r.1)])
    case Refuse(p) => a.(clients := a.clients[p := Committed(a.clients[p].op, Refused)])
    case Return(p, _) => a.(clients := a.clients[p := Idle])
    case Die(p) => a.(clients := a.clients[p := Gone])
    case Tau => a
  }

  predicate Valid(a: Atomic, es: seq<Event>)
    decreases |es|
  {
    es == [] || (Enabled(a, es[0]) && Valid(Do(a, es[0]), es[1..]))
  }

  function Exec(a: Atomic, es: seq<Event>): Atomic
    requires Valid(a, es)
    decreases |es|
  {
    if es == [] then a else Exec(Do(a, es[0]), es[1..])
  }

  /** What an outside observer sees of a run: calls, answers and deaths. */
  function Visible(es: seq<Event>): seq<Event> {
    if es == [] then []
    else (if es[0].Call? || es[0].Return? || es[0].Die? then [es[0]] else []) + Visible(es[1..])
  }

  lemma {:induction false} ExecConcat(a: Atomic, es: seq<Event>, fs: seq<Event>)
    requires Valid(a, es)
    requires Valid(Exec(a, es), fs)
    ensures Valid(a, es + fs)
    ensures Exec(a, es + fs) == Exec(Exec(a, es), fs)
    decreases |es|
  {
    if es == [] {
      assert es + fs == fs;
    } else {
      ExecConcat(Do(a, es[0]), es[1..], fs);
      assert (es + fs)[1..] == es[1..] + fs;
    }
  }

  lemma {:induction false} VisibleConcat(es: seq<Event>, fs: seq<Event>)
    ensures Visible(es + fs) == Visible(es) + Visible(fs)
  {
    if es == [] {
      assert es + fs == fs;
    } else {
      VisibleConcat(es[1..], fs);
      Regroup(es, fs);
      var all := es + fs;
      assert all[0] == es[0] && all[1..] == es[1..] + fs;
      var first := if es[0].Call? || es[0].Return? || es[0].Die? then [es[0]] else [];
      assert Visible(all) == first + Visible(all[1..]) && Visible(es) == first + Visible(es[1..]);
      hide Visible;
      Assoc(first, Visible(es[1..]), Visible(fs));
    }
  }

  /** One operation that has taken effect. */
  datatype Entry = Entry(p: nat, op: Op, ret: Ret)

  /** The operations of a run in the order in which they took effect. */
  function Commits(a: Atomic, es: seq<Event>): seq<Entry>
    requires Valid(a, es)
    decreases |es|
  {
    if es == [] then []
    else
      var b := Do(a, es[0]);
      (if es[0].Commit? then [Entry(es[0].p, b.clients[es[0].p].op, b.clients[es[0].p].ret)] else [])
      + Commits(b, es[1..])
  }

  /** `log` is a sequential history of the stack: one call after another, each with the answer
      a lone caller would have received. */
  predicate Sequential(stack: seq<Val>, sizes: seq<int>, log: seq<Entry>, final: seq<Val>)
    decreases |log|
  {
    if log == [] then stack == final
    else
      && log[0].p < |sizes|
      && Apply(stack, log[0].op, sizes[log[0].p]).1 == log[0].ret
      && Sequential(Apply(stack, log[0].op, sizes[log[0].p]).0, sizes, log[1..], final)
  }

  /** Every run of the atomic stack is explained by the sequential history of its commits. */
  lemma {:induction false} CommitsAreSequential(a: Atomic, es: seq<Event>)
    requires Valid(a, es)
    ensures Sequential(a.stack, a.sizes, Commits(a, es), Exec(a, es).stack)
    decreases |es|
  {
    if es != [] {
      var b := Do(a, es[0]);
      CommitsAreSequential(b, es[1..]);
      if es[0].Commit? {
        assert Commits(a, es)[1..] == Commits(b, es[1..]);
      } else {
        assert Commits(a, es) == Commits(b, es[1..]);
      }
    }
  }
}
