/** The file copy of Signal_copy can deadlock, whatever the file: the two ways in which the receiver
    takes something else for the sender's greeting. */
module SignalDeadlock {
  import opened SignalCopy
  import opened SignalInvariant
  import opened SignalTheorems

  lemma {:induction false} ReachMore(s: State, l: Label)
    requires Reachable(s) && Enabled(s, l)
    ensures Reachable(Do(s, l))
  {
    hide Enabled, Do;
    var s0, ls :| Init(s0) && Valid(s0, ls) && s == Exec(s0, ls);
    Cons(s, l, []);
    Join(s0, ls, [l] + []);
    assert Valid(s0, ls + ([l] + [])) && Exec(s0, ls + ([l] + [])) == Do(s, l);
  }

  lemma ReachStart(s: State)
    requires Init(s)
    ensures Reachable(s)
  {
    assert Valid(s, []) && Exec(s, []) == s;
  }

  /** The receiver waits for its first signal, and one that is not the greeting is there to be taken. */
  predicate AboutToMistake(s: State, x: Incoming) {
    s.rcv.pc.AwaitHello? && x in s.rcv.pending && x != Peer(Continue) && User !in s.rcv.pending - {x}
  }

  /** The user may interrupt the receiver before the sender has greeted it, or the sender after it has;
      in the second case the sender's FINISH may be taken before its CONTINUE. */
  lemma {:induction false} MistakesHappen(s: State) returns (one: State, two: State)
    requires Init(s)
    ensures Reachable(one) && AboutToMistake(one, User) && one.src == s.src
    ensures Reachable(two) && AboutToMistake(two, Peer(Finish)) && two.src == s.src
  {
    ReachStart(s);
    one := Do(s, StopReceiver);
    ReachMore(s, StopReceiver);
    var s1 := Do(s, SKill);
    var s2 := Do(s1, StopSender);
    var s3 := Do(s2, STake(User));
    two := Do(s3, SKill);
    ReachMore(s, SKill);
    ReachMore(s1, StopSender);
    ReachMore(s2, STake(User));
    ReachMore(s3, SKill);
  }

  /** From each of them the two programs, left to themselves, end up waiting for each other. */
  lemma {:induction false} MistakeDeadlocks(s: State, x: Incoming) returns (t: State)
    requires Reachable(s) && AboutToMistake(s, x)
    ensures !NeverStuck(Do(s, RTake(x)))
    ensures Reachable(t) && Stuck(t) && t.src == s.src
  {
    ReachableInv(s);
    DeadlockExactly(s, x);
    var u := Do(s, RTake(x));
    ReachMore(s, RTake(x));
    var ls :| Valid(u, ls) && Stuck(Exec(u, ls));
    t := Exec(u, ls);
    StepKeeps(s, RTake(x));
    RunKeeps(u, ls);
    hide Enabled, Do, Stuck, Inv;
    ReachRun(u, ls);
  }

  lemma {:induction false} ReachRun(s: State, ls: seq<Label>)
    requires Reachable(s) && Valid(s, ls)
    ensures Reachable(Exec(s, ls))
    decreases |ls|
  {
    if ls != [] {
      ReachMore(s, ls[0]);
      hide Enabled, Do, Reachable;
      ReachRun(Do(s, ls[0]), ls[1..]);
    }
  }

  /** For every file there is a run from the start that deadlocks. */
  lemma {:induction false} DeadlockHappens(s: State) returns (t: State)
    requires Init(s)
    ensures Reachable(t) && Stuck(t) && t.src == s.src
  {
    var one, two := MistakesHappen(s);
    t := MistakeDeadlocks(one, User);
  }
}
