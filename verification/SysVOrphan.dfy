/** The lock nobody can take: a creator that dies between creating the semaphores and raising FLAG,
    and exactly which processes can end up so. */
module SysVOrphan {
  import opened SysVStack
  import opened SysVTheorems

  /** `q` waits for the lock and no run whatever lets it in. */
  ghost predicate LockedOut(s: State, q: nat) {
    q < |s.procs| && s.procs[q].pc.Acquire? && !CanEnter(s, q)
  }

  /** `p` can create a segment that `q` can attach to. */
  predicate CanCreateFor(s: State, p: nat, q: nat) {
    p < |s.procs| && q < |s.procs| && p != q && 1 <= s.procs[p].size && 0 <= s.procs[q].size <= s.procs[p].size
  }

  lemma {:induction false} OneMore(s0: State, ls: seq<Label>, l: Label)
    requires Valid(s0, ls) && Enabled(Exec(s0, ls), l)
    ensures Valid(s0, ls + [l]) && Exec(s0, ls + [l]) == Do(Exec(s0, ls), l)
  {
    One(Exec(s0, ls), l);
    hide Enabled, Do;
    ExecConcat(s0, ls, [l]);
  }

  /** What `p` does until it is about to raise FLAG, and its death. */
  lemma {:induction false} CreateAndDie(s: State, p: nat) returns (ls: seq<Label>)
    requires Init(s) && p < |s.procs| && s.procs[p].size >= 1
    ensures Valid(s, ls)
    ensures var t := Exec(s, ls);
      && t.sh.seg == Present(s.procs[p].size) && t.sh.sems && t.sh.raises == 0
      && t.procs == s.procs[p := s.procs[p].(pc := Dead)]
  {
    var step, crash := Label(p, Step), Label(p, Crash);
    var s1 := Do(s, step);
    var s2 := Do(s1, step);
    var s3 := Do(s2, step);
    assert s3.procs[p].pc.Raising?;
    OneMore(s, [], step);
    OneMore(s, [step], step);
    OneMore(s, [step, step], step);
    OneMore(s, [step, step, step], crash);
    ls := [step, step, step, crash];
    assert [] + [step] == [step] && [step] + [step] == [step, step];
    assert [step, step] + [step] == [step, step, step] && [step, step, step] + [crash] == ls;
    assert Do(s3, crash).procs == s.procs[p := s.procs[p].(pc := Dead)];
  }

  /** Then `q` attaches and calls pop. */
  lemma {:induction false} AttachAndCall(s: State, q: nat) returns (ls: seq<Label>)
    requires q < |s.procs| && s.procs[q].pc.Start?
    requires s.sh.seg.Present? && s.sh.sems && 0 <= s.procs[q].size <= s.sh.seg.size
    ensures Valid(s, ls)
    ensures Exec(s, ls) == s.(procs := s.procs[q := s.procs[q].(pc := Acquire(A.Pop))])
  {
    var step, call := Label(q, Step), Label(q, Invoke(A.Pop));
    var s1 := Do(s, step);
    var s2 := Do(s1, step);
    OneMore(s, [], step);
    OneMore(s, [step], step);
    OneMore(s, [step, step], call);
    ls := [step, step, call];
    assert [] + [step] == [step] && [step] + [step] == [step, step] && [step, step] + [call] == ls;
    assert Do(s2, call).procs == s.procs[q := s.procs[q].(pc := Acquire(A.Pop))];
  }

  /** It happens: whenever one of the processes can create a segment large enough for another, some
      run leaves the other waiting for ever. */
  lemma {:induction false} OrphanHappens(s: State, p: nat, q: nat) returns (t: State)
    requires Init(s) && CanCreateFor(s, p, q)
    ensures From(s, t) && Reachable(t) && LockedOut(t, q)
  {
    var ls := CreateAndDie(s, p);
    var mid := Exec(s, ls);
    assert mid.procs[q] == s.procs[q];
    var ms := AttachAndCall(mid, q);
    t := Exec(mid, ms);
    hide Enabled, Do, Valid, Exec, CanEnter;
    ExecConcat(s, ls, ms);
    assert Reached(s, ls + ms, t);
    ReachableInv(t);
    ProgressExactly(t, q);
  }

  predicate Reached(s: State, ls: seq<Label>, t: State) { Valid(s, ls) && t == Exec(s, ls) }

  ghost predicate From(s: State, t: State) { exists ls :: Reached(s, ls, t) }

  /** Until FLAG is raised, the process that created the segment is about to raise it, dead, or turned
      away. */
  ghost predicate CreatorKnown(s: State) {
    s.sh.seg.Present? && s.sh.raises == 0 ==> exists p :: Creator(s, p)
  }

  predicate Creator(s: State, p: nat) {
    && p < |s.procs| && s.sh.seg.Present? && 1 <= s.procs[p].size == s.sh.seg.size
    && (Creating(s.procs[p].pc) || s.procs[p].pc.Dead? || s.procs[p].pc.Rejected?)
  }

  lemma {:induction false} StepKeepsCreator(s: State, l: Label)
    requires Inv(s) && CreatorKnown(s) && Enabled(s, l)
    ensures CreatorKnown(Do(s, l)) && Sizes(Do(s, l).procs) == Sizes(s.procs)
  {
    var t := Do(s, l);
    ClientsUpdate(s.procs, l.p, t.procs[l.p]);
    if t.sh.seg.Present? && t.sh.raises == 0 {
      if s.sh.seg.Absent? {
        assert Creator(t, l.p);
      } else {
        var p :| Creator(s, p);
        assert Local(s.sh, s.procs[l.p]);
        assert Creator(t, p);
      }
    }
  }

  lemma {:induction false} RunKeepsCreator(s: State, ls: seq<Label>)
    requires Inv(s) && CreatorKnown(s) && Valid(s, ls)
    ensures Inv(Exec(s, ls)) && CreatorKnown(Exec(s, ls)) && Sizes(Exec(s, ls).procs) == Sizes(s.procs)
    decreases |ls|
  {
    hide Inv, CreatorKnown, Enabled, Do, Sizes;
    if ls != [] {
      StepKeepsInv(s, ls[0]);
      StepKeepsCreator(s, ls[0]);
      RunKeepsCreator(Do(s, ls[0]), ls[1..]);
    }
  }

  /** A run that locks a caller out has a creator, other than the caller, whose segment is large
      enough for it. */
  lemma {:induction false} OrphanNeedsCreator(s: State, ls: seq<Label>, q: nat) returns (p: nat)
    requires Init(s) && Valid(s, ls) && LockedOut(Exec(s, ls), q)
    ensures CanCreateFor(s, p, q)
  {
    InitInv(s);
    RunKeepsCreator(s, ls);
    var t := Exec(s, ls);
    ProgressExactly(t, q);
    MutualExclusion(t);
    hide Exec, Valid, Init, CanEnter;
    assert Local(t.sh, t.procs[q]);
    p :| Creator(t, p);
    SameSize(s, t, p);
    SameSize(s, t, q);
  }

  lemma SameSize(s: State, t: State, p: nat)
    requires Sizes(s.procs) == Sizes(t.procs) && p < |t.procs|
    ensures p < |s.procs| && s.procs[p].size == t.procs[p].size
  {
    assert |Sizes(s.procs)| == |Sizes(t.procs)|;
    assert Sizes(s.procs)[p] == Sizes(t.procs)[p];
  }

  /** From a fresh start a process can be locked out for ever exactly when another one can create a
      segment that is large enough for it. */
  lemma {:induction false} LockedOutExactly(s: State, q: nat)
    requires Init(s)
    ensures (exists t :: From(s, t) && LockedOut(t, q)) <==> exists p :: CanCreateFor(s, p, q)
  {
    if t :| From(s, t) && LockedOut(t, q) {
      var ls :| Reached(s, ls, t);
      var p := OrphanNeedsCreator(s, ls, q);
    }
    if p :| CanCreateFor(s, p, q) {
      var t := OrphanHappens(s, p, q);
    }
  }
}
