/** What attach_stack of Stack/stack.c comes to for a process nobody disturbs. */
module SysVAttach {
  import opened SysVStack
  import opened SysVTheorems

  /** `p` takes `n` actions and is then at `pc`, with the shared part as given and all others as before. */
  ghost predicate ComesTo(s: State, p: nat, n: nat, pc: Pc, sh: Shared)
    requires p < |s.procs|
  {
    var ls := Repeat(Label(p, Step), n);
    Valid(s, ls) && Exec(s, ls) == s.(sh := sh, procs := s.procs[p := s.procs[p].(pc := pc)])
  }

  lemma OneStep(s: State, p: nat, pc: Pc, sh: Shared)
    requires p < |s.procs| && Enabled(s, Label(p, Step))
    requires StepProc(s.sh, s.semvmx, s.procs[p]) == (sh, s.procs[p].(pc := pc))
    ensures ComesTo(s, p, 1, pc, sh)
  {
    RepeatMore(Label(p, Step), 0);
    One(s, Label(p, Step));
  }

  lemma {:induction false} OneStepMore(s: State, p: nat, pc: Pc, sh: Shared, n: nat, end: Pc, final: Shared)
    requires p < |s.procs| && Enabled(s, Label(p, Step))
    requires StepProc(s.sh, s.semvmx, s.procs[p]) == (sh, s.procs[p].(pc := pc))
    requires ComesTo(s.(sh := sh, procs := s.procs[p := s.procs[p].(pc := pc)]), p, n, end, final)
    ensures ComesTo(s, p, n + 1, end, final)
  {
    var t := s.(sh := sh, procs := s.procs[p := s.procs[p].(pc := pc)]);
    assert t == Do(s, Label(p, Step));
    RepeatMore(Label(p, Step), n);
    hide Enabled, Do, Observe, Repeat, StepProc;
    Cons(s, Label(p, Step), Repeat(Label(p, Step), n));
    assert t.procs[p := t.procs[p].(pc := end)] == s.procs[p := s.procs[p].(pc := end)];
  }

  /** Where a segment exists, the caller is turned away if its size is negative or larger, or if the
      semaphores are not there yet; otherwise it attaches.  Nothing shared changes. */
  lemma {:induction false} AttachToExisting(s: State, p: nat, z: int)
    requires p < |s.procs| && s.procs[p].pc == Start && s.sh.seg == Present(z)
    ensures s.procs[p].size < 0 || s.procs[p].size > z ==> ComesTo(s, p, 1, Rejected, s.sh)
    ensures 0 <= s.procs[p].size <= z ==> ComesTo(s, p, 2, if s.sh.sems then Ready else Rejected, s.sh)
  {
    if s.procs[p].size < 0 || s.procs[p].size > z {
      OneStep(s, p, Rejected, s.sh);
    } else {
      var t := s.(procs := s.procs[p := s.procs[p].(pc := Found)]);
      OneStep(t, p, if s.sh.sems then Ready else Rejected, t.sh);
      OneStepMore(s, p, Found, s.sh, 1, if s.sh.sems then Ready else Rejected, s.sh);
    }
  }

  /** Where none exists, a size below 1 trips the assertion; a caller that finds the semaphores taken is
      turned away after making the segment; and otherwise it makes segment and semaphores, raises FLAG
      by one and is attached. */
  lemma {:induction false} AttachAsCreator(s: State, p: nat)
    requires p < |s.procs| && s.procs[p].pc == Start && s.sh.seg == Absent
    ensures s.procs[p].size < 1 ==> ComesTo(s, p, 2, Dead, s.sh)
    ensures s.procs[p].size >= 1 ==>
      var size := s.procs[p].size;
      var made := s.sh.(seg := Present(size), mem := seq(size, i => 0), creators := s.sh.creators + 1);
      if s.sh.sems then ComesTo(s, p, 3, Rejected, made)
      else ComesTo(s, p, 4, Ready, made.(sems := true, flag := s.sh.flag + 1, raises := s.sh.raises + 1))
  {
    var pr := s.procs[p];
    var s1 := s.(procs := s.procs[p := pr.(pc := Missing)]);
    if pr.size < 1 {
      OneStep(s1, p, Dead, s.sh);
      OneStepMore(s, p, Missing, s.sh, 1, Dead, s.sh);
    } else {
      var made := s.sh.(seg := Present(pr.size), mem := seq(pr.size, i => 0), creators := s.sh.creators + 1);
      assert made.mem == Zeroed(pr.size);
      var s2 := s1.(sh := made, procs := s1.procs[p := pr.(pc := Created)]);
      if s.sh.sems {
        OneStep(s2, p, Rejected, made);
        OneStepMore(s1, p, Created, made, 1, Rejected, made);
        OneStepMore(s, p, Missing, s.sh, 2, Rejected, made);
      } else {
        var up := made.(sems := true);
        var s3 := s2.(sh := up, procs := s2.procs[p := pr.(pc := Raising)]);
        var end := up.(flag := s.sh.flag + 1, raises := s.sh.raises + 1);
        OneStep(s3, p, Ready, end);
        OneStepMore(s2, p, Raising, up, 1, Ready, end);
        OneStepMore(s1, p, Created, made, 2, Ready, end);
        OneStepMore(s, p, Missing, s.sh, 3, Ready, end);
      }
    }
  }

  /** A creator that comes too late trips the assertion. */
  lemma LateCreatorAborts(s: State, p: nat)
    requires p < |s.procs| && s.procs[p].pc == Missing && s.sh.seg.Present?
    ensures ComesTo(s, p, 1, Dead, s.sh)
  {
    OneStep(s, p, Dead, s.sh);
  }
}
