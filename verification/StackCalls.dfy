/** push and pop of Stack/stack.c as written: one process updating the segment and the
    semaphores in place.  What each call does is tied to the transition system of `SysVStack`. */
module StackCalls {
  import A = AtomicStack
  import S = SysVStack
  import T = SysVTheorems

  const SEM_COUNT := 0
  const SEM_FLAG := 1

  /** The stack_t of one attached process, with the semaphore set it names.  `wait` is the
      timeout_flag of that process and `undo` its pending adjustment of FLAG. */
  class Stack {
    const size: int
    const memory: array<A.Val>
    const semvmx: nat
    var count: int
    var flag: int
    var undo: int
    var wait: int

    ghost predicate Valid()
      reads this, memory
    {
      && 0 <= count <= memory.Length && count <= semvmx && 0 <= flag <= semvmx
      && size <= memory.Length
    }

    ghost function View(): S.Shared
      reads this, memory
    {
      S.Shared(S.Present(memory.Length), true, flag, count, memory[..], 1, 1)
    }

    ghost function Self(): S.Proc
      reads this
    {
      S.Proc(S.Ready, size, undo)
    }

    /** Lowering FLAG fails in an unknown mode, or when FLAG is 0 and the mode is not to wait for
        ever; waiting for ever for a FLAG of 0 never ends if nobody else runs. */
    predicate Refused()
      reads this
    {
      wait < -1 || wait > 1 || (flag < 1 && wait != 0)
    }

    predicate Blocked()
      reads this
    {
      flag < 1 && wait == 0
    }

    constructor (size: int, memory: array<A.Val>, semvmx: nat)
      requires size <= memory.Length && semvmx >= 1
      ensures Valid() && this.size == size && this.memory == memory && this.semvmx == semvmx
      ensures View() == S.Shared(S.Present(memory.Length), true, 1, 0, memory[..], 1, 1)
      ensures undo == 0 && wait == 0
    {
      this.size, this.memory, this.semvmx := size, memory, semvmx;
      count, flag, undo, wait := 0, 1, 0, 0;
    }
  }

  method GetSize(stack: Stack?) returns (n: int)
    ensures n == if stack == null then -1 else stack.size
  {
    if stack == null { n := -1; } else { n := stack.size; }
  }

  method GetCount(stack: Stack?) returns (n: int)
    ensures n == if stack == null then -1 else stack.count
  {
    if stack == null { n := -1; } else { n := stack.count; }
  }

  /** semop on one semaphore of the set, when nobody else runs.  An operation of 0, which would wait
      for zero, is never asked for. */
  method SemChange(stack: Stack, num: int, val: int, undo: bool) returns (res: A.Result)
    requires val == 1 || val == -1
    modifies stack
    ensures stack.wait == old(stack.wait)
    ensures res.Sleeps? <==>
      || (num == SEM_COUNT && old(stack.count) + val < 0)
      || (num == SEM_FLAG && stack.wait == 0 && old(stack.flag) + val < 0)
    ensures res == A.Returns(0) <==>
      || (num == SEM_COUNT && 0 <= old(stack.count) + val <= stack.semvmx)
      || (num == SEM_FLAG && -1 <= stack.wait <= 1 && 0 <= old(stack.flag) + val <= stack.semvmx)
    ensures res == A.Returns(0) || res == A.Returns(-1) || res == A.Sleeps
    ensures res == A.Returns(0) && num == SEM_COUNT ==>
      stack.count == old(stack.count) + val && stack.flag == old(stack.flag) && stack.undo == old(stack.undo)
    ensures res == A.Returns(0) && num == SEM_FLAG ==>
      && stack.flag == old(stack.flag) + val && stack.count == old(stack.count)
      && stack.undo == if undo then old(stack.undo) - val else old(stack.undo)
    ensures res != A.Returns(0) ==>
      stack.flag == old(stack.flag) && stack.count == old(stack.count) && stack.undo == old(stack.undo)
  {
    if num == SEM_COUNT {
      if stack.count + val < 0 {
        return A.Sleeps;
      }
      if stack.count + val > stack.semvmx {
        return A.Returns(-1);
      }
      stack.count := stack.count + val;
      return A.Returns(0);
    } else if num == SEM_FLAG {
      if stack.wait == -1 || stack.wait == 0 || stack.wait == 1 {
        if stack.flag + val < 0 {
          return if stack.wait == 0 then A.Sleeps else A.Returns(-1);
        }
        if stack.flag + val > stack.semvmx {
          return A.Returns(-1);
        }
        stack.flag := stack.flag + val;
        if undo {
          stack.undo := stack.undo - val;
        }
        return A.Returns(0);
      } else {
        return A.Returns(-1);
      }
    } else {
      return A.Returns(-1);
    }
  }

  method Push(stack: Stack?, val: A.Val) returns (ret: A.Result)
    requires stack != null ==> stack.Valid()
    modifies if stack == null then {} else {stack, stack.memory}
    ensures stack == null ==> ret == A.Returns(-1)
    ensures stack != null ==> stack.Valid() && stack.undo == old(stack.undo) && stack.wait == old(stack.wait)
    ensures stack != null && old(stack.Blocked()) ==> ret == A.Sleeps && stack.View() == old(stack.View())
    ensures stack != null && old(stack.Refused()) ==> ret == A.Returns(-1) && stack.View() == old(stack.View())
    ensures stack != null && !old(stack.Refused()) && !old(stack.Blocked()) ==>
      var r := T.Outcome(old(stack.View()), stack.semvmx, old(stack.Self()), A.Push(val));
      stack.View() == r.0 && ret == A.Returns(A.Code(r.1))
    ensures stack != null && old(stack.flag) < 1 && stack.wait == 0 ==> ret == A.Sleeps
    ensures stack != null && (old(stack.flag) < 1 || stack.wait < -1 || stack.wait > 1) ==>
      ret != A.Returns(0) && stack.count == old(stack.count) && stack.memory[..] == old(stack.memory[..])
    ensures stack != null && old(stack.flag) >= 1 && -1 <= stack.wait <= 1 ==>
      && stack.flag == old(stack.flag)
      && (ret == A.Returns(0) <==> old(stack.count) < stack.size)
      && (ret == A.Returns(-1) <==> old(stack.count) >= stack.size)
      && (ret == A.Returns(0) ==>
            && stack.memory[..] == old(stack.memory[..])[old(stack.count) := val]
            && stack.count == if old(stack.count) < stack.semvmx then old(stack.count) + 1 else old(stack.count))
      && (ret == A.Returns(-1) ==> stack.count == old(stack.count) && stack.memory[..] == old(stack.memory[..]))
  {
    if stack == null {
      return A.Returns(-1);
    }
    var check := SemChange(stack, SEM_FLAG, -1, true);
    if check == A.Returns(0) {
      var count := GetCount(stack);
      var size := GetSize(stack);
      if count >= size {
        var _ := SemChange(stack, SEM_FLAG, 1, true);
        return A.Returns(-1);
      }
      count := GetCount(stack);
      stack.memory[count] := val;
      var _ := SemChange(stack, SEM_COUNT, 1, false);
      var _ := SemChange(stack, SEM_FLAG, 1, true);
      return A.Returns(0);
    }
    return check;
  }

  method Pop(stack: Stack?) returns (ret: A.Result, val: A.Val)
    requires stack != null ==> stack.Valid()
    modifies stack
    ensures stack == null ==> ret == A.Returns(-1)
    ensures stack != null ==> stack.Valid() && stack.undo == old(stack.undo) && stack.wait == old(stack.wait)
    ensures stack != null && old(stack.Blocked()) ==> ret == A.Sleeps && stack.View() == old(stack.View())
    ensures stack != null && old(stack.Refused()) ==> ret == A.Returns(-1) && stack.View() == old(stack.View())
    ensures stack != null && !old(stack.Refused()) && !old(stack.Blocked()) ==>
      var r := T.Outcome(old(stack.View()), stack.semvmx, old(stack.Self()), A.Pop);
      stack.View() == r.0 && ret == A.Returns(A.Code(r.1)) && (r.1.Got? ==> val == r.1.val)
    ensures stack != null && old(stack.flag) < 1 && stack.wait == 0 ==> ret == A.Sleeps
    ensures stack != null && (old(stack.flag) < 1 || stack.wait < -1 || stack.wait > 1) ==>
      ret != A.Returns(0) && stack.count == old(stack.count)
    ensures stack != null && old(stack.flag) >= 1 && -1 <= stack.wait <= 1 ==>
      && stack.flag == old(stack.flag)
      && (ret == A.Returns(0) <==> old(stack.count) > 0)
      && (ret == A.Returns(-1) <==> old(stack.count) == 0)
      && (ret == A.Returns(0) ==> stack.count == old(stack.count) - 1 && val == stack.memory[stack.count])
      && (ret == A.Returns(-1) ==> stack.count == 0)
  {
    val := 0;
    if stack == null {
      return A.Returns(-1), val;
    }
    var check := SemChange(stack, SEM_FLAG, -1, true);
    if check == A.Returns(0) {
      var count := GetCount(stack);
      if count == 0 {
        var _ := SemChange(stack, SEM_FLAG, 1, true);
        return A.Returns(-1), val;
      }
      count := GetCount(stack);
      val := stack.memory[count - 1];
      var _ := SemChange(stack, SEM_COUNT, -1, false);
      var _ := SemChange(stack, SEM_FLAG, 1, true);
      return A.Returns(0), val;
    }
    return check, val;
  }

  /** The last pushed value is the next one popped, and the stack is as before. */
  method PushThenPop(stack: Stack, val: A.Val) returns (x: A.Val)
    requires stack.Valid() && stack.wait == 0 && 1 <= stack.flag
    requires stack.count < stack.size <= stack.semvmx
    modifies stack, stack.memory
    ensures x == val
    ensures stack.Valid() && stack.count == old(stack.count)
    ensures stack.memory[..stack.count] == old(stack.memory[..stack.count])
  {
    T.OutcomeIsApply(stack.View(), stack.semvmx, stack.Self(), A.Push(val));
    var ret := Push(stack, val);
    T.OutcomeIsApply(stack.View(), stack.semvmx, stack.Self(), A.Pop);
    ret, x := Pop(stack);
  }
}
