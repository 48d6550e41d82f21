/** push and pop of Stack/stack_old.c as written, in infinite-wait mode: one process updating the
    segment and the two POSIX semaphores in place. */
module PosixCalls {
  import A = AtomicStack

  class Stack {
    const size: int
    const memory: array<A.Val>
    var count: int
    var flag: int

    ghost predicate Valid()
      reads this, memory
    {
      0 <= count <= memory.Length && 0 <= flag && size <= memory.Length
    }

    ghost function Contents(): seq<A.Val>
      reads this, memory
      requires Valid()
    {
      memory[..count]
    }

    constructor (size: int, memory: array<A.Val>)
      requires size <= memory.Length
      ensures Valid() && this.size == size && this.memory == memory && Contents() == [] && flag == 1
    {
      this.size, this.memory, count, flag := size, memory, 0, 1;
    }
  }

  /** A wait on a semaphore at 0 sleeps, and nobody else runs here who could wake the caller. */
  method SemWaitFlag(stack: Stack) returns (woken: bool)
    modifies stack`flag
    ensures woken == (old(stack.flag) >= 1)
    ensures stack.flag == if woken then old(stack.flag) - 1 else old(stack.flag)
  {
    woken := stack.flag >= 1;
    if woken {
      stack.flag := stack.flag - 1;
    }
  }

  method SemPostFlag(stack: Stack)
    modifies stack`flag
    ensures stack.flag == old(stack.flag) + 1
  {
    stack.flag := stack.flag + 1;
  }

  method GetCount(stack: Stack?) returns (n: int)
    ensures n == if stack == null then -1 else stack.count
  {
    if stack == null { n := -1; } else { n := stack.count; }
  }

  /** The call is one push of the atomic stack; the cells above the top are left alone. */
  method Push(stack: Stack?, val: A.Val) returns (ret: A.Result)
    requires stack != null ==> stack.Valid()
    modifies if stack == null then {} else {stack, stack.memory}
    ensures stack == null ==> ret == A.Returns(-1)
    ensures stack != null ==> stack.Valid() && stack.flag == old(stack.flag)
    ensures stack != null && stack.flag < 1 ==>
      ret == A.Sleeps && stack.count == old(stack.count) && stack.memory[..] == old(stack.memory[..])
    ensures stack != null && stack.flag >= 1 ==>
      var r := A.Apply(old(stack.Contents()), A.Push(val), stack.size);
      stack.Contents() == r.0 && ret == A.Returns(A.Code(r.1))
    ensures stack != null && stack.flag >= 1 ==>
      && (ret == A.Returns(0) <==> old(stack.count) < stack.size)
      && (ret == A.Returns(-1) <==> old(stack.count) >= stack.size)
      && (ret == A.Returns(0) ==> stack.Contents() == old(stack.Contents()) + [val])
      && (ret == A.Returns(-1) ==> stack.Contents() == old(stack.Contents()))
    ensures stack != null ==>
      forall i :: old(stack.count) < i < stack.memory.Length ==> stack.memory[i] == old(stack.memory[i])
  {
    if stack == null {
      return A.Returns(-1);
    }
    var woken := SemWaitFlag(stack);
    if !woken {
      return A.Sleeps;
    }
    var count := GetCount(stack);
    if count >= stack.size {
      SemPostFlag(stack);
      return A.Returns(-1);
    }
    count := GetCount(stack);
    stack.memory[count] := val;
    stack.count := stack.count + 1;
    SemPostFlag(stack);
    return A.Returns(0);
  }

  /** The count comes down first, and the cell it now names is read; no cell is written. */
  method Pop(stack: Stack?) returns (ret: A.Result, val: A.Val)
    requires stack != null ==> stack.Valid()
    modifies stack
    ensures stack == null ==> ret == A.Returns(-1)
    ensures stack != null ==> stack.Valid() && stack.flag == old(stack.flag)
    ensures stack != null && stack.flag < 1 ==>
      ret == A.Sleeps && stack.count == old(stack.count) && stack.memory[..] == old(stack.memory[..])
    ensures stack != null && stack.flag >= 1 ==>
      var r := A.Apply(old(stack.Contents()), A.Pop, stack.size);
      stack.Contents() == r.0 && ret == A.Returns(A.Code(r.1)) && (r.1.Got? ==> val == r.1.val)
    ensures stack != null && stack.flag >= 1 ==>
      && (ret == A.Returns(0) <==> old(stack.count) > 0)
      && (ret == A.Returns(-1) <==> old(stack.count) == 0)
      && (ret == A.Returns(0) ==> old(stack.Contents()) == stack.Contents() + [val])
      && (ret == A.Returns(-1) ==> stack.Contents() == [])
  {
    val := 0;
    if stack == null {
      return A.Returns(-1), val;
    }
    var woken := SemWaitFlag(stack);
    if !woken {
      return A.Sleeps, val;
    }
    var count := GetCount(stack);
    if count == 0 {
      SemPostFlag(stack);
      return A.Returns(-1), val;
    }
    stack.count := stack.count - 1;
    count := GetCount(stack);
    val := stack.memory[count];
    SemPostFlag(stack);
    return A.Returns(0), val;
  }

  /** Pushing as many values as there is room for and popping as many gives them back, last first. */
  method FillAndDrain(stack: Stack, vals: seq<A.Val>) returns (back: seq<A.Val>)
    requires stack.Valid() && stack.flag >= 1 && stack.count + |vals| <= stack.size
    modifies stack, stack.memory
    ensures stack.Valid() && stack.Contents() == old(stack.Contents())
    ensures |back| == |vals| && forall i :: 0 <= i < |vals| ==> back[i] == vals[|vals| - 1 - i]
  {
    ghost var base := stack.Contents();
    for i := 0 to |vals|
      invariant stack.Valid() && stack.flag >= 1
      invariant stack.Contents() == base + vals[..i]
    {
      assert vals[..i + 1] == vals[..i] + [vals[i]];
      var _ := Push(stack, vals[i]);
    }
    back := [];
    for i := 0 to |vals|
      invariant stack.Valid() && stack.flag >= 1 && |back| == i
      invariant stack.Contents() == base + vals[..|vals| - i]
      invariant forall j :: 0 <= j < i ==> back[j] == vals[|vals| - 1 - j]
    {
      var top := |vals| - i - 1;
      assert vals[..top + 1] == vals[..top] + [vals[top]];
      var _, x := Pop(stack);
      back := back + [x];
    }
  }
}
