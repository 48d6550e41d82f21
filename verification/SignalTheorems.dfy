/** What the file copy of Signal_copy delivers, when it ends, and exactly when it can fail. */
module SignalTheorems {
  import opened SignalBits
  import opened SignalCopy
  import opened SignalInvariant

  lemma StepKeeps(s: State, l: Label)
    requires Inv(s) && Enabled(s, l)
    ensures Inv(Do(s, l)) && Do(s, l).src == s.src
  {
    match l
    case SKill => if s.snd.pc.Emit? { EmitKeeps(s); } else { SpeakKeeps(s); }
    case STake(x) => STakeKeeps(s, x);
    case RKill =>
      if s.rcv.pc.AckFirst? { AckFirstKeeps(s); }
      else if s.rcv.pc.Ack? { AckKeeps(s); }
      else { DismissKeeps(s); }
    case RTake(x) =>
      if s.rcv.pc.AwaitHello? { HelloKeeps(s, x); }
      else if x == Peer(Get0) || x == Peer(Get1) { BitKeeps(s, x); }
      else { WordKeeps(s, x); }
    case StopSender => UserKeeps(s, l);
    case StopReceiver => UserKeeps(s, l);
  }

  lemma {:induction false} RunKeeps(s: State, ls: seq<Label>)
    requires Inv(s) && Valid(s, ls)
    ensures Inv(Exec(s, ls)) && Exec(s, ls).src == s.src
    decreases |ls|
  {
    if ls != [] {
      StepKeeps(s, ls[0]);
      RunKeeps(Do(s, ls[0]), ls[1..]);
    }
  }

  lemma {:induction false} ReachableInv(s: State)
    requires Reachable(s)
    ensures Inv(s)
  {
    var s0, ls :| Init(s0) && Valid(s0, ls) && s == Exec(s0, ls);
    RunKeeps(s0, ls);
  }

  predicate Ended(s: State) { s.snd.pc.Left? && s.rcv.pc.Closed? }

  // ---------------------------------------------------------------- delivery

  /** Unless a second credit was handed out at the start, at most one bit is under way, and the
      output is at every moment a prefix of the source in whole bytes, interrupted or not; when
      both ends leave without an interruption it is the source. */
  lemma {:induction false} DeliversExactly(s: State)
    requires Reachable(s) && !s.start.TwoCredits?
    ensures |InFlight(s.rcv)| <= 1
    ensures s.rcv.out <= s.src
    ensures Ended(s) && !s.interrupted ==> s.rcv.out == s.src && s.rcv.arr == []
  {
    ReachableInv(s);
    var got := Received(s.rcv);
    assert got <= AllBits(s.src) by {
      assert got <= got + InFlight(s.rcv);
    }
    BytesFollowBits(s.src, s.rcv.out, s.rcv.arr);
    if Ended(s) && !s.interrupted {
      assert |got| == |AllBits(s.src)|;
    }
  }

  lemma CreditsWhenBitSent(s: State)
    requires Inv(s) && s.snd.pc.Emit?
    ensures Credits(Do(s, SKill)) <= Credits(s)
  {
    BitPosted(s.rcv, AllBits(s.src)[s.snd.k]);
    hide AllBits, InFlight, ToReceiver, Inv;
  }

  lemma CreditsWhenBitTaken(s: State, b: Bit)
    requires Inv(s) && Enabled(s, RTake(Peer(GetBit(b)))) && s.rcv.pc.Wait?
    ensures Credits(Do(s, RTake(Peer(GetBit(b))))) <= Credits(s)
  {
    BitStep(s, b);
    BitGathered(s.rcv, b);
    var r' := Gather(s.rcv.(pending := s.rcv.pending - {Peer(GetBit(b))}), b);
    assert InFlight(r'.(pc := Ack)) == InFlight(r');
    hide AllBits, InFlight, Gather, Inv, Do, Enabled;
  }

  lemma CreditsOtherwise(s: State, l: Label)
    requires Inv(s) && Enabled(s, l) && s.hello.Proper? && !l.SKill?
    requires l.RTake? ==> l.x != Peer(Get0) && l.x != Peer(Get1)
    requires Talking(s.snd.pc) && Talking(Do(s, l).snd.pc)
    requires Listening(s.rcv.pc) && Listening(Do(s, l).rcv.pc)
    ensures Credits(Do(s, l)) <= Credits(s)
  {
    hide AllBits, Gather;
    assert InFlight(Do(s, l).rcv) == InFlight(s.rcv);
    hide InFlight, Faithful, BeforeService, Orderly;
  }

  lemma NoMoreCredits(s: State, l: Label)
    requires Inv(s) && Enabled(s, l) && s.hello.Proper?
    requires Talking(s.snd.pc) && Talking(Do(s, l).snd.pc)
    requires Listening(s.rcv.pc) && Listening(Do(s, l).rcv.pc)
    ensures Credits(Do(s, l)) <= Credits(s)
  {
    if l.SKill? {
      CreditsWhenBitSent(s);
    } else if l == RTake(Peer(Get0)) {
      CreditsWhenBitTaken(s, 0);
    } else if l == RTake(Peer(Get1)) {
      CreditsWhenBitTaken(s, 1);
    } else {
      CreditsOtherwise(s, l);
    }
  }

  /** After start-up there are one or two credits, never more than before, and never none while
      both sides are at work. */
  lemma {:induction false} CreditsNeverGrow(s: State, l: Label)
    requires Inv(s) && Enabled(s, l) && !s.start.Undecided? && s.hello.Proper?
    requires Talking(s.snd.pc) && Talking(Do(s, l).snd.pc)
    requires Listening(s.rcv.pc) && Listening(Do(s, l).rcv.pc)
    ensures 1 <= Credits(Do(s, l)) <= Credits(s) <= 2
    ensures s.start.OneCredit? ==> Credits(s) == 1
  {
    StepKeeps(s, l);
    NoMoreCredits(s, l);
    ProperStays(s, l);
    hide Do, Enabled, Credits, Shape, BeforeService, Faithful, Orderly, AllBits;
  }

  lemma ProperStays(s: State, l: Label)
    requires Enabled(s, l) && s.hello.Proper? && !s.rcv.pc.AwaitHello?
    ensures Do(s, l).hello.Proper?
  {
  }

  // ---------------------------------------------------------------- progress

  ghost predicate Stuck(s: State) {
    !Ended(s) && forall l :: Enabled(s, l) ==> ByUser(l)
  }

  /** A receiver that took the sender's FINISH for its greeting, but is about to be interrupted. */
  predicate Rescued(s: State) {
    && s.hello.Mistaken? && s.rcv.served.TheSender? && !s.rcv.pc.Reject?
    && (s.rcv.pc.Closed? || s.rcv.pc.Refuse? || User in s.rcv.pending)
  }

  /** While the greeting was not mistaken, some program can move until both have left. */
  lemma {:induction false} NextStep(s: State) returns (l: Label)
    requires Inv(s) && !Ended(s)
    requires !s.hello.Mistaken? || Rescued(s)
    ensures Enabled(s, l) && !ByUser(l)
  {
    if Enabled(s, SKill) {
      l := SKill;
    } else if Enabled(s, RKill) {
      l := RKill;
    } else if s.rcv.pc.AwaitHello? {
      l := RTake(Peer(Continue));
    } else if s.rcv.pc.Wait? && s.rcv.pending != {} {
      var x :| x in s.rcv.pending;
      l := RTake(x);
    } else {
      assert s.hello.Proper?;
      assert s.rcv.pc.Wait? ==> InFlight(s.rcv) == [];
      assert s.snd.pending != {} && !s.snd.pc.Left?;
      var x :| x in s.snd.pending;
      l := STake(x);
    }
  }

  /** No reachable state is a deadlock, as long as the greeting was not mistaken. */
  lemma {:induction false} NoDeadlock(s: State)
    requires Reachable(s) && !s.hello.Mistaken?
    ensures !Stuck(s)
  {
    ReachableInv(s);
    if !Ended(s) {
      var l := NextStep(s);
    }
  }

  predicate ByPrograms(ls: seq<Label>) {
    forall i :: 0 <= i < |ls| ==> !ByUser(ls[i])
  }

  lemma {:induction false} Cons(s: State, l: Label, ls: seq<Label>)
    requires Enabled(s, l) && Valid(Do(s, l), ls)
    ensures Valid(s, [l] + ls) && Exec(s, [l] + ls) == Exec(Do(s, l), ls)
  {
    hide Enabled, Do;
    assert ([l] + ls)[1..] == ls;
  }

  lemma {:induction false} Join(s: State, ls: seq<Label>, ms: seq<Label>)
    requires Valid(s, ls) && Valid(Exec(s, ls), ms)
    ensures Valid(s, ls + ms) && Exec(s, ls + ms) == Exec(Exec(s, ls), ms)
    decreases |ls|
  {
    hide Enabled, Do;
    if ls == [] {
      assert ls + ms == ms;
    } else {
      Join(Do(s, ls[0]), ls[1..], ms);
      assert [ls[0]] + (ls[1..] + ms) == ls + ms;
      Cons(s, ls[0], ls[1..] + ms);
    }
  }

  /** Left to themselves the programs always reach a state where none of them can move. */
  lemma {:induction false} RunOut(s: State) returns (ls: seq<Label>)
    requires Inv(s)
    ensures Valid(s, ls) && ByPrograms(ls)
    ensures Inv(Exec(s, ls))
    ensures forall l :: Enabled(Exec(s, ls), l) ==> ByUser(l)
    decreases Measure(s)
  {
    hide Measure, SenderKill, ReceiverKill;
    if l :| Enabled(s, l) && !ByUser(l) {
      StepKeeps(s, l);
      EveryStepFinishesSomething(s, l);
      var more := RunOut(Do(s, l));
      Cons(s, l, more);
      ls := [l] + more;
    } else {
      ls := [];
    }
  }

  /** No run is longer than the work its first state holds. */
  lemma {:induction false} RunsEnd(s: State, ls: seq<Label>)
    requires Inv(s) && Valid(s, ls)
    ensures |ls| <= Measure(s)
    decreases |ls|
  {
    hide Measure, SenderKill, ReceiverKill;
    if ls != [] {
      StepKeeps(s, ls[0]);
      EveryStepFinishesSomething(s, ls[0]);
      RunsEnd(Do(s, ls[0]), ls[1..]);
    }
  }

  ghost predicate NeverStuck(s: State) {
    forall ls :: Valid(s, ls) ==> !Stuck(Exec(s, ls))
  }

  /** A receiver that has taken something else for the greeting and waits for ever. */
  predicate Lost(s: State) {
    && s.hello.Mistaken? && (Listening(s.rcv.pc) || s.rcv.pc.Reject?)
    && User !in s.rcv.pending && Peer(Stop) !in s.rcv.pending
    && (s.rcv.served.TheSender? ==> Peer(Finish) !in s.rcv.pending)
  }

  lemma StaysLost(s: State, l: Label)
    requires Inv(s) && Lost(s) && Enabled(s, l) && !ByUser(l)
    ensures Lost(Do(s, l))
  {
    hide AllBits, Gather;
  }

  lemma {:induction false} LostForever(s: State, ls: seq<Label>)
    requires Inv(s) && Lost(s) && Valid(s, ls) && ByPrograms(ls)
    ensures Lost(Exec(s, ls))
    decreases |ls|
  {
    if ls != [] {
      StepKeeps(s, ls[0]);
      StaysLost(s, ls[0]);
      hide Inv, Lost, Enabled, Do;
      assert forall i :: 0 <= i < |ls| - 1 ==> ls[1..][i] == ls[i + 1];
      LostForever(Do(s, ls[0]), ls[1..]);
    }
  }

  lemma {:induction false} RescuedForever(s: State, ls: seq<Label>)
    requires Inv(s) && Rescued(s) && Valid(s, ls)
    ensures Inv(Exec(s, ls)) && Rescued(Exec(s, ls))
    decreases |ls|
  {
    if ls != [] {
      StepKeeps(s, ls[0]);
      assert Rescued(Do(s, ls[0]));
      RescuedForever(Do(s, ls[0]), ls[1..]);
    }
  }

  lemma {:induction false} HelloStays(s: State, ls: seq<Label>)
    requires Valid(s, ls) && s.hello.Proper? && Inv(s)
    ensures Exec(s, ls).hello.Proper?
    decreases |ls|
  {
    if ls != [] {
      StepKeeps(s, ls[0]);
      HelloStays(Do(s, ls[0]), ls[1..]);
    }
  }

  /** When the receiver has just taken its first signal, a deadlock lies ahead in some run exactly
      if that signal was not the sender's CONTINUE and no interruption is already pending. */
  lemma {:induction false} DeadlockExactly(s: State, x: Incoming)
    requires Inv(s) && s.rcv.pc.AwaitHello? && Enabled(s, RTake(x))
    ensures var t := Do(s, RTake(x));
      NeverStuck(t) <==> x == Peer(Continue) || User in t.rcv.pending
  {
    var t := Do(s, RTake(x));
    StepKeeps(s, RTake(x));
    assert x == User || x == Peer(Continue) || x == Peer(Finish) by {
      assert Peer(Get0) !in s.rcv.pending && Peer(Get1) !in s.rcv.pending;
      assert x.User? || x.sig.Continue? || x.sig.Finish?;
    }
    if x == Peer(Continue) {
      forall ls | Valid(t, ls) ensures !Stuck(Exec(t, ls)) {
        RunKeeps(t, ls);
        HelloStays(t, ls);
        if !Ended(Exec(t, ls)) {
          var l := NextStep(Exec(t, ls));
        }
      }
    } else if User in t.rcv.pending {
      forall ls | Valid(t, ls) ensures !Stuck(Exec(t, ls)) {
        RescuedForever(t, ls);
        if !Ended(Exec(t, ls)) {
          var l := NextStep(Exec(t, ls));
        }
      }
    } else {
      var ls := RunOut(t);
      LostForever(t, ls);
      assert Stuck(Exec(t, ls));
    }
  }

  // ---------------------------------------------------------------- the second credit

  /** The receiver is about to send its second CONTINUE, and nobody has interrupted. */
  predicate AboutToStart(s: State) {
    Inv(s) && s.hello.Proper? && s.rcv.pc.Ack? && s.start.Undecided? && !s.interrupted
  }

  /** Every run of the two programs that comes to its end has copied the file. */
  ghost predicate AlwaysCopies(s: State) {
    forall ls :: Valid(s, ls) && ByPrograms(ls) && Ended(Exec(s, ls)) ==> Exec(s, ls).rcv.out == s.src
  }

  /** A bit has been lost, or another has overtaken the first. */
  predicate Spoilt(s: State) {
    || |Received(s.rcv)| + |InFlight(s.rcv)| < s.snd.k
    || (Received(s.rcv) != [] && AllBits(s.src) != [] && Received(s.rcv)[0] != AllBits(s.src)[0])
  }

  lemma SpoiltWhenSent(s: State)
    requires Inv(s) && Spoilt(s) && Enabled(s, SKill)
    ensures Spoilt(Do(s, SKill))
  {
    assert Received(Do(s, SKill).rcv) == Received(s.rcv);
    assert s.snd.pc.Emit? ==> |InFlight(Do(s, SKill).rcv)| <= |InFlight(s.rcv)| + 1;
    assert !s.snd.pc.Emit? ==> InFlight(Do(s, SKill).rcv) == InFlight(s.rcv);
  }

  lemma SpoiltWhenBitTaken(s: State, b: Bit)
    requires Inv(s) && Spoilt(s) && Enabled(s, RTake(Peer(GetBit(b)))) && s.rcv.pc.Wait?
    ensures Spoilt(Do(s, RTake(Peer(GetBit(b)))))
  {
    var t := Do(s, RTake(Peer(GetBit(b))));
    BitStep(s, b);
    BitGathered(s.rcv, b);
    var r' := Gather(s.rcv.(pending := s.rcv.pending - {Peer(GetBit(b))}), b);
    assert Received(t.rcv) == Received(r') && InFlight(t.rcv) == InFlight(r');
    hide Inv, AllBits, Gather, InFlight, Received, Do, Enabled;
  }

  lemma SpoiltWhenTaken(s: State, x: Incoming)
    requires Inv(s) && Spoilt(s) && Enabled(s, RTake(x))
    ensures Spoilt(Do(s, RTake(x)))
  {
    if s.rcv.pc.Wait? && x == Peer(Get0) {
      SpoiltWhenBitTaken(s, 0);
    } else if s.rcv.pc.Wait? && x == Peer(Get1) {
      SpoiltWhenBitTaken(s, 1);
    } else {
      hide Inv, AllBits, Gather;
      var t := Do(s, RTake(x));
      assert Received(t.rcv) == Received(s.rcv) && |InFlight(t.rcv)| <= |InFlight(s.rcv)|;
    }
  }

  lemma {:induction false} StaysSpoilt(s: State, l: Label)
    requires Inv(s) && Spoilt(s) && Enabled(s, l)
    ensures Spoilt(Do(s, l))
  {
    match l
    case SKill => SpoiltWhenSent(s);
    case RTake(x) => SpoiltWhenTaken(s, x);
    case _ =>
      assert Received(Do(s, l).rcv) == Received(s.rcv) && InFlight(Do(s, l).rcv) == InFlight(s.rcv);
  }

  lemma {:induction false} SpoiltForever(s: State, ls: seq<Label>)
    requires Inv(s) && Spoilt(s) && Valid(s, ls)
    ensures Inv(Exec(s, ls)) && Spoilt(Exec(s, ls)) && Exec(s, ls).src == s.src
    decreases |ls|
  {
    if ls != [] {
      StepKeeps(s, ls[0]);
      StaysSpoilt(s, ls[0]);
      SpoiltForever(Do(s, ls[0]), ls[1..]);
    }
  }

  lemma SpoiltIsNoCopy(s: State)
    requires Inv(s) && Spoilt(s)
    ensures s.rcv.out != s.src
  {
    assert s.rcv.out == s.src ==> AllBits(s.src) <= Received(s.rcv);
  }

  lemma {:induction false} Uninterrupted(s: State, ls: seq<Label>)
    requires Inv(s) && Valid(s, ls) && ByPrograms(ls) && !s.interrupted
    ensures !Exec(s, ls).interrupted
    ensures !s.start.Undecided? ==> Exec(s, ls).start == s.start
    decreases |ls|
  {
    if ls != [] {
      StepKeeps(s, ls[0]);
      assert forall i :: 0 <= i < |ls| - 1 ==> ls[1..][i] == ls[i + 1];
      Uninterrupted(Do(s, ls[0]), ls[1..]);
    }
  }

  /** The second bit sent while the first is still pending either merges with it or is taken
      before it. */
  lemma {:induction false} SpoilSecond(s: State) returns (ls: seq<Label>)
    requires Inv(s) && s.hello.Proper? && s.rcv.pc.Wait? && Received(s.rcv) == [] && |AllBits(s.src)| >= 2
    requires s.snd.pc.Emit? && s.snd.k == 1 && InFlight(s.rcv) == [AllBits(s.src)[0]]
    ensures Valid(s, ls) && ByPrograms(ls) && Spoilt(Exec(s, ls))
  {
    var bits := AllBits(s.src);
    FlightIs(s.rcv, bits[0]);
    StepKeeps(s, SKill);
    var t := Do(s, SKill);
    assert t.snd.k == 2 && Received(t.rcv) == [];
    var tail: seq<Label> := [];
    if bits[1] == bits[0] {
      assert InFlight(t.rcv) == InFlight(s.rcv);
    } else {
      var x := Peer(GetBit(bits[1]));
      GatherExtends(t.rcv.(pending := t.rcv.pending - {x}), bits[1]);
      Cons(t, RTake(x), []);
      tail := [RTake(x)] + [];
      assert Received(Do(t, RTake(x)).rcv) == [bits[1]];
    }
    Cons(s, SKill, tail);
    ls := [SKill] + tail;
  }

  lemma {:induction false} SpoilFirst(s: State) returns (ls: seq<Label>)
    requires Inv(s) && s.hello.Proper? && s.rcv.pc.Wait? && Received(s.rcv) == [] && |AllBits(s.src)| >= 2
    requires Peer(Continue) in s.snd.pending
    requires s.snd.pc.Await? && s.snd.k == 1 && InFlight(s.rcv) == [AllBits(s.src)[0]]
    ensures Valid(s, ls) && ByPrograms(ls) && Spoilt(Exec(s, ls))
  {
    var take := STake(Peer(Continue));
    StepKeeps(s, take);
    var more := SpoilSecond(Do(s, take));
    Cons(s, take, more);
    ls := [take] + more;
  }

  /** With two credits and a bit to send, the programs can be scheduled so that the first two
      bits merge into one or change places. */
  lemma {:induction false} SpoilTwo(s: State) returns (ls: seq<Label>)
    requires Inv(s) && s.hello.Proper? && s.rcv.pc.Wait? && Received(s.rcv) == [] && |AllBits(s.src)| >= 2
    requires Peer(Continue) in s.snd.pending
    requires (s.snd.pc.Emit? && s.snd.k == 0 && InFlight(s.rcv) == [])
          || (s.snd.pc.Await? && s.snd.k == 1 && InFlight(s.rcv) == [AllBits(s.src)[0]])
    ensures Valid(s, ls) && ByPrograms(ls) && Spoilt(Exec(s, ls))
  {
    if s.snd.pc.Emit? {
      StepKeeps(s, SKill);
      var t := Do(s, SKill);
      assert InFlight(t.rcv) == [AllBits(s.src)[0]];
      var more := SpoilFirst(t);
      Cons(s, SKill, more);
      ls := [SKill] + more;
    } else {
      ls := SpoilFirst(s);
    }
  }

  /** The copy is right in every run exactly when the second CONTINUE merges with the first, or
      there is nothing to copy.  Otherwise some schedule ends with a different file. */
  lemma {:induction false} CopiesExactlyWithOneCredit(s: State)
    requires AboutToStart(s)
    ensures AlwaysCopies(Do(s, RKill)) <==> Peer(Continue) in s.snd.pending || s.src == []
  {
    StepKeeps(s, RKill);
    var t := Do(s, RKill);
    if Peer(Continue) in s.snd.pending || s.src == [] {
      forall ls | Valid(t, ls) && ByPrograms(ls) && Ended(Exec(t, ls)) ensures Exec(t, ls).rcv.out == s.src {
        RunKeeps(t, ls);
        Uninterrupted(t, ls);
        EndIsCopy(Exec(t, ls));
      }
    } else {
      assert |AllBits(s.src)| >= BYTE;
      var spoil := SpoilTwo(t);
      SpoiltRunEnds(t, spoil);
    }
  }

  lemma {:induction false} SpoiltRunEnds(s: State, spoil: seq<Label>)
    requires Inv(s) && s.hello.Proper? && Valid(s, spoil) && ByPrograms(spoil)
    requires Spoilt(Exec(s, spoil))
    ensures !AlwaysCopies(s)
  {
    hide Enabled, Do;
    RunKeeps(s, spoil);
    var mid := Exec(s, spoil);
    var rest := RunOut(mid);
    var ls, end := spoil + rest, Exec(mid, rest);
    Join(s, spoil, rest);
    SpoiltForever(mid, rest);
    SpoiltIsNoCopy(end);
    HelloStays(s, spoil);
    HelloStays(mid, rest);
    if !Ended(end) {
      var l := NextStep(end);
    }
    assert ByPrograms(ls);
  }

  lemma {:induction false} EndIsCopy(s: State)
    requires Inv(s) && Ended(s) && !s.interrupted && (!s.start.TwoCredits? || s.src == [])
    ensures s.rcv.out == s.src
  {
    if !s.start.TwoCredits? {
      var got := Received(s.rcv);
      assert got <= got + InFlight(s.rcv);
      BytesFollowBits(s.src, s.rcv.out, s.rcv.arr);
    }
  }

  /** Both starts happen, whatever the file: it depends on whether the sender wakes up between
      the receiver's first two signals. */
  lemma {:induction false} BothStartsHappen(s: State) returns (one: State, two: State)
    requires Init(s)
    ensures Reachable(one) && AboutToStart(one) && one.src == s.src && Peer(Continue) in one.snd.pending
    ensures Reachable(two) && AboutToStart(two) && two.src == s.src && Peer(Continue) !in two.snd.pending
  {
    var hello, wake := RTake(Peer(Continue)), STake(Peer(Continue));
    var s1 := Do(s, SKill);
    var s2 := Do(s1, hello);
    one := Do(s2, RKill);
    two := Do(one, wake);
    Cons(s2, RKill, []);
    Cons(s1, hello, [RKill] + []);
    Cons(s, SKill, [hello] + ([RKill] + []));
    var ls := [SKill] + ([hello] + ([RKill] + []));
    assert Reachable(one) by {
      assert Valid(s, ls) && Exec(s, ls) == one;
    }
    assert Reachable(two) by {
      Cons(one, wake, []);
      Join(s, ls, [wake] + []);
      assert Valid(s, ls + ([wake] + [])) && Exec(s, ls + ([wake] + [])) == two;
    }
    ReachableInv(one);
    ReachableInv(two);
  }
}
