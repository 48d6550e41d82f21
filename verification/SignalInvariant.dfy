/** What every run of the file copy keeps, from the first signal to the last. */
module SignalInvariant {
  import opened SignalBits
  import opened SignalCopy

  /** Bits the receiver has taken so far, in order. */
  function Received(r: Receiver): seq<Bit> { AllBits(r.out) + r.arr }

  /** The bits sent but not yet taken; at most one value of each can be pending. */
  function InFlight(r: Receiver): seq<Bit> {
    (if Peer(Get0) in r.pending then [0] else []) + (if Peer(Get1) in r.pending then [1] else [])
  }

  predicate Talking(pc: SPc) { pc.Greeted? || pc.Emit? || pc.Await? }

  predicate Listening(pc: RPc) { pc.AckFirst? || pc.Ack? || pc.Wait? }

  /** Permissions to send: a pending CONTINUE, a sender about to send, a bit under way, and
      CONTINUEs the receiver is about to send. */
  function Credits(s: State): nat {
    Count(Peer(Continue) in s.snd.pending) + Count(s.snd.pc.Emit?) + |InFlight(s.rcv)|
    + (if s.rcv.pc.AckFirst? then 2 else Count(s.rcv.pc.Ack?))
  }

  /** Shapes of the two processes. */
  predicate Shape(s: State) {
    && s.snd.k <= |AllBits(s.src)|
    && (s.snd.pc.SayHello? || s.snd.pc.Greeted? ==> s.snd.k == 0)
    && (s.snd.pc.Emit? ==> s.snd.k < |AllBits(s.src)|)
    && (s.snd.pc.Await? ==> s.snd.k >= 1)
    && |s.rcv.arr| < BYTE
    && Peer(Stop) !in s.snd.pending && Peer(Get0) !in s.snd.pending && Peer(Get1) !in s.snd.pending
    && (Peer(Finish) in s.rcv.pending ==> s.snd.pc.Left?)
    && (Peer(Stop) in s.rcv.pending ==> s.snd.pc.Bye? || s.snd.pc.Left?)
    && (s.hello.NotYet? <==> s.rcv.pc.AwaitHello?)
    && (s.rcv.served.Nobody? <==> s.rcv.pc.AwaitHello?)
    && (s.hello.Proper? ==> s.rcv.served.TheSender?)
    && (!s.start.Undecided? ==> s.rcv.served.TheSender? && !s.rcv.pc.AwaitHello? && !s.rcv.pc.AckFirst?)
  }

  /** Until the receiver serves the sender, no bit has been sent. */
  predicate BeforeService(s: State) {
    s.hello.Proper?
    || (&& s.snd.k == 0 && Received(s.rcv) == [] && InFlight(s.rcv) == []
        && !s.snd.pc.Emit? && !s.snd.pc.Await? && !s.snd.pc.Forward?
        && (s.snd.pc.SayHello? ==> Peer(Continue) !in s.rcv.pending)
        && Peer(Stop) !in s.rcv.pending
        && (s.hello.NotYet? ==>
              && s.snd.pending <= {User}
              && (!s.snd.pc.SayHello? ==> Peer(Continue) in s.rcv.pending)
              && (s.snd.pc.Left? ==> Peer(Finish) in s.rcv.pending))
        && (s.hello.Mistaken? ==>
              if s.rcv.served.TheSender? then s.snd.pc.Left? else Peer(Continue) !in s.snd.pending))
  }

  /** Once it does, neither side is left waiting for a signal that will not come. */
  predicate InService(s: State) {
    s.hello.Proper? ==>
      && !s.snd.pc.SayHello? && Peer(Continue) !in s.rcv.pending && !s.rcv.pc.Reject?
      && (Listening(s.rcv.pc) ==> Peer(Finish) !in s.snd.pending)
      && (Listening(s.rcv.pc) && s.snd.pc.Left? ==> Peer(Finish) in s.rcv.pending)
      && (s.rcv.pc.Closed? && Talking(s.snd.pc) ==> Peer(Finish) in s.snd.pending)
      && (Listening(s.rcv.pc) && Talking(s.snd.pc) ==> Credits(s) >= 1)
      && (!s.rcv.pc.Closed? && Talking(s.snd.pc) ==> Credits(s) <= (if s.start.OneCredit? then 1 else 2))
      && (s.rcv.pc.AckFirst? ==>
            s.start.Undecided? && Peer(Continue) !in s.snd.pending && s.snd.k == 0 && !s.snd.pc.Emit?)
      && (s.start.Undecided? ==> s.rcv.pc.AckFirst? || s.rcv.pc.Ack?)
      && (s.start.Undecided? ==> Received(s.rcv) == [] && s.snd.k <= 1)
      && (s.start.Undecided? && Talking(s.snd.pc) ==> Credits(s) == 2)
  }

  /** No bit is invented; without a second credit, taken plus travelling bits follow the source, one at a time. */
  predicate Faithful(s: State) {
    var all := Received(s.rcv) + InFlight(s.rcv);
    && |all| <= s.snd.k
    && (!s.start.TwoCredits? ==>
          && |InFlight(s.rcv)| <= 1
          && all <= AllBits(s.src)
          && (!s.rcv.pc.Closed? ==> |all| == s.snd.k))
  }

  /** With nobody interrupting, both leave only when everything has been sent. */
  predicate Orderly(s: State) {
    !s.interrupted ==>
      && User !in s.snd.pending && User !in s.rcv.pending && Peer(Stop) !in s.rcv.pending
      && !s.hello.Mistaken? && !s.snd.pc.Forward? && !s.rcv.pc.Refuse? && !s.rcv.pc.Reject?
      && (s.rcv.pc.Closed? ==> s.snd.pc.Left?)
      && (s.snd.pc.Bye? || s.snd.pc.Left? ==> s.snd.k == |AllBits(s.src)|)
      && (s.snd.pc.Bye? || s.snd.pc.Left? ==> s.hello.Proper?)
      && Peer(Finish) !in s.snd.pending
      && (!s.start.TwoCredits? && (s.snd.pc.Bye? || s.snd.pc.Left?) ==> InFlight(s.rcv) == [])
      && (!s.start.TwoCredits? && s.rcv.pc.Closed? ==> |Received(s.rcv)| == s.snd.k)
  }

  predicate Inv(s: State) {
    Shape(s) && BeforeService(s) && InService(s) && Faithful(s) && Orderly(s)
  }

  lemma FlightIs(r: Receiver, b: Bit)
    requires InFlight(r) == [b]
    ensures Peer(GetBit(b)) in r.pending && Peer(GetBit(1 - b)) !in r.pending
  {
    assert InFlight(r)[0] == b;
  }

  lemma GatherExtends(r: Receiver, b: Bit)
    requires |r.arr| < BYTE
    ensures |Gather(r, b).arr| < BYTE
    ensures Received(Gather(r, b)) == Received(r) + [b]
    ensures Gather(r, b) == r.(arr := Gather(r, b).arr, out := Gather(r, b).out)
  {
    var all := r.arr + [b];
    if |all| == BYTE {
      AppendByte(r.out, all);
      hide AllBits, Value;
      assert Gather(r, b).out == r.out + [Value(all)];
      assert Received(Gather(r, b)) == AllBits(r.out + [Value(all)]);
    } else {
      assert Received(Gather(r, b)) == AllBits(r.out) + all;
    }
  }

  /** A bit is sent: it is under way afterwards, unless the receiver has gone. */
  lemma BitPosted(r: Receiver, b: Bit)
    ensures var r' := ToReceiver(r, Peer(GetBit(b)));
      && r' == r.(pending := r'.pending) && Received(r') == Received(r)
      && (r.pc.Closed? ==> r' == r)
      && |InFlight(r')| <= |InFlight(r)| + 1
      && (!r.pc.Closed? ==> |InFlight(r')| >= 1)
      && (!r.pc.Closed? && InFlight(r) == [] ==> InFlight(r') == [b])
      && forall x :: x != Peer(Get0) && x != Peer(Get1) ==> (x in r'.pending <==> x in r.pending)
  {
    hide AllBits;
  }

  /** A pending bit is taken. */
  lemma BitTaken(r: Receiver, b: Bit)
    requires Peer(GetBit(b)) in r.pending
    ensures var r' := r.(pending := r.pending - {Peer(GetBit(b))});
      && Received(r') == Received(r)
      && |InFlight(r')| == |InFlight(r)| - 1
      && (|InFlight(r)| <= 1 ==> InFlight(r) == [b] && InFlight(r') == [])
  {
    hide AllBits;
  }

  lemma EmitStaysFaithful(s: State)
    requires Inv(s) && s.snd.pc.Emit?
    ensures Faithful(Do(s, SKill))
  {
    var t, bits := Do(s, SKill), AllBits(s.src);
    BitPosted(s.rcv, bits[s.snd.k]);
    hide AllBits, ToReceiver, InFlight, Received;
    if !s.start.TwoCredits? && !s.rcv.pc.Closed? {
      NothingUnderWay(s);
      assert Received(s.rcv) + [] == Received(s.rcv) == bits[..s.snd.k];
      assert bits[..s.snd.k] + [bits[s.snd.k]] == bits[..s.snd.k + 1];
    }
  }

  /** With one credit the sender sends only when no bit is under way. */
  lemma NothingUnderWay(s: State)
    requires Inv(s) && s.snd.pc.Emit? && !s.start.TwoCredits? && !s.rcv.pc.Closed?
    ensures InFlight(s.rcv) == []
  {
    hide AllBits;
  }

  lemma EmitKeeps(s: State)
    requires Inv(s) && s.snd.pc.Emit?
    ensures Inv(Do(s, SKill))
  {
    EmitStaysFaithful(s);
    BitPosted(s.rcv, AllBits(s.src)[s.snd.k]);
    hide AllBits, ToReceiver, InFlight, Received, Faithful;
  }

  /** The sender's other signals leave the receiver's bits alone. */
  lemma WordPosted(s: State)
    requires Inv(s) && Enabled(s, SKill) && !s.snd.pc.Emit?
    ensures var t := Do(s, SKill);
      && t == s.(snd := t.snd, rcv := s.rcv.(pending := t.rcv.pending))
      && t.snd.k == s.snd.k && t.snd.pending == s.snd.pending
      && Received(t.rcv) == Received(s.rcv) && InFlight(t.rcv) == InFlight(s.rcv)
  {
    hide AllBits;
  }

  lemma SpeakStaysInService(s: State)
    requires Inv(s) && Enabled(s, SKill) && !s.snd.pc.Emit?
    ensures InService(Do(s, SKill))
  {
    WordPosted(s);
    hide AllBits, Received, InFlight, Faithful, BeforeService, Orderly;
  }

  lemma SpeakKeeps(s: State)
    requires Inv(s) && Enabled(s, SKill) && !s.snd.pc.Emit?
    ensures Inv(Do(s, SKill))
  {
    SpeakStaysInService(s);
    WordPosted(s);
    hide AllBits, Received, InFlight, Credits;
    assert Faithful(Do(s, SKill)) && Shape(Do(s, SKill));
    hide Faithful, Shape;
  }

  lemma STakeKeeps(s: State, x: Incoming)
    requires Inv(s) && Enabled(s, STake(x))
    ensures Inv(Do(s, STake(x)))
  {
    hide AllBits;
    assert x == User || x == Peer(Continue) || x == Peer(Finish) by {
      assert x.User? || x.sig.Continue? || x.sig.Finish?;
    }
    assert InFlight(Do(s, STake(x)).rcv) == InFlight(s.rcv);
  }

  lemma AckFirstKeeps(s: State)
    requires Inv(s) && s.rcv.pc.AckFirst?
    ensures Inv(Do(s, RKill))
  {
  }

  lemma AckKeeps(s: State)
    requires Inv(s) && s.rcv.pc.Ack?
    ensures Inv(Do(s, RKill))
  {
    hide AllBits, Gather;
  }

  lemma DismissKeeps(s: State)
    requires Inv(s) && (s.rcv.pc.Refuse? || s.rcv.pc.Reject?)
    ensures Inv(Do(s, RKill))
  {
    hide AllBits, Gather;
  }

  lemma HelloKeeps(s: State, x: Incoming)
    requires Inv(s) && Enabled(s, RTake(x)) && s.rcv.pc.AwaitHello?
    ensures Inv(Do(s, RTake(x)))
  {
    assert Peer(Get0) !in s.rcv.pending && Peer(Get1) !in s.rcv.pending;
    assert x == Peer(Continue) || x == Peer(Finish) || x == User by {
      assert x.User? || x.sig.Continue? || x.sig.Finish?;
    }
    assert InFlight(Do(s, RTake(x)).rcv) == [];
  }

  /** What taking a bit does to the receiver. */
  lemma BitGathered(r: Receiver, b: Bit)
    requires Peer(GetBit(b)) in r.pending && |r.arr| < BYTE
    ensures var r' := Gather(r.(pending := r.pending - {Peer(GetBit(b))}), b);
      && r' == r.(arr := r'.arr, out := r'.out, pending := r.pending - {Peer(GetBit(b))})
      && |r'.arr| < BYTE
      && Received(r') == Received(r) + [b]
      && |InFlight(r')| == |InFlight(r)| - 1
      && (|InFlight(r)| <= 1 ==> InFlight(r) == [b] && InFlight(r') == [])
  {
    BitTaken(r, b);
    GatherExtends(r.(pending := r.pending - {Peer(GetBit(b))}), b);
    hide AllBits, Gather, Received;
  }

  /** The receiver's step on a bit of the process it serves. */
  lemma BitStep(s: State, b: Bit)
    requires Inv(s) && Enabled(s, RTake(Peer(GetBit(b)))) && s.rcv.pc.Wait?
    ensures s.rcv.served.TheSender?
    ensures Do(s, RTake(Peer(GetBit(b)))) ==
      s.(rcv := Gather(s.rcv.(pending := s.rcv.pending - {Peer(GetBit(b))}), b).(pc := Ack))
  {
    hide AllBits, Gather;
  }

  lemma BitStaysFaithful(s: State, b: Bit)
    requires Inv(s) && Enabled(s, RTake(Peer(GetBit(b)))) && s.rcv.pc.Wait?
    ensures Faithful(Do(s, RTake(Peer(GetBit(b)))))
  {
    var t := Do(s, RTake(Peer(GetBit(b))));
    BitStep(s, b);
    BitGathered(s.rcv, b);
    var r' := Gather(s.rcv.(pending := s.rcv.pending - {Peer(GetBit(b))}), b);
    assert Received(t.rcv) == Received(r') && InFlight(t.rcv) == InFlight(r');
    hide AllBits, Gather, Received, InFlight, Do, Enabled;
    assert |Received(t.rcv) + InFlight(t.rcv)| == |Received(s.rcv) + InFlight(s.rcv)|;
    assert !s.start.TwoCredits? ==> Received(t.rcv) + InFlight(t.rcv) == Received(s.rcv) + InFlight(s.rcv);
  }

  /** The state after a bit is taken: only the receiver has changed, and in these respects. */
  lemma AfterBit(s: State, b: Bit)
    requires Inv(s) && Enabled(s, RTake(Peer(GetBit(b)))) && s.rcv.pc.Wait?
    ensures var t := Do(s, RTake(Peer(GetBit(b))));
      && t == s.(rcv := Receiver(Ack, TheSender, t.rcv.arr, t.rcv.out, s.rcv.pending - {Peer(GetBit(b))}))
      && |t.rcv.arr| < BYTE && s.rcv.served.TheSender? && s.hello.Proper?
      && |Received(t.rcv)| == |Received(s.rcv)| + 1
      && |InFlight(t.rcv)| == |InFlight(s.rcv)| - 1
  {
    var t := Do(s, RTake(Peer(GetBit(b))));
    BitStep(s, b);
    BitGathered(s.rcv, b);
    var r' := Gather(s.rcv.(pending := s.rcv.pending - {Peer(GetBit(b))}), b);
    assert Received(t.rcv) == Received(r') && InFlight(t.rcv) == InFlight(r');
    assert s.hello.Proper? by { ServedIsProper(s, b); }
    hide AllBits, Gather, Received, InFlight, Do, Enabled, Inv;
  }

  lemma ServedIsProper(s: State, b: Bit)
    requires Inv(s) && Peer(GetBit(b)) in s.rcv.pending
    ensures s.hello.Proper?
  {
    hide AllBits;
  }

  lemma BitStaysInService(s: State, b: Bit)
    requires Inv(s) && Enabled(s, RTake(Peer(GetBit(b)))) && s.rcv.pc.Wait?
    ensures InService(Do(s, RTake(Peer(GetBit(b)))))
  {
    AfterBit(s, b);
    hide AllBits, Received, InFlight, Do, Enabled, Faithful, BeforeService, Orderly;
  }

  lemma BitStaysOrderly(s: State, b: Bit)
    requires Inv(s) && Enabled(s, RTake(Peer(GetBit(b)))) && s.rcv.pc.Wait?
    ensures var t := Do(s, RTake(Peer(GetBit(b)))); Shape(t) && BeforeService(t) && Orderly(t)
  {
    AfterBit(s, b);
    hide AllBits, Received, Do, Enabled, Faithful, InService, Credits;
  }

  lemma BitKeeps(s: State, x: Incoming)
    requires Inv(s) && Enabled(s, RTake(x)) && s.rcv.pc.Wait? && (x == Peer(Get0) || x == Peer(Get1))
    ensures Inv(Do(s, RTake(x)))
  {
    var b: Bit := if x == Peer(Get0) then 0 else 1;
    BitStaysFaithful(s, b);
    BitStaysInService(s, b);
    BitStaysOrderly(s, b);
    hide Do, Faithful, InService, Shape, BeforeService, Orderly;
  }

  lemma WordKeeps(s: State, x: Incoming)
    requires Inv(s) && Enabled(s, RTake(x)) && s.rcv.pc.Wait? && x != Peer(Get0) && x != Peer(Get1)
    ensures Inv(Do(s, RTake(x)))
  {
    hide AllBits, Gather;
    assert InFlight(Do(s, RTake(x)).rcv) == InFlight(s.rcv);
  }

  lemma UserKeeps(s: State, l: Label)
    requires Inv(s) && Enabled(s, l) && ByUser(l)
    ensures Inv(Do(s, l))
  {
    hide AllBits, Gather;
  }
}
