/** The sending program of Signal_copy as written: a loop over the bytes of the file and one over
    the bits of each.  The signals it sends are those of the sender in `SignalCopy`. */
module SignalSender {
  import opened SignalBits
  import P = SignalCopy
  import I = SignalInvariant
  import T = SignalTheorems

  /** What the sender of `SignalCopy` sends when these are the signals it takes, up to where it
      would have to wait for another one. */
  function Says(bits: seq<Bit>, pc: P.SPc, k: nat, xs: seq<P.Incoming>): seq<P.Sig>
    requires k <= |bits| && (pc.Emit? ==> k < |bits|)
    decreases |xs|, P.SenderWork(pc)
  {
    match pc
    case SayHello => [P.Continue] + Says(bits, P.Greeted, k, xs)
    case Emit => [P.GetBit(bits[k])] + Says(bits, P.Await, k + 1, xs)
    case Forward => [P.Stop] + Says(bits, P.Bye, k, xs)
    case Bye => [P.Finish]
    case Left => []
    case _ => if xs == [] then [] else Says(bits, P.OnAnswer(pc, k, |bits|, xs[0]), k, xs[1..])
  }

  lemma Hears(bits: seq<Bit>, pc: P.SPc, k: nat, xs: seq<P.Incoming>, n: nat)
    requires k <= |bits| && (pc.Greeted? || pc.Await?) && n < |xs|
    ensures var pc' := P.OnAnswer(pc, k, |bits|, xs[n]);
      (pc'.Emit? ==> k < |bits|) && Says(bits, pc, k, xs[n..]) == Says(bits, pc', k, xs[n + 1..])
  {
    assert xs[n..][0] == xs[n] && xs[n..][1..] == xs[n + 1..];
  }

  lemma Speaks(bits: seq<Bit>, k: nat, xs: seq<P.Incoming>)
    requires k <= |bits|
    ensures Says(bits, P.SayHello, k, xs) == [P.Continue] + Says(bits, P.Greeted, k, xs)
    ensures k < |bits| ==> Says(bits, P.Emit, k, xs) == [P.GetBit(bits[k])] + Says(bits, P.Await, k + 1, xs)
    ensures Says(bits, P.Forward, k, xs) == [P.Stop, P.Finish]
    ensures Says(bits, P.Bye, k, xs) == [P.Finish]
    ensures Says(bits, P.Left, k, xs) == []
  {
  }

  lemma Waits(bits: seq<Bit>, pc: P.SPc, k: nat, xs: seq<P.Incoming>)
    requires k <= |bits| && (pc.Greeted? || pc.Await?)
    ensures Says(bits, pc, k, xs[|xs|..]) == []
  {
  }

  // ---------------------------------------------------------------- what it says

  function AsSignals(bits: seq<Bit>): (r: seq<P.Sig>)
    ensures |r| == |bits| && forall i :: 0 <= i < |bits| ==> r[i] == if bits[i] == 0 then P.Get0 else P.Get1
  {
    seq(|bits|, i requires 0 <= i < |bits| => if bits[i] == 0 then P.Get0 else P.Get1)
  }

  lemma OneSignalMore(bits: seq<Bit>, k: nat, before: seq<P.Sig>, after: seq<P.Sig>)
    requires k < |bits|
    ensures before + AsSignals(bits[..k]) + ([P.GetBit(bits[k])] + after) == before + AsSignals(bits[..k + 1]) + after
  {
    assert AsSignals(bits[..k + 1]) == AsSignals(bits[..k]) + [P.GetBit(bits[k])];
  }

  /** Signal 0 answers the greeting and signal i bit i - 1.  The receiver's CONTINUE lets the sender
      go on, and so does any other signal of the receiver's but FINISH within a byte. */
  predicate GoesOn(xs: seq<P.Incoming>, n: nat)
    requires n <= |xs|
  {
    forall i :: 0 <= i < n ==> xs[i] == P.Peer(P.Continue) || (xs[i].Peer? && xs[i].sig != P.Finish && i % 8 != 0)
  }

  /** As long as it may go on, it sends bit after bit. */
  lemma {:induction false} SaysBits(bits: seq<Bit>, xs: seq<P.Incoming>, n: nat)
    requires 0 < n <= |xs| && n <= |bits| + 1 && GoesOn(xs, n)
    ensures Says(bits, P.SayHello, 0, xs) ==
      [P.Continue] + AsSignals(bits[..n - 1]) + Says(bits, P.NextBit(n - 1, |bits|), n - 1, xs[n..])
  {
    hide Says, AsSignals;
    if n == 1 {
      Speaks(bits, 0, xs);
      assert xs == xs[0..];
      Hears(bits, P.Greeted, 0, xs, 0);
      assert AsSignals(bits[..0]) == [];
    } else {
      SaysBits(bits, xs, n - 1);
      Speaks(bits, n - 2, xs[n - 1..]);
      Hears(bits, P.Await, n - 1, xs, n - 1);
      OneSignalMore(bits, n - 2, [P.Continue], Says(bits, P.NextBit(n - 1, |bits|), n - 1, xs[n..]));
    }
  }

  /** What it says in the end once `n` signals have let it go on. */
  lemma SaysInTheEnd(bits: seq<Bit>, xs: seq<P.Incoming>, n: nat)
    requires 0 < n <= |xs| && n <= |bits| && GoesOn(xs, n)
    ensures var said, all := [P.Continue] + AsSignals(bits[..n]), Says(bits, P.SayHello, 0, xs);
      && (n == |xs| ==> all == said)
      && (n < |xs| && xs[n].User? ==> all == said + [P.Stop, P.Finish])
      && (n < |xs| && xs[n] == P.Peer(P.Finish) ==> all == said + [P.Finish])
      && (n < |xs| && n % 8 == 0 && xs[n].Peer? && xs[n].sig != P.Continue ==> all == said + [P.Finish])
  {
    hide Says, AsSignals;
    SaysBits(bits, xs, n);
    Speaks(bits, n - 1, xs[n..]);
    OneSignalMore(bits, n - 1, [P.Continue], Says(bits, P.Await, n, xs[n..]));
    if n == |xs| {
      Waits(bits, P.Await, n, xs);
    } else {
      Hears(bits, P.Await, n, xs, n);
      Speaks(bits, n, xs[n + 1..]);
    }
  }

  /** Once every bit has been answered it takes leave. */
  lemma SaysEverything(bits: seq<Bit>, xs: seq<P.Incoming>)
    requires |bits| < |xs| && GoesOn(xs, |bits| + 1)
    ensures Says(bits, P.SayHello, 0, xs) == [P.Continue] + AsSignals(bits) + [P.Finish]
  {
    hide Says, AsSignals;
    SaysBits(bits, xs, |bits| + 1);
    Speaks(bits, |bits|, xs[|bits| + 1..]);
    assert bits[..|bits|] == bits;
  }

  lemma SaysLittle(bits: seq<Bit>, xs: seq<P.Incoming>)
    ensures xs == [] || xs[0] == P.Peer(P.Finish) ==> Says(bits, P.SayHello, 0, xs) == [P.Continue]
    ensures xs != [] && xs[0] != P.Peer(P.Finish) && xs[0] != P.Peer(P.Continue) ==>
      Says(bits, P.SayHello, 0, xs) == [P.Continue, P.Finish]
  {
    hide Says;
    Speaks(bits, 0, xs);
    assert xs == xs[0..];
    if xs == [] {
      Waits(bits, P.Greeted, 0, xs);
    } else {
      Hears(bits, P.Greeted, 0, xs, 0);
      Speaks(bits, 0, xs[1..]);
    }
  }

  /** All of it: what is said when the greeting is not answered with CONTINUE, up to the signal that
      ends the copy or has not come yet, and when every bit has been answered. */
  predicate Heeds(bits: seq<Bit>, xs: seq<P.Incoming>, sent: seq<P.Sig>) {
    && (xs == [] || xs[0] == P.Peer(P.Finish) ==> sent == [P.Continue])
    && (xs != [] && xs[0] != P.Peer(P.Finish) && xs[0] != P.Peer(P.Continue) ==> sent == [P.Continue, P.Finish])
    && (|bits| < |xs| && GoesOn(xs, |bits| + 1) ==> sent == [P.Continue] + AsSignals(bits) + [P.Finish])
    && forall n :: 0 < n <= |xs| && n <= |bits| && GoesOn(xs, n) ==>
         var said := [P.Continue] + AsSignals(bits[..n]);
         && (n == |xs| ==> sent == said)
         && (n < |xs| && xs[n].User? ==> sent == said + [P.Stop, P.Finish])
         && (n < |xs| && xs[n] == P.Peer(P.Finish) ==> sent == said + [P.Finish])
         && (n < |xs| && n % 8 == 0 && xs[n].Peer? && xs[n].sig != P.Continue ==> sent == said + [P.Finish])
  }

  lemma SaysHeeds(bits: seq<Bit>, xs: seq<P.Incoming>)
    ensures Heeds(bits, xs, Says(bits, P.SayHello, 0, xs))
  {
    hide Says, AsSignals, GoesOn;
    SaysLittle(bits, xs);
    if |bits| < |xs| && GoesOn(xs, |bits| + 1) {
      SaysEverything(bits, xs);
    }
    forall n | 0 < n <= |xs| && n <= |bits| && GoesOn(xs, n)
      ensures var said, all := [P.Continue] + AsSignals(bits[..n]), Says(bits, P.SayHello, 0, xs);
        && (n == |xs| ==> all == said)
        && (n < |xs| && xs[n].User? ==> all == said + [P.Stop, P.Finish])
        && (n < |xs| && xs[n] == P.Peer(P.Finish) ==> all == said + [P.Finish])
        && (n < |xs| && n % 8 == 0 && xs[n].Peer? && xs[n].sig != P.Continue ==> all == said + [P.Finish])
    {
      SaysInTheEnd(bits, xs, n);
    }
  }

  // ---------------------------------------------------------------- in the protocol

  function Taken(ls: seq<P.Label>): seq<P.Incoming> {
    if ls == [] then [] else (if ls[0].STake? then [ls[0].x] else []) + Taken(ls[1..])
  }

  /** The signals the sender sends in a run. */
  function Sent(s: P.State, ls: seq<P.Label>): seq<P.Sig>
    requires P.Valid(s, ls) && I.Inv(s)
    decreases |ls|
  {
    if ls == [] then []
    else
      T.StepKeeps(s, ls[0]);
      (if ls[0].SKill? then [SentNow(s)] else []) + Sent(P.Do(s, ls[0]), ls[1..])
  }

  function SentNow(s: P.State): P.Sig
    requires P.Enabled(s, P.SKill)
  {
    match s.snd.pc
    case SayHello => P.Continue
    case Emit => P.GetBit(AllBits(s.src)[s.snd.k])
    case Forward => P.Stop
    case _ => P.Finish
  }

  lemma SenderAlone(s: P.State, l: P.Label)
    requires I.Inv(s) && P.Enabled(s, l) && !l.SKill? && !l.STake?
    ensures P.Do(s, l).src == s.src && P.Do(s, l).snd.k == s.snd.k && P.Do(s, l).snd.pc == s.snd.pc
  {
  }

  lemma SenderSpeaks(s: P.State, xs: seq<P.Incoming>)
    requires I.Inv(s) && P.Enabled(s, P.SKill)
    ensures InRange(s) && InRange(P.Do(s, P.SKill)) && P.Do(s, P.SKill).src == s.src
    ensures SaysNow(s, xs) == [SentNow(s)] + SaysNow(P.Do(s, P.SKill), xs)
  {
    StaysInRange(s, P.SKill);
    Speaks(AllBits(s.src), s.snd.k, xs);
    hide AllBits, Says;
  }

  lemma SenderHears(s: P.State, x: P.Incoming, xs: seq<P.Incoming>)
    requires I.Inv(s) && P.Enabled(s, P.STake(x))
    ensures InRange(s) && InRange(P.Do(s, P.STake(x))) && P.Do(s, P.STake(x)).src == s.src
    ensures SaysNow(s, [x] + xs) == SaysNow(P.Do(s, P.STake(x)), xs)
  {
    StaysInRange(s, P.STake(x));
    var all := [x] + xs;
    Hears(AllBits(s.src), s.snd.pc, s.snd.k, all, 0);
    assert all[0..] == all && all[1..] == xs;
  }

  predicate InRange(s: P.State) {
    s.snd.k <= |AllBits(s.src)| && (s.snd.pc.Emit? ==> s.snd.k < |AllBits(s.src)|)
  }

  lemma StaysInRange(s: P.State, l: P.Label)
    requires I.Inv(s) && P.Enabled(s, l)
    ensures InRange(s) && InRange(P.Do(s, l)) && I.Inv(P.Do(s, l)) && P.Do(s, l).src == s.src
  {
    T.StepKeeps(s, l);
  }

  function SaysNow(s: P.State, xs: seq<P.Incoming>): seq<P.Sig>
    requires InRange(s)
  {
    Says(AllBits(s.src), s.snd.pc, s.snd.k, xs)
  }

  /** In any run, whatever the receiver and the user do, the sender sends what the signals it has
      taken make it say. */
  lemma {:induction false} RunSays(s: P.State, ls: seq<P.Label>)
    requires I.Inv(s) && P.Valid(s, ls)
    ensures InRange(s) && Sent(s, ls) <= SaysNow(s, Taken(ls))
    decreases |ls|
  {
    hide I.Inv, P.Enabled, P.Do, Says, SentNow;
    if ls == [] {
      assert InRange(s) by { StartsInRange(s); }
    } else {
      var l, t, xs := ls[0], P.Do(s, ls[0]), Taken(ls[1..]);
      StaysInRange(s, l);
      RunSays(t, ls[1..]);
      match l
      case SKill =>
        SenderSpeaks(s, xs);
        assert Taken(ls) == xs;
        PrefixGrows(SentNow(s), Sent(t, ls[1..]), SaysNow(t, xs));
      case STake(x) => SenderHears(s, x, xs);
      case _ =>
        SenderAlone(s, l);
        assert Taken(ls) == xs && Sent(s, ls) == Sent(t, ls[1..]);
    }
  }

  lemma PrefixGrows(x: P.Sig, a: seq<P.Sig>, b: seq<P.Sig>)
    requires a <= b
    ensures [x] + a <= [x] + b
  {
  }

  lemma StartsInRange(s: P.State)
    requires I.Inv(s)
    ensures InRange(s)
  {
  }

  // ---------------------------------------------------------------- the program

  /** What sigwaitinfo brings: nothing yet, or a signal. */
  datatype Answer = Waiting | Signal(sig: P.Sig)

  /** What is said after send_bites has returned `answer` for the byte that ends before bit `k`. */
  function Rest(bits: seq<Bit>, k: nat, answer: Answer, xs: seq<P.Incoming>): seq<P.Sig>
    requires k <= |bits|
  {
    match answer
    case Waiting => []
    case Signal(sig) => if sig == P.Continue then Says(bits, P.NextBit(k, |bits|), k, xs) else [P.Finish]
  }

  /** One byte; `xs` are the signals that arrive and `next` counts those taken. */
  method SendBites(arr: array<Bit>, xs: seq<P.Incoming>, first: nat, ghost bits: seq<Bit>, ghost k: nat)
    returns (sent: seq<P.Sig>, answer: Answer, next: nat)
    requires arr.Length == BYTE && first <= |xs|
    requires k % BYTE == 0 && k + BYTE <= |bits| && arr[..] == bits[k..k + BYTE]
    ensures first <= next <= |xs|
    ensures Says(bits, P.Emit, k, xs[first..]) == sent + Rest(bits, k + BYTE, answer, xs[next..])
  {
    hide Says;
    sent, answer, next := [], Waiting, first;
    ghost var all := Says(bits, P.Emit, k, xs[first..]);
    for i := 0 to BYTE
      invariant first <= next <= |xs|
      invariant i < BYTE ==> all == sent + Says(bits, P.Emit, k + i, xs[next..])
      invariant i == BYTE ==> all == sent + Rest(bits, k + BYTE, answer, xs[next..])
    {
      ghost var at := k + i + 1;
      assert arr[i] == arr[..][i] == bits[k + i];
      Speaks(bits, k + i, xs[next..]);
      sent := sent + [P.GetBit(arr[i])];
      assert all == sent + Says(bits, P.Await, at, xs[next..]);
      if next == |xs| {
        Waits(bits, P.Await, at, xs);
        return sent, Waiting, next;
      }
      var x := xs[next];
      Hears(bits, P.Await, at, xs, next);
      next := next + 1;
      Speaks(bits, at, xs[next..]);
      answer := Signal(P.Number(x));
      if x.Peer? {
        match answer.sig {
          case Finish => return sent, Signal(P.Finish), next;
          case Continue =>
          case _ =>
        }
      } else if answer.sig == P.Stop {
        sent := sent + [P.Stop];
        return sent, Signal(P.Stop), next;
      }
    }
  }

  lemma SecondPart(all: seq<Bit>, a: seq<Bit>, b: seq<Bit>, m: nat, n: nat)
    requires m == |a| && n == m + |b| <= |all| && all[..n] == a + b
    ensures all[m..n] == b
  {
    assert all[m..n] == all[..n][m..];
  }

  lemma AllBitsSnoc(front: seq<Byte>, last: Byte)
    ensures AllBits(front + [last]) == AllBits(front) + Bits(last, BYTE)
  {
    hide Bits;
    assert (front + [last])[..|front|] == front;
  }

  lemma OneMore<T>(s: seq<T>, i: nat)
    requires i < |s|
    ensures s[..i + 1] == s[..i] + [s[i]]
  {
  }

  lemma ByteOfBits(src: seq<Byte>, i: nat)
    requires i < |src|
    ensures AllBits(src)[BYTE * i..BYTE * i + BYTE] == Bits(src[i], BYTE)
  {
    hide AllBits, Bits;
    var front := src[..i];
    AllBitsPrefix(src, i + 1);
    AllBitsSnoc(front, src[i]);
    OneMore(src, i);
    SecondPart(AllBits(src), AllBits(front), Bits(src[i], BYTE), BYTE * i, BYTE * i + BYTE);
  }

  /** main: greet, send byte after byte while the answers say so, and take leave.  Whatever the
      signals that arrive, it sends what the sender of the protocol would. */
  method Send(src: seq<Byte>, xs: seq<P.Incoming>) returns (sent: seq<P.Sig>)
    ensures sent == Says(AllBits(src), P.SayHello, 0, xs)
    ensures Heeds(AllBits(src), xs, sent)
  {
    hide Says, AllBits, Bits, Heeds;
    ghost var bits := AllBits(src);
    SaysHeeds(bits, xs);
    Speaks(bits, 0, xs);
    sent := [P.Continue];
    assert xs == xs[0..];
    if xs == [] {
      Waits(bits, P.Greeted, 0, xs);
      return;
    }
    Hears(bits, P.Greeted, 0, xs, 0);
    var answer, next := Signal(P.Number(xs[0])), 1;
    Speaks(bits, 0, xs[next..]);
    if answer.sig == P.Finish {
      return;
    }
    var symInBites := new Bit[BYTE];
    var i := 0;
    while i < |src| && answer == Signal(P.Continue)
      invariant i <= |src| && next <= |xs| && answer.Signal?
      invariant Says(bits, P.SayHello, 0, xs) == sent + Rest(bits, BYTE * i, answer, xs[next..])
    {
      var behind: nat :| behind < 0x100_0000;   // the three bytes behind the symbol can be anything
      GetBites(src[i] + 256 * behind, symInBites);
      ByteOfBits(src, i);
      var said;
      said, answer, next := SendBites(symInBites, xs, next, bits, BYTE * i);
      sent := sent + said;
      i := i + 1;
      if answer.Waiting? {
        return;
      }
    }
    Speaks(bits, BYTE * i, xs[next..]);
    sent := sent + [P.Finish];
  }
}
