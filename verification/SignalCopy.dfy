/** The two programs of Signal_copy, each step by step.  A process has one pending slot for each
    signal number; a second signal with the same number is dropped while the first is pending,
    and which pending signal is taken next is up to the system.  Besides the two programs there
    is a user, who may interrupt either with SIG_STOP at any time. */
module SignalCopy {
  import opened SignalBits

  datatype Sig = Finish | Get0 | Get1 | Continue | Stop

  /** A pending signal and who sent it: the other program, or the user (always SIG_STOP). */
  datatype Incoming = Peer(sig: Sig) | User

  datatype SPc =
    | SayHello                 // about to send CONTINUE to the receiver
    | Greeted                  // waiting for the first answer
    | Emit                     // about to send the next bit
    | Await                    // waiting for the answer to a bit
    | Forward                  // about to pass the user's STOP on
    | Bye                      // about to send FINISH
    | Left

  datatype RPc =
    | AwaitHello               // waiting for the first signal, whose sender it will serve
    | AckFirst                 // about to send the first CONTINUE
    | Ack                      // at the head of the loop, about to send CONTINUE
    | Wait                     // waiting inside the loop
    | Refuse                   // interrupted, about to send FINISH to the served process
    | Reject                   // about to send FINISH to a process it does not serve
    | Closed

  datatype Served = Nobody | TheSender | TheUser

  datatype Sender = Sender(pc: SPc, k: nat, pending: set<Incoming>)

  datatype Receiver = Receiver(pc: RPc, served: Served, arr: seq<Bit>, out: seq<Byte>, pending: set<Incoming>)

  /** Whether the second CONTINUE of the receiver found the first still pending. */
  datatype Start = Undecided | OneCredit | TwoCredits

  /** Whether the first signal the receiver took was the sender's CONTINUE. */
  datatype Hello = NotYet | Proper | Mistaken

  /** `start`, `hello` and `interrupted` record what has happened; no step reads them. */
  datatype State = State(src: seq<Byte>, snd: Sender, rcv: Receiver, start: Start, hello: Hello, interrupted: bool)

  datatype Label = SKill | STake(x: Incoming) | RKill | RTake(x: Incoming) | StopSender | StopReceiver

  function Number(x: Incoming): Sig { if x.User? then Stop else x.sig }

  predicate SlotTaken(pending: set<Incoming>, sig: Sig) {
    Peer(sig) in pending || (sig == Stop && User in pending)
  }

  function Post(pending: set<Incoming>, x: Incoming): set<Incoming> {
    if SlotTaken(pending, Number(x)) then pending else pending + {x}
  }

  /** kill on a process that has ended changes nothing. */
  function ToReceiver(r: Receiver, x: Incoming): Receiver {
    if r.pc.Closed? then r else r.(pending := Post(r.pending, x))
  }

  function ToSender(d: Sender, x: Incoming): Sender {
    if d.pc.Left? then d else d.(pending := Post(d.pending, x))
  }

  function GetBit(b: Bit): Sig { if b == 0 then Get0 else Get1 }

  // ---------------------------------------------------------------- sender

  /** Where the sender goes once bit `k - 1` has been answered with CONTINUE. */
  function NextBit(k: nat, total: nat): SPc { if k < total then Emit else Bye }

  /** What the sender does with a signal it has waited for. */
  function OnAnswer(pc: SPc, k: nat, total: nat, x: Incoming): SPc {
    if pc.Greeted? then
      if x == Peer(Finish) then Left else if x == Peer(Continue) then NextBit(k, total) else Bye
    else
      match x
      case User => Forward
      case Peer(Finish) => Bye
      case Peer(Continue) => NextBit(k, total)
      case Peer(_) => if k % BYTE == 0 then Bye else NextBit(k, total)
  }

  // ---------------------------------------------------------------- receiver

  predicate FromServed(served: Served, x: Incoming) {
    if x.User? then served.TheUser? else served.TheSender?
  }

  /** One more bit; eight of them are a byte of the output. */
  function Gather(r: Receiver, b: Bit): Receiver {
    if |r.arr| + 1 == BYTE then r.(arr := [], out := r.out + [Value(r.arr + [b]) % 256])
    else r.(arr := r.arr + [b])
  }

  /** The body of the receiver's loop after the wait. */
  function OnSignal(r: Receiver, x: Incoming): Receiver {
    if FromServed(r.served, x) then
      match Number(x)
      case Get0 => Gather(r, 0).(pc := Ack)
      case Get1 => Gather(r, 1).(pc := Ack)
      case Finish => r.(pc := Closed)
      case Stop => r.(pc := Closed)
      case Continue => r.(pc := Ack)
    else if Number(x) == Stop then r.(pc := Refuse)
    else r.(pc := Reject)
  }

  function OnHello(r: Receiver, x: Incoming): Receiver {
    r.(pc := AckFirst, served := if x.User? then TheUser else TheSender)
  }

  // ---------------------------------------------------------------- steps

  predicate Init(s: State) {
    && s.snd == Sender(SayHello, 0, {})
    && s.rcv == Receiver(AwaitHello, Nobody, [], [], {})
    && s.start == Undecided && s.hello == NotYet && !s.interrupted
  }

  /** The user's STOP is a step only where it changes something. */
  predicate Enabled(s: State, l: Label) {
    match l
    case SKill =>
      s.snd.pc.SayHello? || (s.snd.pc.Emit? && s.snd.k < |AllBits(s.src)|) || s.snd.pc.Forward? || s.snd.pc.Bye?
    case STake(x) => (s.snd.pc.Greeted? || s.snd.pc.Await?) && x in s.snd.pending
    case RKill => s.rcv.pc.AckFirst? || s.rcv.pc.Ack? || s.rcv.pc.Refuse? || s.rcv.pc.Reject?
    case RTake(x) => (s.rcv.pc.AwaitHello? || s.rcv.pc.Wait?) && x in s.rcv.pending
    case StopSender => !s.snd.pc.Left? && !SlotTaken(s.snd.pending, Stop)
    case StopReceiver => !s.rcv.pc.Closed? && !SlotTaken(s.rcv.pending, Stop)
  }

  predicate ByUser(l: Label) { l.StopSender? || l.StopReceiver? }

  function SenderKill(s: State): State
    requires Enabled(s, SKill)
  {
    match s.snd.pc
    case SayHello => s.(rcv := ToReceiver(s.rcv, Peer(Continue)), snd := s.snd.(pc := Greeted))
    case Emit =>
      s.(rcv := ToReceiver(s.rcv, Peer(GetBit(AllBits(s.src)[s.snd.k]))), snd := s.snd.(pc := Await, k := s.snd.k + 1))
    case Forward => s.(rcv := ToReceiver(s.rcv, Peer(Stop)), snd := s.snd.(pc := Bye))
    case Bye => s.(rcv := ToReceiver(s.rcv, Peer(Finish)), snd := s.snd.(pc := Left))
  }

  /** kill on whoever the receiver serves; a signal to the user's process leaves the picture. */
  function ToServed(s: State, x: Incoming): Sender {
    if s.rcv.served.TheSender? then ToSender(s.snd, x) else s.snd
  }

  function ReceiverKill(s: State): State
    requires Enabled(s, RKill)
  {
    match s.rcv.pc
    case AckFirst => s.(snd := ToServed(s, Peer(Continue)), rcv := s.rcv.(pc := Ack))
    case Ack =>
      s.(snd := ToServed(s, Peer(Continue)), rcv := s.rcv.(pc := Wait),
         start := if s.start.Undecided? && s.rcv.served.TheSender?
                  then (if Peer(Continue) in s.snd.pending then OneCredit else TwoCredits)
                  else s.start)
    case Refuse => s.(snd := ToServed(s, Peer(Finish)), rcv := s.rcv.(pc := Closed))
    case Reject => s.(snd := ToSender(s.snd, Peer(Finish)), rcv := s.rcv.(pc := Ack))
  }

  function Do(s: State, l: Label): State
    requires Enabled(s, l)
  {
    match l
    case SKill => SenderKill(s)
    case STake(x) =>
      s.(snd := s.snd.(pending := s.snd.pending - {x}, pc := OnAnswer(s.snd.pc, s.snd.k, |AllBits(s.src)|, x)))
    case RKill => ReceiverKill(s)
    case RTake(x) =>
      var r := s.rcv.(pending := s.rcv.pending - {x});
      if s.rcv.pc.AwaitHello?
      then s.(rcv := OnHello(r, x), hello := if x == Peer(Continue) then Proper else Mistaken)
      else s.(rcv := OnSignal(r, x))
    case StopSender => s.(snd := ToSender(s.snd, User), interrupted := true)
    case StopReceiver => s.(rcv := ToReceiver(s.rcv, User), interrupted := true)
  }

  predicate Valid(s: State, ls: seq<Label>)
    decreases |ls|
  {
    ls == [] || (Enabled(s, ls[0]) && Valid(Do(s, ls[0]), ls[1..]))
  }

  function Exec(s: State, ls: seq<Label>): State
    requires Valid(s, ls)
    decreases |ls|
  {
    if ls == [] then s else Exec(Do(s, ls[0]), ls[1..])
  }

  ghost predicate Reachable(s: State) {
    exists s0, ls :: Init(s0) && Valid(s0, ls) && s == Exec(s0, ls)
  }

  // ---------------------------------------------------------------- termination

  function Count(b: bool): nat { if b then 1 else 0 }

  function SenderWork(pc: SPc): nat {
    match pc
    case SayHello => 28 case Greeted => 20 case Emit => 20 case Await => 19
    case Forward => 16 case Bye => 8 case Left => 0
  }

  function ReceiverWork(pc: RPc): nat {
    match pc
    case AwaitHello => 13 case AckFirst => 11 case Reject => 11 case Ack => 8
    case Wait => 5 case Refuse => 3 case Closed => 0
  }

  function SenderMeasure(d: Sender): nat {
    SenderWork(d.pc) + 2 * |d.pending| + 3 * Count(!d.pc.Left? && !SlotTaken(d.pending, Stop))
  }

  function ReceiverMeasure(r: Receiver): nat {
    ReceiverWork(r.pc) + 7 * |r.pending| + 8 * Count(!r.pc.Closed? && !SlotTaken(r.pending, Stop))
  }

  /** Work still ahead: bits to send, signals to take, and chances the user has to interrupt. */
  function Measure(s: State): nat
    requires s.snd.k <= |AllBits(s.src)|
  {
    7 * (|AllBits(s.src)| - s.snd.k) + SenderMeasure(s.snd) + ReceiverMeasure(s.rcv)
  }

  lemma ToReceiverCosts(r: Receiver, x: Incoming)
    ensures ReceiverMeasure(ToReceiver(r, x)) <= ReceiverMeasure(r) + 7
    ensures !r.pc.Closed? && x.User? && !SlotTaken(r.pending, Stop) ==>
      ReceiverMeasure(ToReceiver(r, x)) < ReceiverMeasure(r)
  {
  }

  lemma ToSenderCosts(d: Sender, x: Incoming)
    ensures SenderMeasure(ToSender(d, x)) <= SenderMeasure(d) + 2 && ToSender(d, x).k == d.k
    ensures !d.pc.Left? && x.User? && !SlotTaken(d.pending, Stop) ==>
      SenderMeasure(ToSender(d, x)) < SenderMeasure(d)
  {
  }

  lemma ToServedCosts(s: State, x: Incoming)
    ensures SenderMeasure(ToServed(s, x)) <= SenderMeasure(s.snd) + 2 && ToServed(s, x).k == s.snd.k
  {
    ToSenderCosts(s.snd, x);
  }

  lemma STakeCosts(s: State, x: Incoming)
    requires Peer(Stop) !in s.snd.pending && Enabled(s, STake(x))
    ensures SenderMeasure(Do(s, STake(x)).snd) < SenderMeasure(s.snd)
  {
    assert |s.snd.pending - {x}| == |s.snd.pending| - 1;
  }

  lemma RTakeCosts(s: State, x: Incoming)
    requires Enabled(s, RTake(x))
    ensures ReceiverMeasure(Do(s, RTake(x)).rcv) < ReceiverMeasure(s.rcv)
  {
    assert |s.rcv.pending - {x}| == |s.rcv.pending| - 1;
  }

  lemma SenderMovesOn(d: Sender, pc: SPc, k: nat)
    requires !d.pc.Left?
    ensures SenderMeasure(d.(pc := pc, k := k)) <= SenderMeasure(d) - SenderWork(d.pc) + SenderWork(pc)
  {
  }

  lemma SKillCosts(s: State)
    requires s.snd.k <= |AllBits(s.src)| && Enabled(s, SKill)
    ensures Do(s, SKill).src == s.src && Do(s, SKill).snd.k <= |AllBits(s.src)|
    ensures Measure(Do(s, SKill)) < Measure(s)
  {
    hide ToReceiver, ReceiverMeasure, SenderMeasure, AllBits;
    var pc, d := s.snd.pc, Do(s, SKill).snd;
    var sig := if pc.SayHello? then Continue else if pc.Emit? then GetBit(AllBits(s.src)[s.snd.k])
               else if pc.Forward? then Stop else Finish;
    ToReceiverCosts(s.rcv, Peer(sig));
    SenderMovesOn(s.snd, d.pc, d.k);
  }

  lemma RKillCosts(s: State)
    requires s.snd.k <= |AllBits(s.src)| && Enabled(s, RKill)
    ensures Do(s, RKill).src == s.src && Do(s, RKill).snd.k == s.snd.k
    ensures Measure(Do(s, RKill)) < Measure(s)
  {
    hide ToServed, ToSender, SenderMeasure, AllBits;
    ToServedCosts(s, Peer(Continue));
    ToServedCosts(s, Peer(Finish));
    ToSenderCosts(s.snd, Peer(Finish));
  }

  /** Every step, whoever takes it, uses up some of the work. */
  lemma {:induction false} EveryStepFinishesSomething(s: State, l: Label)
    requires s.snd.k <= |AllBits(s.src)| && Peer(Stop) !in s.snd.pending && Enabled(s, l)
    ensures Do(s, l).src == s.src && Do(s, l).snd.k <= |AllBits(s.src)|
    ensures Measure(Do(s, l)) < Measure(s)
  {
    match l
    case SKill => SKillCosts(s);
    case RKill => RKillCosts(s);
    case STake(x) => STakeCosts(s, x);
    case RTake(x) => RTakeCosts(s, x);
    case StopSender => ToSenderCosts(s.snd, User);
    case StopReceiver => ToReceiverCosts(s.rcv, User);
  }
}
