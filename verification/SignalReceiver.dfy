/** The receiving program of Signal_copy as written: handlers that fill the bit array in place
    and write a symbol when it is full.  Each reaction is the receiver's step in `SignalCopy`. */
module SignalReceiver {
  import opened SignalBits
  import P = SignalCopy

  /** What the program does next: send CONTINUE, send FINISH to the served or to another
      process, or end. */
  datatype Reply = Resume | TurnDown | SendOff | End

  /** What a signal of either process does to the bits and bytes received. */
  lemma ReactionIs(r: P.Receiver, x: P.Incoming)
    requires |r.arr| < 8
    ensures var r', bits := P.OnSignal(r, x), r.arr + [if x == P.Peer(P.Get0) then 0 else 1];
      && (r.served.TheSender? && (x == P.Peer(P.Get0) || x == P.Peer(P.Get1)) ==>
            if |bits| < 8 then r'.arr == bits && r'.out == r.out
            else r'.arr == [] && r'.out == r.out + [Worth(bits)])
      && (!(r.served.TheSender? && (x == P.Peer(P.Get0) || x == P.Peer(P.Get1))) ==>
            r'.arr == r.arr && r'.out == r.out)
  {
    var bits: seq<Bit> := r.arr + [if x == P.Peer(P.Get0) then 0 else 1];
    if |bits| == 8 {
      EightBitValue(bits);
      FitsByte(bits);
    }
    hide Value;
  }

  class Program {
    const arr: array<Bit>
    var arrLen: nat
    var flag: bool
    var file: seq<Byte>
    var served: P.Served

    ghost predicate Valid()
      reads this, arr
    {
      arr.Length == BYTE && arrLen < BYTE
    }

    ghost function View(): P.Receiver
      requires arrLen <= arr.Length
      reads this, arr
    {
      P.Receiver(P.Wait, served, arr[..arrLen], file, {})
    }

    constructor (served: P.Served)
      ensures Valid() && flag && fresh(arr)
      ensures View() == P.Receiver(P.Wait, served, [], [], {})
    {
      arr := new Bit[BYTE];
      arrLen, flag, file := 0, true, [];
      this.served := served;
    }

    method GetSymbolBit(b: Bit)
      requires Valid()
      modifies this`arrLen, arr
      ensures arr.Length == BYTE && arrLen == old(arrLen) + 1
      ensures arr[..arrLen] == old(arr[..arrLen]) + [b]
    {
      arr[arrLen] := b;
      arrLen := arrLen + 1;
    }

    method Finish()
      modifies this`flag
      ensures !flag
    {
      flag := false;
    }

    method WriteSymbol()
      requires arr.Length == BYTE
      modifies this`arrLen, this`file
      ensures arrLen == 0
      ensures file == old(file) + [Value(arr[..]) % 256]
    {
      var sym := Reassemble(arr);
      file := file + [sym];
      arrLen := 0;
    }

    /** One turn of the main loop after a signal has been waited for. */
    method React(x: P.Incoming) returns (reply: Reply)
      requires Valid() && flag
      modifies this, arr
      ensures Valid() && served == old(served)
      ensures var r := P.OnSignal(old(View()), x);
        && View() == r.(pc := P.Wait)
        && (flag <==> r.pc.Ack? || r.pc.Reject?)
        && reply == match r.pc
                    case Ack => Resume
                    case Refuse => TurnDown
                    case Reject => SendOff
                    case _ => End
      ensures served.TheSender? && (x == P.Peer(P.Get0) || x == P.Peer(P.Get1)) ==>
        var bits := old(arr[..arrLen]) + [if x == P.Peer(P.Get0) then 0 else 1];
        && reply == Resume && flag
        && if |bits| < 8 then arr[..arrLen] == bits && file == old(file)
           else arrLen == 0 && file == old(file) + [Worth(bits)]
      ensures !(served.TheSender? && (x == P.Peer(P.Get0) || x == P.Peer(P.Get1))) ==>
        arr[..arrLen] == old(arr[..arrLen]) && file == old(file)
      ensures served.TheSender? && (x == P.Peer(P.Finish) || x == P.Peer(P.Stop)) ==> reply == End && !flag
      ensures served.TheSender? && x == P.Peer(P.Continue) ==> reply == Resume && flag
      ensures served.TheSender? && x == P.User ==> reply == TurnDown && !flag
      ensures served.TheUser? && x == P.User ==> reply == End && !flag
      ensures served.TheUser? && x == P.Peer(P.Stop) ==> reply == TurnDown && !flag
      ensures served.TheUser? && x.Peer? && x.sig != P.Stop ==> reply == SendOff && flag
    {
      ReactionIs(View(), x);
      reply := Resume;
      var signal := P.Number(x);
      if P.FromServed(served, x) {
        match signal {
          case Get0 => GetSymbolBit(0);
          case Get1 => GetSymbolBit(1);
          case Finish =>
            Finish();
            reply := End;
          case Stop =>
            flag := false;
            reply := End;
          case Continue =>
        }
        if arrLen == BYTE {
          assert arr[..] == arr[..arrLen];
          WriteSymbol();
        }
      } else if signal == P.Stop {
        flag := false;
        reply := TurnDown;
      } else {
        reply := SendOff;
      }
    }
  }
}
