/** Replies longer than a frame: send_data of Socket/lib.c cuts what it reads into frames, one
    empty frame ends them, and receive_data puts them together.  The channel keeps order and
    loses nothing. */
module SocketReply {
  import opened Sequences
  import opened SocketFrame

  /** What one read brings: some bytes, or an error. */
  datatype Read = Bytes(chunk: seq<Byte>) | Failed

  /** A read fills at most the buffer; strlen needs a terminator, which a full buffer without a 0
      does not have. */
  predicate Fits(chunk: seq<Byte>) { |chunk| <= BUFSZ && (|chunk| == BUFSZ ==> 0 in chunk) }

  predicate AllFit(rs: seq<Read>) {
    forall i :: 0 <= i < |rs| && rs[i].Bytes? ==> Fits(rs[i].chunk)
  }

  /** A cleared buffer holding one read. */
  function Filled(chunk: seq<Byte>): (r: seq<Byte>)
    requires |chunk| <= BUFSZ
    ensures |r| == BUFSZ
  {
    chunk + seq(BUFSZ - |chunk|, i => 0)
  }

  /** The frames for a list of reads, and the empty one behind them; a failed read sends nothing. */
  function Frames(rs: seq<Read>): seq<seq<Byte>>
    requires AllFit(rs)
  {
    if rs == [] then [Encoded(Filled([]))]
    else if rs[0].Failed? then Frames(rs[1..])
    else [Encoded(Filled(rs[0].chunk))] + Frames(rs[1..])
  }

  /** The loop of send_data over what the reads return, then the empty frame of the slave. */
  method SendData(rs: seq<Read>, data: array<Byte>) returns (channel: seq<seq<Byte>>)
    requires data.Length == BUFSZ && AllFit(rs)
    modifies data
    ensures channel == Frames(rs)
  {
    channel := [];
    var k := 0;
    while k < |rs|
      invariant k <= |rs|
      invariant channel + Frames(rs[k..]) == Frames(rs)
    {
      if rs[k].Bytes? {
        var datagram := SendOne(rs[k].chunk, data);
        channel := channel + [datagram];
      } else {
        ClearBuf(data);
      }
      k := k + 1;
    }
    var last := SendOne([], data);
    channel := channel + [last];
  }

  method SendOne(chunk: seq<Byte>, data: array<Byte>) returns (datagram: seq<Byte>)
    requires data.Length == BUFSZ && Fits(chunk)
    modifies data
    ensures datagram == Encoded(Filled(chunk))
  {
    ClearBuf(data);
    for i := 0 to |chunk|
      invariant forall j :: 0 <= j < i ==> data[j] == chunk[j]
      invariant forall j :: i <= j < BUFSZ ==> data[j] == 0
    {
      data[i] := chunk[i];
    }
    assert data[..] == Filled(chunk);
    datagram := SendBuf(data);
  }

  /** What one received datagram adds to the output. */
  function Text(datagram: seq<Byte>): seq<Byte> { CStr(Received(datagram)) }

  datatype Reply = Reply(out: seq<Byte>, rest: seq<seq<Byte>>, ended: bool)

  /** The texts up to the first empty one; without one the receiver is still waiting. */
  function Collected(channel: seq<seq<Byte>>): Reply {
    if channel == [] then Reply([], [], false)
    else if Text(channel[0]) == [] then Reply([], channel[1..], true)
    else
      var r := Collected(channel[1..]);
      r.(out := Text(channel[0]) + r.out)
  }

  /** receive_data. */
  method ReceiveData(channel: seq<seq<Byte>>, buffer: array<Byte>) returns (reply: Reply)
    requires buffer.Length == BUFSZ
    modifies buffer
    ensures reply == Collected(channel)
  {
    var size, k, out := 1, 0, [];
    while size != 0 && k < |channel|
      invariant k <= |channel|
      invariant size != 0 ==>
        var r := Collected(channel[k..]); Collected(channel) == r.(out := out + r.out)
      invariant size == 0 ==> Collected(channel) == Reply(out, channel[k..], true)
      decreases |channel| - k
    {
      ClearBuf(buffer);
      size := ReceiveBuf(channel[k], buffer);
      ghost var text := Text(channel[k]);
      if size > 0 {
        out := out + buffer[..size];
        assert buffer[..size] == text;
      } else {
        assert text == [];
      }
      assert channel[k..][1..] == channel[k + 1..];
      k := k + 1;
    }
    reply := Reply(out, channel[k..], size == 0);
  }

  /** A read the frames can carry: not empty, at most 255 bytes, and free of 0 and of the mask. */
  predicate Clean(chunk: seq<Byte>) { 0 < |chunk| < BUFSZ && 0 !in chunk && CR_MASK !in chunk }

  predicate AllClean(rs: seq<Read>) {
    forall i :: 0 <= i < |rs| && rs[i].Bytes? ==> Clean(rs[i].chunk)
  }

  /** Everything that was read. */
  function Concat(rs: seq<Read>): seq<Byte> {
    if rs == [] then []
    else (if rs[0].Bytes? then rs[0].chunk else []) + Concat(rs[1..])
  }

  lemma {:induction false} TextOfChunk(chunk: seq<Byte>)
    requires Fits(chunk)
    ensures Text(Encoded(Filled(chunk))) == Before(CStr(chunk), CR_MASK)
    ensures |Text(Encoded(Filled(chunk)))| <= |chunk|
    ensures chunk != [] ==> (Clean(chunk) <==> Text(Encoded(Filled(chunk))) == chunk)
  {
    var buf, cut := Filled(chunk), CStr(chunk);
    EndsInBuffer(chunk);
    TextSurvivesUpToMask(buf);
    assert Clean(chunk) ==> Before(cut, CR_MASK) == chunk by {
      if Clean(chunk) {
        BeforeIs(chunk, 0, |chunk|);
        BeforeIs(chunk, CR_MASK, |chunk|);
        assert chunk[..|chunk|] == chunk;
      }
    }
  }

  lemma EndsInBuffer(chunk: seq<Byte>)
    requires Fits(chunk)
    ensures 0 in Filled(chunk) && CStr(Filled(chunk)) == CStr(chunk)
  {
    var buf, cut := Filled(chunk), CStr(chunk);
    if |chunk| < BUFSZ {
      assert buf[|chunk|] == 0;
    } else {
      assert buf == chunk;
    }
    assert buf[..|cut|] == cut;
    BeforeIs(buf, 0, |cut|);
  }

  lemma CleanIsNotEmpty(chunk: seq<Byte>)
    requires Fits(chunk) && Text(Encoded(Filled(chunk))) == []
    ensures !Clean(chunk)
  {
    TextOfChunk(chunk);
  }

  lemma {:induction false} FramesEnd(rs: seq<Read>)
    requires AllFit(rs)
    ensures |Frames(rs)| >= 1
  {
    if rs != [] { FramesEnd(rs[1..]); }
  }

  lemma CleanFromFirst(rs: seq<Read>)
    requires rs != []
    ensures AllClean(rs) <==> (rs[0].Bytes? ==> Clean(rs[0].chunk)) && AllClean(rs[1..])
  {
    hide Clean;
    assert forall i :: 0 < i < |rs| ==> rs[i] == rs[1..][i - 1];
    assert forall i :: 0 <= i < |rs| - 1 ==> rs[1..][i] == rs[i + 1];
  }

  /** Whatever the reads were, no byte is made up: the output is never longer than what was read,
      and is it exactly, with nothing left behind, when every read that brought bytes was clean and
      only then. */
  lemma {:induction false} ReassemblyExactly(rs: seq<Read>, later: seq<seq<Byte>>)
    requires AllFit(rs)
    ensures var r := Collected(Frames(rs) + later);
      && r.ended
      && |r.out| <= |Concat(rs)|
      && |r.rest| >= |later|
      && (r == Reply(Concat(rs), later, true) <==> AllClean(rs))
  {
    hide Encoded, Received, Filled, Clean, Text, Fits, Collected, Frames, Concat;
    if rs == [] {
      NoReads(later);
    } else {
      ReassemblyExactly(rs[1..], later);
      CleanFromFirst(rs);
      FirstFrame(rs, later);
      if rs[0].Bytes? { OneMoreRead(rs[0].chunk, rs[1..], later); }
    }
  }

  lemma NoReads(later: seq<seq<Byte>>)
    ensures Collected(Frames([]) + later) == Reply([], later, true) && Concat([]) == []
  {
    assert Fits([]);
    hide Encoded, Received, Filled, Clean, Text, Fits;
    TextOfChunk([]);
    FirstText(Encoded(Filled([])), later);
  }

  lemma FirstFrame(rs: seq<Read>, later: seq<seq<Byte>>)
    requires rs != [] && AllFit(rs)
    ensures AllFit(rs[1..]) && (rs[0].Bytes? ==> Fits(rs[0].chunk))
    ensures Frames(rs) + later ==
      if rs[0].Failed? then Frames(rs[1..]) + later else [Encoded(Filled(rs[0].chunk))] + (Frames(rs[1..]) + later)
    ensures Concat(rs) == (if rs[0].Bytes? then rs[0].chunk else []) + Concat(rs[1..])
  {
    hide Encoded, Filled;
  }

  lemma FirstText(datagram: seq<Byte>, more: seq<seq<Byte>>)
    ensures Text(datagram) == [] ==> Collected([datagram] + more) == Reply([], more, true)
    ensures Text(datagram) != [] ==>
      var r := Collected(more); Collected([datagram] + more) == r.(out := Text(datagram) + r.out)
  {
    hide Text;
    assert ([datagram] + more)[1..] == more;
  }

  /** A read in front of the others. */
  lemma OneMoreRead(c: seq<Byte>, more: seq<Read>, later: seq<seq<Byte>>)
    requires Fits(c) && AllFit(more)
    requires var r := Collected(Frames(more) + later);
      r.ended && |r.out| <= |Concat(more)| && |r.rest| >= |later|
    ensures var tail, r := Collected(Frames(more) + later), Collected([Encoded(Filled(c))] + (Frames(more) + later));
      && r.ended && |r.out| <= |c| + |Concat(more)| && |r.rest| >= |later|
      && (r == Reply(c + Concat(more), later, true) <==> Clean(c) && tail == Reply(Concat(more), later, true))
  {
    assert |c| <= BUFSZ;
    hide Encoded, Received, Filled, Clean, Text, Fits, Frames, Concat, AllFit, Collected;
    var rest, datagram := Frames(more) + later, Encoded(Filled(c));
    TextOfChunk(c);
    FirstText(datagram, rest);
    if Text(datagram) == [] {
      CleanIsNotEmpty(c);
      FramesEnd(more);
    } else {
      PartsAgree(Text(datagram), Collected(rest).out, c, Concat(more));
    }
  }
}
