/** How a reply is put together from the socket reads: the daemon ends a reply with
    one NUL byte, except for SHUTDOWN, where it just closes the connection. */
module Replies {
  import opened Bytes
  import opened Results

  /** What one read of the socket returned. */
  datatype ReadResult =
    | Chunk(data: seq<byte>)   // read(bb) returned data.Length >= 0 bytes
    | PeerClosed               // read(bb) returned -1

  /** A read that ends the reply: the end of stream, or a chunk whose last byte is NUL. */
  predicate Completes(r: ReadResult)
  {
    r.PeerClosed? || (|r.data| > 0 && r.data[|r.data| - 1] == 0)
  }

  /** What a completing read adds to the reply: its chunk less the final NUL. */
  function Body(r: ReadResult): seq<byte>
    requires Completes(r)
  {
    if r.PeerClosed? then [] else r.data[..|r.data| - 1]
  }

  /** All bytes the reads returned, in order. */
  function Received(rs: seq<ReadResult>): seq<byte>
  {
    if rs == [] then []
    else (if rs[0].Chunk? then rs[0].data else []) + Received(rs[1..])
  }

  /** The reply made from a sequence of reads, or None while no read has completed it. */
  function Assemble(rs: seq<ReadResult>): Option<seq<byte>>
  {
    if rs == [] then None
    else if Completes(rs[0]) then Some(Body(rs[0]))
    else match Assemble(rs[1..])
      case None => None
      case Some(rest) => Some(rs[0].data + rest)
  }

  /** The read sizes a 4096-byte buffer that is flipped but never cleared allows:
      each read fits in the room the previous read left, and the end of stream can
      only be seen while there is room. */
  predicate FitsShrinkingBuffer(rs: seq<ReadResult>, room: nat)
  {
    rs == []
    || (rs[0].PeerClosed? && room > 0 && |rs| == 1)
    || (rs[0].Chunk? && |rs[0].data| <= room && FitsShrinkingBuffer(rs[1..], |rs[0].data|))
  }

  /** The room a buffer of `room` bytes has left after the reads `rs`. */
  function RoomAfter(rs: seq<ReadResult>, room: nat): nat
  {
    if rs == [] then room
    else if rs[|rs| - 1].Chunk? then |rs[|rs| - 1].data|
    else 0
  }

  /** One more read that fits the room left keeps the trace within the buffer. */
  lemma {:induction false} FitsSnoc(rs: seq<ReadResult>, room: nat, r: ReadResult)
    requires FitsShrinkingBuffer(rs, room)
    requires forall i :: 0 <= i < |rs| ==> rs[i].Chunk?
    requires r.PeerClosed? ==> RoomAfter(rs, room) > 0
    requires r.Chunk? ==> |r.data| <= RoomAfter(rs, room)
    ensures FitsShrinkingBuffer(rs + [r], room)
    decreases |rs|
  {
    if rs == [] {
      assert rs + [r] == [r] && [r][1..] == [];
    } else {
      var tail := rs[1..];
      assert forall i :: 0 <= i < |tail| ==> tail[i] == rs[i + 1];
      assert RoomAfter(tail, |rs[0].data|) == RoomAfter(rs, room);
      FitsSnoc(tail, |rs[0].data|, r);
      assert (rs + [r])[1..] == tail + [r];
    }
  }

  /** What the reading loop knows after the reads `rs`, none of which completed the
      reply, in a buffer of `room` bytes: `reply` holds every byte read, and `input`
      is those bytes followed by the `rest` still unread. */
  ghost predicate OpenTrace(rs: seq<ReadResult>, room: nat, reply: seq<byte>, input: seq<byte>, rest: seq<byte>)
  {
    (forall i :: 0 <= i < |rs| ==> rs[i].Chunk? && !Completes(rs[i]))
    && Assemble(rs) == None && reply == Received(rs)
    && FitsShrinkingBuffer(rs, room) && input == Received(rs) + rest
  }

  /** A read that returns the next bytes of the input, as many as the room left. */
  lemma ReadMore(rs: seq<ReadResult>, room: nat, reply: seq<byte>, input: seq<byte>,
                 rest: seq<byte>, data: seq<byte>, rest2: seq<byte>)
    requires OpenTrace(rs, room, reply, input, rest)
    requires rest == data + rest2 && |data| <= RoomAfter(rs, room)
    ensures FitsShrinkingBuffer(rs + [Chunk(data)], room)
    ensures RoomAfter(rs + [Chunk(data)], room) == |data|
    ensures input == Received(rs + [Chunk(data)]) + rest2
    ensures forall i :: 0 <= i < |rs| ==> !Completes((rs + [Chunk(data)])[i])
    ensures !Completes(Chunk(data)) ==> OpenTrace(rs + [Chunk(data)], room, reply + data, input, rest2)
    ensures Completes(Chunk(data)) ==> Assemble(rs + [Chunk(data)]) == Some(reply + data[..|data| - 1])
  {
    var r := Chunk(data);
    FitsSnoc(rs, room, r);
    AssembleSnoc(rs, r);
    assert input == Received(rs) + (data + rest2) == (Received(rs) + data) + rest2;
    assert forall i :: 0 <= i < |rs| ==> (rs + [r])[i] == rs[i];
    if !Completes(r) {
      assert forall i :: 0 <= i < |rs + [r]| ==> (rs + [r])[i].Chunk? && !Completes((rs + [r])[i]);
    }
  }

  /** A read that finds the input exhausted and the connection closed, while there is
      room left. */
  lemma ReadClosed(rs: seq<ReadResult>, room: nat, reply: seq<byte>, input: seq<byte>, rest: seq<byte>)
    requires OpenTrace(rs, room, reply, input, rest)
    requires rest == [] && RoomAfter(rs, room) > 0
    ensures FitsShrinkingBuffer(rs + [PeerClosed], room)
    ensures input == Received(rs + [PeerClosed]) + rest
    ensures forall i :: 0 <= i < |rs| ==> !Completes((rs + [PeerClosed])[i])
    ensures Assemble(rs + [PeerClosed]) == Some(reply)
  {
    FitsSnoc(rs, room, PeerClosed);
    AssembleSnoc(rs, PeerClosed);
    assert Received(rs) + Body(PeerClosed) == Received(rs);
    assert Received(rs) + [] == Received(rs);
    assert forall i :: 0 <= i < |rs| ==> (rs + [PeerClosed])[i] == rs[i];
  }

  /** The step the reading loop takes: while nothing has completed the reply, one more
      read either completes it with all bytes so far plus its body, or leaves it open. */
  lemma {:induction false} AssembleSnoc(rs: seq<ReadResult>, r: ReadResult)
    requires Assemble(rs) == None
    ensures Received(rs + [r]) == Received(rs) + (if r.Chunk? then r.data else [])
    ensures Assemble(rs + [r]) == if Completes(r) then Some(Received(rs) + Body(r)) else None
  {
    if rs != [] {
      var d := rs[0].data;
      assert (rs + [r])[0] == rs[0];
      assert (rs + [r])[1..] == rs[1..] + [r];
      assert !Completes(rs[0]) && Assemble(rs[1..]) == None;
      AssembleSnoc(rs[1..], r);
      var tail := Assemble(rs[1..] + [r]);
      assert Assemble(rs + [r]) == if tail.None? then None else Some(d + tail.value);
      assert Received(rs) == d + Received(rs[1..]);
      if Completes(r) {
        assert d + (Received(rs[1..]) + Body(r)) == Received(rs) + Body(r);
      }
    } else {
      assert rs + [r] == [r] && [r][1..] == [];
      assert Received(rs) == [] && Assemble([r][1..]) == None;
      if Completes(r) {
        assert Assemble([r]) == Some(Body(r));
        assert Received(rs) + Body(r) == Body(r);
        assert Assemble(rs + [r]) == Some(Received(rs) + Body(r));
      } else {
        assert Assemble([r]) == None;
      }
    }
  }

  /** Nothing is taken from the reads that follow the one completing the reply. */
  lemma {:induction false} AssembleStops(rs: seq<ReadResult>, more: seq<ReadResult>)
    requires Assemble(rs).Some?
    ensures Assemble(rs + more) == Assemble(rs)
  {
    if !Completes(rs[0]) {
      assert (rs + more)[1..] == rs[1..] + more;
      AssembleStops(rs[1..], more);
    }
  }

  /** A reply stays open exactly as long as no read completes it. */
  lemma {:induction false} AssembleOpen(rs: seq<ReadResult>)
    ensures Assemble(rs) == None <==> forall i :: 0 <= i < |rs| ==> !Completes(rs[i])
  {
    if rs != [] {
      AssembleOpen(rs[1..]);
      assert forall i :: 1 <= i < |rs| ==> rs[i] == rs[1..][i - 1];
    }
  }

  /** The daemon's NUL-terminated reply, however the network splits it into reads,
      is assembled to the text before the NUL. */
  lemma {:induction false} NulTerminatedReply(msg: seq<byte>, rs: seq<ReadResult>)
    requires forall i :: 0 <= i < |msg| ==> msg[i] != 0
    requires forall i :: 0 <= i < |rs| ==> rs[i].Chunk?
    requires Received(rs) == msg + [0]
    ensures Assemble(rs) == Some(msg)
  {
    assert rs != [];
    var d := rs[0].data;
    var rest := Received(rs[1..]);
    assert d + rest == msg + [0];
    if |rest| == 0 {
      assert d == msg + [0];
      assert d[..|d| - 1] == msg;
    } else {
      assert |d| <= |msg|;
      assert d == (d + rest)[..|d|] == (msg + [0])[..|d|] == msg[..|d|];
      assert rest == (d + rest)[|d|..] == (msg + [0])[|d|..] == msg[|d|..] + [0];
      NulTerminatedReply(msg[|d|..], rs[1..]);
      assert d + msg[|d|..] == msg;
    }
  }

  /** A reply the daemon ends by closing the connection is assembled unchanged,
      provided no chunk of it ends in NUL. */
  lemma {:induction false} ClosedReply(rs: seq<ReadResult>)
    requires forall i :: 0 <= i < |rs| ==> rs[i].Chunk? && !Completes(rs[i])
    ensures Assemble(rs + [PeerClosed]) == Some(Received(rs))
  {
    if rs == [] {
    } else {
      assert (rs + [PeerClosed])[1..] == rs[1..] + [PeerClosed];
      ClosedReply(rs[1..]);
    }
  }

  /** Once a read returns no bytes, the never-cleared buffer has no room left: every
      later read returns no bytes either and the reply can no longer complete. */
  lemma {:induction false} EmptyReadStalls(rs: seq<ReadResult>, room: nat, k: nat)
    requires FitsShrinkingBuffer(rs, room)
    requires k < |rs| && rs[k] == Chunk([])
    ensures forall j :: k <= j < |rs| ==> rs[j] == Chunk([])
    ensures Assemble(rs[..k]) == None ==> Assemble(rs) == None
  {
    if k == 0 {
      EmptyTail(rs[1..]);
      assert forall j :: 1 <= j < |rs| ==> rs[j] == rs[1..][j - 1];
      AssembleOpen(rs);
    } else {
      EmptyReadStalls(rs[1..], |rs[0].data|, k - 1);
      assert forall j :: k <= j < |rs| ==> rs[j] == rs[1..][j - 1];
      if Assemble(rs[..k]) == None {
        assert rs[..k][1..] == rs[1..][..k - 1];
        AssembleOpen(rs[..k]);
        AssembleOpen(rs);
        assert forall i :: 0 <= i < k ==> rs[i] == rs[..k][i];
      }
    }
  }

  lemma {:induction false} EmptyTail(rs: seq<ReadResult>)
    requires FitsShrinkingBuffer(rs, 0)
    ensures forall j :: 0 <= j < |rs| ==> rs[j] == Chunk([])
  {
    if rs != [] {
      EmptyTail(rs[1..]);
      assert forall j :: 1 <= j < |rs| ==> rs[j] == rs[1..][j - 1];
    }
  }

  /** A NUL inside a reply that happens to end a read cuts the reply short there:
      the reader cannot tell it from the terminator. */
  lemma InnerNulAtReadBoundary()
    ensures Assemble([Chunk([0x41, 0]), Chunk([0x42, 0])]) == Some([0x41])
  {
    var first: seq<byte> := [0x41, 0];
    assert Completes(Chunk(first)) && Body(Chunk(first)) == [0x41];
  }

  /** The liveness reply as ClamdClient declares it, NUL included. */
  const PongReply: seq<byte> := [0x50, 0x4F, 0x4E, 0x47, 0] // "PONG\0"

  /** The reload acknowledgement as ClamdClient declares it, NUL included. */
  const ReloadingReply: seq<byte> := [0x52, 0x45, 0x4C, 0x4F, 0x41, 0x44, 0x49, 0x4E, 0x47, 0] // "RELOADING\0"

  /** checkConnection's test as written: the assembled reply equals "PONG\0". */
  predicate PongAcceptedAsWritten(reply: seq<byte>)
  {
    reply == PongReply
  }

  /** reload's test as written: the assembled reply equals "RELOADING\0". */
  predicate ReloadingAcceptedAsWritten(reply: seq<byte>)
  {
    reply == ReloadingReply
  }

  /** checkConnection's test as intended: the reply text is PONG (its NUL already gone). */
  predicate PongAccepted(reply: seq<byte>)
  {
    reply == PongReply[..|PongReply| - 1]
  }

  /** reload's test as intended: the reply text is RELOADING. */
  predicate ReloadingAccepted(reply: seq<byte>)
  {
    reply == ReloadingReply[..|ReloadingReply| - 1]
  }

  /** Text of non-NUL bytes followed by one NUL, as the daemon sends its replies. */
  predicate NulTerminated(t: seq<byte>)
  {
    t != [] && t[|t| - 1] == 0 && forall i :: 0 <= i < |t| - 1 ==> t[i] != 0
  }

  /** A NUL-terminated reply is assembled to the text before its NUL, however it
      arrives: never to the reply with its NUL. */
  lemma NulTerminatedAssembled(t: seq<byte>, rs: seq<ReadResult>)
    requires NulTerminated(t)
    requires forall i :: 0 <= i < |rs| ==> rs[i].Chunk?
    requires Received(rs) == t
    ensures Assemble(rs) == Some(t[..|t| - 1])
    ensures Assemble(rs) != Some(t)
  {
    var msg := t[..|t| - 1];
    assert t == msg + [0];
    NulTerminatedReply(msg, rs);
  }

  /** The daemon answers PING with "PONG\0"; however it arrives, the test as written
      rejects it, because the reader has already dropped the NUL. */
  lemma DaemonPongRejectedAsWritten(rs: seq<ReadResult>)
    requires forall i :: 0 <= i < |rs| ==> rs[i].Chunk?
    requires Received(rs) == PongReply
    ensures Assemble(rs).Some? && !PongAcceptedAsWritten(Assemble(rs).value)
  {
    assert NulTerminated(PongReply);
    NulTerminatedAssembled(PongReply, rs);
  }

  /** The same for RELOAD and "RELOADING\0". */
  lemma DaemonReloadingRejectedAsWritten(rs: seq<ReadResult>)
    requires forall i :: 0 <= i < |rs| ==> rs[i].Chunk?
    requires Received(rs) == ReloadingReply
    ensures Assemble(rs).Some? && !ReloadingAcceptedAsWritten(Assemble(rs).value)
  {
    assert NulTerminated(ReloadingReply);
    NulTerminatedAssembled(ReloadingReply, rs);
  }

  /** The tests as written can pass: a single read of the text followed by two NULs,
      which is not what the daemon sends, assembles to the constant with its NUL. */
  lemma AsWrittenPassedByDoubleNul()
    ensures Assemble([Chunk(PongReply + [0])]).Some?
            && PongAcceptedAsWritten(Assemble([Chunk(PongReply + [0])]).value)
    ensures Assemble([Chunk(ReloadingReply + [0])]).Some?
            && ReloadingAcceptedAsWritten(Assemble([Chunk(ReloadingReply + [0])]).value)
  {
    assert (PongReply + [0])[..|PongReply|] == PongReply;
    assert (ReloadingReply + [0])[..|ReloadingReply|] == ReloadingReply;
  }

  /** With the intended test, the daemon's "PONG\0" is accepted however it arrives. */
  lemma DaemonPongAccepted(rs: seq<ReadResult>)
    requires forall i :: 0 <= i < |rs| ==> rs[i].Chunk?
    requires Received(rs) == PongReply
    ensures Assemble(rs).Some? && PongAccepted(Assemble(rs).value)
  {
    assert NulTerminated(PongReply);
    NulTerminatedAssembled(PongReply, rs);
  }

  /** With the intended test, the daemon's "RELOADING\0" is accepted however it arrives. */
  lemma DaemonReloadingAccepted(rs: seq<ReadResult>)
    requires forall i :: 0 <= i < |rs| ==> rs[i].Chunk?
    requires Received(rs) == ReloadingReply
    ensures Assemble(rs).Some? && ReloadingAccepted(Assemble(rs).value)
  {
    assert NulTerminated(ReloadingReply);
    NulTerminatedAssembled(ReloadingReply, rs);
  }
}
