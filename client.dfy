/** ClamdClient: the commands it sends to the clamd daemon, the loops that write a
    buffer to and read a reply from the socket under a deadline, and the INSTREAM
    upload. Each command runs on a fresh connection, passed in as a Channel. */
module Clamd {
  import opened Bytes
  import opened Results
  import opened Framing
  import opened Replies
  import opened Parsing
  import opened Timing
  import opened IO

  // The commands, in the NUL-terminated form ("z" prefix).
  const PingCmd: seq<byte> := Ascii("zPING\0")
  const VersionCmd: seq<byte> := Ascii("zVERSION\0")
  const VersionCommandsCmd: seq<byte> := Ascii("zVERSIONCOMMANDS\0")
  const ReloadCmd: seq<byte> := Ascii("zRELOAD\0")
  const InstreamCmd: seq<byte> := Ascii("zINSTREAM\0")
  const ShutdownCmd: seq<byte> := Ascii("zSHUTDOWN\0")

  /** Capacity of the buffer readFromChannel reads the reply into. */
  const ReplyBufferSize: nat := 4096

  /** The deadline checks made since `before` all measure against one deadline,
      (`start`, `timeoutMilli`): none of them found it passed except, when `failed`,
      the last, and a failure comes only after a check. */
  ghost predicate Watched(before: seq<DeadlineCheck>, checks: seq<DeadlineCheck>,
                          start: int64, timeoutMilli: int64, failed: bool)
  {
    before <= checks
    && (failed ==> |before| < |checks|)
    && forall i :: |before| <= i < |checks| ==>
         checks[i].start == start && checks[i].timeoutMilli == timeoutMilli
         && (Expired(checks[i]) <==> failed && i == |checks| - 1)
  }

  /** Every deadline check made since `before` uses the timeout `timeoutMilli`. */
  ghost predicate UsesTimeout(before: seq<DeadlineCheck>, checks: seq<DeadlineCheck>, timeoutMilli: int64)
  {
    before <= checks && forall i :: |before| <= i < |checks| ==> checks[i].timeoutMilli == timeoutMilli
  }

  /** One more check against the same deadline: it decides whether the loop fails. */
  lemma {:induction false} WatchedStep(before: seq<DeadlineCheck>, checks: seq<DeadlineCheck>, c: DeadlineCheck,
                                       start: int64, timeoutMilli: int64)
    requires Watched(before, checks, start, timeoutMilli, false)
    requires c.start == start && c.timeoutMilli == timeoutMilli
    ensures Watched(before, checks + [c], start, timeoutMilli, Expired(c))
  {
    forall i | |before| <= i < |checks + [c]|
      ensures (checks + [c])[i].start == start && (checks + [c])[i].timeoutMilli == timeoutMilli
      ensures Expired((checks + [c])[i]) <==> Expired(c) && i == |checks + [c]| - 1
    {
      if i < |checks| {
        assert (checks + [c])[i] == checks[i];
      }
    }
  }

  /** Checks against one deadline all use its timeout. */
  lemma WatchedUses(before: seq<DeadlineCheck>, checks: seq<DeadlineCheck>,
                    start: int64, timeoutMilli: int64, failed: bool)
    requires Watched(before, checks, start, timeoutMilli, failed)
    ensures UsesTimeout(before, checks, timeoutMilli)
  {
  }

  lemma {:induction false} UsesTimeoutTrans(a: seq<DeadlineCheck>, b: seq<DeadlineCheck>, c: seq<DeadlineCheck>,
                                            timeoutMilli: int64)
    requires UsesTimeout(a, b, timeoutMilli) && UsesTimeout(b, c, timeoutMilli)
    ensures UsesTimeout(a, c, timeoutMilli)
  {
    forall i | |a| <= i < |c|
      ensures c[i].timeoutMilli == timeoutMilli
    {
      if i < |b| {
        assert c[i] == b[i];
      }
    }
  }

  /** The clock readings left once the deadline's start has been read. */
  function AfterReading(ticks: seq<int64>): seq<int64>
  {
    if ticks == [] then [] else ticks[1..]
  }

  /** isTimeout(start, timeoutMilli) in a loop whose earlier checks against the same
      deadline all found time left. */
  method CheckDeadline(chan: Channel, start: int64, timeoutMilli: int64,
                       ghost before: seq<DeadlineCheck>, ghost ticks0: seq<int64>)
      returns (late: bool)
    requires Watched(before, chan.checks, start, timeoutMilli, false)
    requires ClockedChecks(ticks0, chan.checks[|before|..], chan.ticks)
    modifies chan
    ensures Watched(before, chan.checks, start, timeoutMilli, late)
    ensures ClockedChecks(ticks0, chan.checks[|before|..], chan.ticks)
    ensures |chan.checks| == |old(chan.checks)| + 1
    ensures !late ==> |chan.ticks| < |old(chan.ticks)|
    ensures chan.sent == old(chan.sent) && chan.accepts == old(chan.accepts)
    ensures chan.inbound == old(chan.inbound) && chan.arrivals == old(chan.arrivals)
  {
    ghost var checked := chan.checks;
    ghost var ticks := chan.ticks;
    late := chan.TimedOut(start, timeoutMilli);
    ghost var c := chan.checks[|chan.checks| - 1];
    WatchedStep(before, checked, c, start, timeoutMilli);
    ClockedSnoc(ticks0, checked[|before|..], ticks, c, chan.ticks);
    assert chan.checks[|before|..] == checked[|before|..] + [c];
  }

  /** writeToChannel: writes the buffer's remaining bytes, checking the deadline after
      every write that leaves some unsent. On a timeout, the bytes sent so far stay
      sent. `start` is the clock reading the deadline is measured from. */
  method WriteToChannel(chan: Channel, bb: ByteBuf, timeoutMilli: int64) returns (o: Outcome, ghost start: int64)
    requires bb.Valid()
    modifies chan, bb
    ensures bb.Valid() && bb.limit == old(bb.limit) && old(bb.position) <= bb.position
    ensures chan.sent == old(chan.sent) + bb.hb[old(bb.position)..bb.position]
    ensures o.Pass? <==> bb.position == bb.limit
    ensures o.Fail? ==> o.error == WriteTimeout
    ensures start == if old(chan.ticks) == [] then old(chan.clock) else old(chan.ticks)[0]
    ensures Watched(old(chan.checks), chan.checks, start, timeoutMilli, o.Fail?)
    ensures ClockedChecks(AfterReading(old(chan.ticks)), chan.checks[|old(chan.checks)|..], chan.ticks)
    ensures chan.inbound == old(chan.inbound) && chan.arrivals == old(chan.arrivals)
  {
    var t := chan.NanoTime();
    start := t;
    while true
      invariant bb.Valid() && bb.limit == old(bb.limit) && old(bb.position) <= bb.position
      invariant chan.sent == old(chan.sent) + bb.hb[old(bb.position)..bb.position]
      invariant Watched(old(chan.checks), chan.checks, start, timeoutMilli, false)
      invariant ClockedChecks(AfterReading(old(chan.ticks)), chan.checks[|old(chan.checks)|..], chan.ticks)
      invariant chan.inbound == old(chan.inbound) && chan.arrivals == old(chan.arrivals)
      decreases |chan.ticks|
    {
      ghost var before := bb.position;
      var _ := chan.Write(bb);
      assert bb.hb[old(bb.position)..bb.position]
          == bb.hb[old(bb.position)..before] + bb.hb[before..bb.position];
      if bb.position >= bb.limit {
        return Pass, start;
      }
      var late := CheckDeadline(chan, t, timeoutMilli, old(chan.checks), AfterReading(old(chan.ticks)));
      if late {
        return Fail(WriteTimeout), start;
      }
    }
  }

  /** readFromChannel: reads into a 4096-byte buffer, flipping it after each read
      (and never clearing it), until a read ends in NUL or the daemon closes the
      connection; the deadline is checked after every read that does not end the
      reply. `rs` is the trace of what the reads returned, `start` the clock reading
      the deadline is measured from. */
  method ReadFromChannel(chan: Channel, timeoutMilli: int64)
      returns (r: Result<seq<byte>>, ghost rs: seq<ReadResult>, ghost start: int64)
    modifies chan
    ensures r.Success? <==> Assemble(rs).Some?
    ensures r.Success? ==> Assemble(rs) == Some(r.value)
    ensures r.Failure? ==> r.error == ReadTimeout
    ensures rs != [] && ReplyRead(old(chan.inbound), chan.inbound, rs)
    ensures start == if old(chan.ticks) == [] then old(chan.clock) else old(chan.ticks)[0]
    ensures Watched(old(chan.checks), chan.checks, start, timeoutMilli, r.Failure?)
    ensures ClockedChecks(AfterReading(old(chan.ticks)), chan.checks[|old(chan.checks)|..], chan.ticks)
    ensures |chan.checks| - |old(chan.checks)| == if r.Success? then |rs| - 1 else |rs|
    ensures chan.sent == old(chan.sent) && chan.accepts == old(chan.accepts)
  {
    var reply: seq<byte> := [];
    rs := [];
    var t := chan.NanoTime();
    start := t;
    var bb := new ByteBuf.Allocate(ReplyBufferSize);
    while true
      invariant fresh(bb) && fresh(bb.hb)
      invariant bb.Valid() && bb.position == 0 && bb.limit == RoomAfter(rs, ReplyBufferSize)
      invariant OpenTrace(rs, ReplyBufferSize, reply, old(chan.inbound), chan.inbound)
      invariant Watched(old(chan.checks), chan.checks, start, timeoutMilli, false)
      invariant ClockedChecks(AfterReading(old(chan.ticks)), chan.checks[|old(chan.checks)|..], chan.ticks)
      invariant |chan.checks| - |old(chan.checks)| == |rs|
      invariant chan.sent == old(chan.sent) && chan.accepts == old(chan.accepts)
      decreases |chan.ticks|
    {
      var done;
      done, reply, rs := ReadStep(chan, bb, rs, reply, old(chan.inbound));
      if done {
        r := Success(reply);
        return;
      }
      var late := CheckDeadline(chan, t, timeoutMilli, old(chan.checks), AfterReading(old(chan.ticks)));
      if late {
        r := Failure(ReadTimeout);
        return;
      }
    }
  }

  /** One read of readFromChannel's loop and the flip after it. The reply is `done`
      when the read ended in NUL, whose bytes before it complete the reply, or when
      the daemon had closed the connection; otherwise the bytes read join the reply
      and the loop goes on. */
  method ReadStep(chan: Channel, bb: ByteBuf, ghost rs: seq<ReadResult>, reply: seq<byte>, ghost input: seq<byte>)
      returns (done: bool, reply': seq<byte>, ghost rs': seq<ReadResult>)
    requires bb.Valid() && bb.position == 0 && bb.limit == RoomAfter(rs, ReplyBufferSize)
    requires OpenTrace(rs, ReplyBufferSize, reply, input, chan.inbound)
    modifies chan, bb, bb.hb
    ensures |rs'| == |rs| + 1
    ensures done ==> Assemble(rs') == Some(reply') && ReplyRead(input, chan.inbound, rs')
    ensures !done ==> bb.Valid() && bb.position == 0 && bb.limit == RoomAfter(rs', ReplyBufferSize)
    ensures !done ==> OpenTrace(rs', ReplyBufferSize, reply', input, chan.inbound)
    ensures chan.sent == old(chan.sent) && chan.accepts == old(chan.accepts)
    ensures chan.checks == old(chan.checks) && chan.ticks == old(chan.ticks)
  {
    ghost var pending := chan.inbound;
    var n := chan.Read(bb);
    if n < 0 {
      ReadClosed(rs, ReplyBufferSize, reply, input, chan.inbound);
      return true, reply, rs + [PeerClosed];
    }
    bb.Flip();
    ghost var data := bb.hb[bb.position..bb.limit];
    assert pending == data + chan.inbound by {
      assert data == pending[..n] && chan.inbound == pending[n..];
    }
    ReadMore(rs, ReplyBufferSize, reply, input, pending, data, chan.inbound);
    rs' := rs + [Chunk(data)];
    if bb.limit > 0 && bb.hb[bb.limit - 1] == 0 {
      assert bb.hb[bb.position..bb.limit - 1] == data[..|data| - 1];
      if bb.limit > 1 {
        reply' := reply + bb.hb[bb.position..bb.limit - 1];
      } else {
        reply' := reply;
        assert reply == reply + data[..|data| - 1];
      }
      return true, reply', rs';
    }
    reply' := reply + bb.hb[bb.position..bb.limit];
    done := false;
  }

  /** writeToChannel(selectionKey, ByteBuffer.wrap(cmd), timeout): the whole command
      is sent, or the write times out after sending only part of it. */
  method SendCommand(chan: Channel, cmd: seq<byte>, timeoutMilli: int64) returns (o: Outcome, ghost start: int64)
    modifies chan
    ensures o.Pass? ==> chan.sent == old(chan.sent) + cmd
    ensures o.Fail? ==> o.error == WriteTimeout && old(chan.sent) <= chan.sent < old(chan.sent) + cmd
    ensures Watched(old(chan.checks), chan.checks, start, timeoutMilli, o.Fail?)
    ensures chan.inbound == old(chan.inbound) && chan.arrivals == old(chan.arrivals)
  {
    var a := new byte[|cmd|](i requires 0 <= i < |cmd| => cmd[i]);
    assert a[..] == cmd;
    var bb := new ByteBuf.Wrap(a);
    o, start := WriteToChannel(chan, bb, timeoutMilli);
    assert chan.sent == old(chan.sent) + cmd[..bb.position];
  }

  /** What the reads of a reply took: exactly the bytes now missing from what the
      daemon sent, each read fitting the room readFromChannel's buffer had left, and
      no read before the last ending the reply. */
  ghost predicate ReplyRead(inbound0: seq<byte>, inbound: seq<byte>, rs: seq<ReadResult>)
  {
    inbound0 == Received(rs) + inbound && FitsShrinkingBuffer(rs, ReplyBufferSize)
    && forall i :: 0 <= i < |rs| - 1 ==> !Completes(rs[i])
  }

  /** A command written with writeToChannel, then its reply read with
      readFromChannel, both under one timeout: the exchange every command but
      INSTREAM and SHUTDOWN makes. The reply is read exactly when the command went
      out in full. */
  method Exchange(chan: Channel, cmd: seq<byte>, timeoutMilli: int64)
      returns (r: Result<seq<byte>>, ghost rs: seq<ReadResult>)
    modifies chan
    ensures r.Success? <==> chan.sent == old(chan.sent) + cmd && Assemble(rs).Some?
    ensures r.Success? ==> Assemble(rs) == Some(r.value)
    ensures r.Failure? ==> r.error == WriteTimeout || r.error == ReadTimeout
    ensures ReplyRead(old(chan.inbound), chan.inbound, rs)
    ensures rs != [] <==> chan.sent == old(chan.sent) + cmd
    ensures r == Failure(WriteTimeout) <==> rs == []
    ensures r == Failure(ReadTimeout) <==> rs != [] && Assemble(rs) == None
    ensures UsesTimeout(old(chan.checks), chan.checks, timeoutMilli)
  {
    rs := [];
    var o;
    ghost var start;
    o, start := SendCommand(chan, cmd, timeoutMilli);
    WatchedUses(old(chan.checks), chan.checks, start, timeoutMilli, o.Fail?);
    if o.Fail? {
      return Failure(o.error), rs;
    }
    ghost var checked := chan.checks;
    r, rs, start := ReadFromChannel(chan, timeoutMilli);
    WatchedUses(checked, chan.checks, start, timeoutMilli, r.Failure?);
    UsesTimeoutTrans(old(chan.checks), checked, chan.checks, timeoutMilli);
  }

  /** One data chunk of the upload: the piece the stream has just read into
      buffer[4..], prefixed with its length, written from the start of the buffer. */
  method SendChunk(chan: Channel, bb: ByteBuf, n: nat, ghost piece: seq<byte>, timeoutMilli: int64)
      returns (o: Outcome)
    requires bb.Valid() && 4 <= bb.limit && 4 + n <= bb.hb.Length
    requires 1 <= n <= MaxChunk && |piece| == n && bb.hb[4..4 + n] == piece
    modifies chan, bb, bb.hb
    ensures bb.Valid() && 4 <= bb.limit
    ensures o.Pass? ==> chan.sent == old(chan.sent) + Frame(piece)
    ensures o.Fail? ==> o.error == WriteTimeout && |old(chan.sent)| <= |chan.sent|
    ensures o.Fail? ==> chan.sent[..|old(chan.sent)|] == old(chan.sent) && chan.sent[|old(chan.sent)|..] < Frame(piece)
    ensures UsesTimeout(old(chan.checks), chan.checks, timeoutMilli)
    ensures chan.inbound == old(chan.inbound) && chan.arrivals == old(chan.arrivals)
  {
    bb.PutInt(0, n as int32);
    bb.SetPosition(0);
    bb.SetLimit(4 + n);
    assert bb.hb[..4 + n] == Frame(piece) by {
      assert bb.hb[..4] == IntBytes(n as int32) == BigEndian32(n);
    }
    ghost var start;
    o, start := WriteToChannel(chan, bb, timeoutMilli);
    WatchedUses(old(chan.checks), chan.checks, start, timeoutMilli, o.Fail?);
    assert chan.sent == old(chan.sent) + Frame(piece)[..bb.position];
  }

  /** The INSTREAM upload of scanStream: pieces of up to 4096 bytes read from the
      caller's stream, each sent as a length-prefixed chunk from one 4100-byte buffer,
      then the zero-length chunk. A read that throws or a write that times out ends
      the upload early, silently; `completed` says whether it was sent in full. */
  method UploadStream(chan: Channel, src: InputSource, timeoutMilli: int64) returns (completed: bool)
    requires ValidReads(src.script)
    modifies chan, src
    ensures old(chan.sent) <= chan.sent
    ensures chan.sent[|old(chan.sent)|..] <= Frames(Pieces(old(src.script))) + Terminator
    ensures completed <==> chan.sent == old(chan.sent) + Frames(Pieces(old(src.script))) + Terminator
    ensures completed ==> EndsCleanly(old(src.script))
    ensures UsesTimeout(old(chan.checks), chan.checks, timeoutMilli)
    ensures chan.inbound == old(chan.inbound) && chan.arrivals == old(chan.arrivals)
  {
    ghost var script := src.script;
    ghost var sent0 := chan.sent;
    var buffer := new byte[MaxChunk + 4];
    var bb := new ByteBuf.Wrap(buffer);
    var ended, done := UploadPieces(chan, src, bb, timeoutMilli);
    ghost var checked := chan.checks;
    if !ended {
      CutShortIncomplete(sent0, chan.sent, script);
      return false;
    }
    ghost var before := chan.sent;
    var o := SendTerminator(chan, bb, timeoutMilli);
    UsesTimeoutTrans(old(chan.checks), checked, chan.checks, timeoutMilli);
    completed := o.Pass?;
    TerminatorSent(script, sent0, before, chan.sent, done, completed);
  }

  /** An upload cut short is a prefix of the whole upload, and not all of it. */
  lemma CutShortIncomplete(sent0: seq<byte>, sent: seq<byte>, script: seq<SourceRead>)
    requires CutShort(sent0, sent, script)
    ensures sent0 <= sent && sent[|sent0|..] <= Frames(Pieces(script)) + Terminator
    ensures sent != sent0 + Frames(Pieces(script)) + Terminator
  {
    assert |sent[|sent0|..]| < |Frames(Pieces(script)) + Terminator|;
  }

  /** After the frames of every piece, the terminator either goes out in full and
      completes the upload, or goes out in part and leaves it cut short. */
  lemma TerminatorSent(script: seq<SourceRead>, sent0: seq<byte>, before: seq<byte>, sent: seq<byte>,
                       done: seq<seq<byte>>, completed: bool)
    requires ValidReads(script) && Pieces(script) == done && SentFrames(sent0, before, done)
    requires completed ==> sent == before + Terminator
    requires !completed ==> |before| <= |sent| && sent[..|before|] == before && sent[|before|..] < Terminator
    ensures sent0 <= sent && sent[|sent0|..] <= Frames(Pieces(script)) + Terminator
    ensures completed <==> sent == sent0 + Frames(Pieces(script)) + Terminator
  {
    if completed {
      Regroup(sent0, Frames(done), Terminator);
      assert sent[|sent0|..] == Frames(done) + Terminator;
    } else {
      assert done + [] == done;
      PrefixOfUpload(sent0, sent, done, []);
      CutShortIncomplete(sent0, sent, script);
    }
  }

  /** The loop of the upload: reads the caller's stream into buffer[4..] and sends
      each piece as a data chunk, until the stream ends (`ended`), a read throws or a
      write times out. `done` is the pieces sent in full. */
  method UploadPieces(chan: Channel, src: InputSource, bb: ByteBuf, timeoutMilli: int64)
      returns (ended: bool, ghost done: seq<seq<byte>>)
    requires bb.Valid() && 4 <= bb.limit && bb.hb.Length == MaxChunk + 4
    requires ValidReads(src.script)
    modifies chan, src, bb, bb.hb
    ensures bb.Valid()
    ensures ended ==> Pieces(old(src.script)) == done && EndsCleanly(old(src.script))
    ensures ended ==> SentFrames(old(chan.sent), chan.sent, done)
    ensures !ended ==> CutShort(old(chan.sent), chan.sent, old(src.script))
    ensures UsesTimeout(old(chan.checks), chan.checks, timeoutMilli)
    ensures chan.inbound == old(chan.inbound) && chan.arrivals == old(chan.arrivals)
  {
    ghost var script := src.script;
    ghost var sent0 := chan.sent;
    done := [];
    assert Consumed(script, done, script);
    while true
      invariant bb.Valid() && 4 <= bb.limit
      invariant Consumed(script, done, src.script)
      invariant SentFrames(sent0, chan.sent, done)
      invariant UsesTimeout(old(chan.checks), chan.checks, timeoutMilli)
      invariant chan.inbound == old(chan.inbound) && chan.arrivals == old(chan.arrivals)
      decreases |src.script|
    {
      var step;
      ghost var checked := chan.checks;
      step, done := UploadOne(chan, src, bb, timeoutMilli, script, sent0, done);
      UsesTimeoutTrans(old(chan.checks), checked, chan.checks, timeoutMilli);
      if !step.More? {
        return step.Ended?, done;
      }
    }
  }

  /** The frames of the pieces `done`, in full, follow `sent0`. */
  ghost predicate SentFrames(sent0: seq<byte>, sent: seq<byte>, done: seq<seq<byte>>)
  {
    ValidPieces(done) && sent == sent0 + Frames(done)
  }

  /** What follows `sent0` is a proper prefix of the upload of `script`. */
  ghost predicate CutShort(sent0: seq<byte>, sent: seq<byte>, script: seq<SourceRead>)
  {
    ValidReads(script) && sent0 <= sent && sent[|sent0|..] < Frames(Pieces(script)) + Terminator
  }

  /** How one round of the upload loop ends. */
  datatype Step = More | Ended | Failed

  /** One round of the upload loop: one read of the caller's stream, and the chunk
      holding what it read. */
  method UploadOne(chan: Channel, src: InputSource, bb: ByteBuf, timeoutMilli: int64,
                   ghost script: seq<SourceRead>, ghost sent0: seq<byte>, ghost done: seq<seq<byte>>)
      returns (step: Step, ghost done': seq<seq<byte>>)
    requires bb.Valid() && 4 <= bb.limit && bb.hb.Length == MaxChunk + 4
    requires Consumed(script, done, src.script)
    requires SentFrames(sent0, chan.sent, done)
    modifies chan, src, bb, bb.hb
    ensures bb.Valid() && 4 <= bb.limit
    ensures step.More? ==> Consumed(script, done', src.script) && |src.script| < |old(src.script)|
    ensures step.More? ==> SentFrames(sent0, chan.sent, done')
    ensures step.Ended? ==> Pieces(script) == done' && EndsCleanly(script)
    ensures step.Ended? ==> SentFrames(sent0, chan.sent, done')
    ensures step.Failed? ==> CutShort(sent0, chan.sent, script)
    ensures UsesTimeout(old(chan.checks), chan.checks, timeoutMilli)
    ensures chan.inbound == old(chan.inbound) && chan.arrivals == old(chan.arrivals)
  {
    done' := done;
    ghost var cur := src.script;
    var failed, n := src.Read(bb.hb, 4, MaxChunk);
    if failed || n < 0 {
      ConsumedAll(script, done, cur);
      if failed {
        ReadCutShort(script, sent0, chan.sent, done);
        return Failed, done';
      }
      return Ended, done';
    }
    assert bb.hb[4..4 + n] == cur[0].bytes;
    step, done' := SendPiece(chan, bb, n, timeoutMilli, script, sent0, done, cur);
  }

  /** The second half of a round of the upload loop: the chunk for the piece the
      stream has just read into buffer[4..]. */
  method SendPiece(chan: Channel, bb: ByteBuf, n: nat, timeoutMilli: int64,
                   ghost script: seq<SourceRead>, ghost sent0: seq<byte>, ghost done: seq<seq<byte>>,
                   ghost cur: seq<SourceRead>)
      returns (step: Step, ghost done': seq<seq<byte>>)
    requires bb.Valid() && 4 <= bb.limit && bb.hb.Length == MaxChunk + 4
    requires Consumed(script, done, cur) && cur != [] && cur[0].Data?
    requires n == |cur[0].bytes| && bb.hb[4..4 + n] == cur[0].bytes
    requires SentFrames(sent0, chan.sent, done)
    modifies chan, bb, bb.hb
    ensures bb.Valid() && 4 <= bb.limit && !step.Ended?
    ensures step.More? ==> Consumed(script, done', cur[1..]) && SentFrames(sent0, chan.sent, done')
    ensures step.Failed? ==> CutShort(sent0, chan.sent, script)
    ensures UsesTimeout(old(chan.checks), chan.checks, timeoutMilli)
    ensures chan.inbound == old(chan.inbound) && chan.arrivals == old(chan.arrivals)
  {
    ghost var p := cur[0].bytes;
    ConsumedOneMore(script, done, cur);
    var o := SendChunk(chan, bb, n, p, timeoutMilli);
    if o.Fail? {
      ChunkCutShort(script, sent0, chan.sent, done, p, Pieces(cur[1..]));
      return Failed, done;
    }
    FramesSnoc(sent0, done, p);
    return More, done + [p];
  }

  /** What the upload loop knows once it has sent the pieces `done` of the stream
      `script`, whose reads still to come are `rest`. */
  ghost predicate Consumed(script: seq<SourceRead>, done: seq<seq<byte>>, rest: seq<SourceRead>)
  {
    ValidReads(script) && ValidReads(rest) && ValidPieces(done) && ValidPieces(Pieces(rest))
    && Pieces(script) == done + Pieces(rest)
    && (EndsCleanly(rest) ==> EndsCleanly(script))
  }

  /** A read of data: its bytes are the next piece, and the frames of what remains
      follow its frame. */
  lemma ConsumedOneMore(script: seq<SourceRead>, done: seq<seq<byte>>, rest: seq<SourceRead>)
    requires Consumed(script, done, rest) && rest != [] && rest[0].Data?
    ensures 1 <= |rest[0].bytes| <= MaxChunk
    ensures Pieces(rest) == [rest[0].bytes] + Pieces(rest[1..])
    ensures Frames(Pieces(rest)) == Frame(rest[0].bytes) + Frames(Pieces(rest[1..]))
    ensures Consumed(script, done + [rest[0].bytes], rest[1..])
  {
    var p := rest[0].bytes;
    FramesCons(p, Pieces(rest[1..]));
    assert ValidPieces(done + [p]);
    Regroup(done, [p], Pieces(rest[1..]));
  }

  /** A read at the end of the stream, or one that throws: every piece has been read. */
  lemma ConsumedAll(script: seq<SourceRead>, done: seq<seq<byte>>, rest: seq<SourceRead>)
    requires Consumed(script, done, rest) && (rest == [] || !rest[0].Data?)
    ensures Pieces(rest) == [] && Pieces(script) == done
    ensures rest == [] || rest[0].EndOfStream? ==> EndsCleanly(script)
  {
    assert done + [] == done;
  }

  /** The zero-length chunk that ends the upload, from the start of the buffer. */
  method SendTerminator(chan: Channel, bb: ByteBuf, timeoutMilli: int64) returns (o: Outcome)
    requires bb.Valid() && 4 <= bb.hb.Length
    modifies chan, bb, bb.hb
    ensures o.Pass? ==> chan.sent == old(chan.sent) + Terminator
    ensures o.Fail? ==> o.error == WriteTimeout && |old(chan.sent)| <= |chan.sent|
    ensures o.Fail? ==> chan.sent[..|old(chan.sent)|] == old(chan.sent) && chan.sent[|old(chan.sent)|..] < Terminator
    ensures UsesTimeout(old(chan.checks), chan.checks, timeoutMilli)
    ensures chan.inbound == old(chan.inbound) && chan.arrivals == old(chan.arrivals)
  {
    bb.SetPosition(0);
    bb.SetLimit(4);
    bb.PutInt(0, 0);
    assert bb.hb[..4] == Terminator by {
      assert bb.hb[..4] == IntBytes(0);
    }
    ghost var start;
    o, start := WriteToChannel(chan, bb, timeoutMilli);
    WatchedUses(old(chan.checks), chan.checks, start, timeoutMilli, o.Fail?);
    assert chan.sent == old(chan.sent) + Terminator[..bb.position];
  }

  /** An upload that has sent the frames of `done` and then only part of what should
      follow them has sent a proper prefix of the whole upload. */
  lemma PrefixOfUpload(sent0: seq<byte>, sent: seq<byte>, done: seq<seq<byte>>, rest: seq<seq<byte>>)
    requires ValidPieces(done) && ValidPieces(rest)
    requires |sent0| + |Frames(done)| <= |sent|
    requires sent[..|sent0| + |Frames(done)|] == sent0 + Frames(done)
    requires sent[|sent0| + |Frames(done)|..] < Frames(rest) + Terminator
    ensures ValidPieces(done + rest)
    ensures sent0 <= sent && sent[|sent0|..] < Frames(done + rest) + Terminator
  {
    var a := Frames(done);
    var part := sent[|sent0| + |a|..];
    assert sent[|sent0|..] == a + part;
    FramesAppend(done, rest);
    PrefixExtend(a, Frames(rest) + Terminator, part);
    assert Frames(done + rest) + Terminator == a + (Frames(rest) + Terminator);
  }

  /** A read that throws after the frames of every piece leaves the upload without
      its terminator. */
  lemma ReadCutShort(script: seq<SourceRead>, sent0: seq<byte>, sent: seq<byte>, done: seq<seq<byte>>)
    requires ValidReads(script) && Pieces(script) == done
    requires SentFrames(sent0, sent, done)
    ensures CutShort(sent0, sent, script)
  {
    FramesWithoutTerminator(sent0, done);
  }

  /** A chunk only partly sent, after the frames of `done`, leaves a proper prefix
      of the upload of `done`, that piece and the pieces after it. */
  lemma ChunkCutShort(script: seq<SourceRead>, sent0: seq<byte>, sent: seq<byte>,
                      done: seq<seq<byte>>, p: seq<byte>, rest: seq<seq<byte>>)
    requires ValidReads(script) && Pieces(script) == done + ([p] + rest)
    requires ValidPieces(done) && 1 <= |p| <= MaxChunk && ValidPieces(rest)
    requires |sent0 + Frames(done)| <= |sent|
    requires sent[..|sent0 + Frames(done)|] == sent0 + Frames(done)
    requires sent[|sent0 + Frames(done)|..] < Frame(p)
    ensures CutShort(sent0, sent, script)
  {
    FramesCons(p, rest);
    Regroup(Frame(p), Frames(rest), Terminator);
    PrefixGrow(sent[|sent0 + Frames(done)|..], Frame(p), Frames(rest) + Terminator);
    PrefixOfUpload(sent0, sent, done, [p] + rest);
  }

  lemma PrefixGrow(a: seq<byte>, b: seq<byte>, c: seq<byte>)
    requires a < b
    ensures a < b + c
  {
    assert a == (b + c)[..|a|];
  }

  /** One more piece sent in full extends the upload by its frame. */
  lemma FramesSnoc(sent0: seq<byte>, done: seq<seq<byte>>, p: seq<byte>)
    requires ValidPieces(done) && 1 <= |p| <= MaxChunk
    ensures ValidPieces(done + [p])
    ensures sent0 + Frames(done) + Frame(p) == sent0 + Frames(done + [p])
  {
    FramesSingle(p);
    FramesAppend(done, [p]);
    Regroup(sent0, Frames(done), Frame(p));
  }

  /** The daemon decodes the pieces from what follows the command. */
  lemma UploadDecodes(head: seq<byte>, pieces: seq<seq<byte>>)
    requires ValidPieces(pieces)
    ensures Deframe((head + Frames(pieces) + Terminator)[|head|..]) == Some(pieces)
  {
    assert (head + Frames(pieces) + Terminator)[|head|..] == Frames(pieces) + Terminator;
    DeframeFrames(pieces);
  }

  /** Frames without the terminator are a proper prefix of the upload. */
  lemma FramesWithoutTerminator(sent0: seq<byte>, done: seq<seq<byte>>)
    requires ValidPieces(done)
    ensures sent0 <= sent0 + Frames(done)
    ensures (sent0 + Frames(done))[|sent0|..] < Frames(done) + Terminator
  {
    assert (sent0 + Frames(done))[|sent0|..] == Frames(done);
  }

  lemma PrefixExtend(a: seq<byte>, b: seq<byte>, part: seq<byte>)
    requires part < b
    ensures a + part < a + b
  {
    assert a + part == (a + b)[..|a| + |part|];
  }

  lemma FramesSingle(p: seq<byte>)
    requires 1 <= |p| <= MaxChunk
    ensures ValidPieces([p])
    ensures Frames([p]) == Frame(p)
  {
    assert [p][1..] == [];
  }

  /** The client with its three timeouts in milliseconds; the daemon's address and
      protocol family only matter to connecting, which is not part of this model. */
  class ClamdClient {
    var connectTimeout: int32
    var baseTimeout: int32
    var scanTimeout: int32

    /** Both constructors: 2 s to connect, 2 s per command, 120 s for a scan reply. */
    constructor ()
      ensures connectTimeout == 2000 && baseTimeout == 2000 && scanTimeout == 120_000
    {
      connectTimeout := 2000;
      baseTimeout := 2000;
      scanTimeout := 120_000;
    }

    method SetConnectTimeout(t: int32)
      modifies this
      ensures connectTimeout == t
      ensures baseTimeout == old(baseTimeout) && scanTimeout == old(scanTimeout)
    {
      connectTimeout := t;
    }

    method SetBaseTimeout(t: int32)
      modifies this
      ensures baseTimeout == t
      ensures connectTimeout == old(connectTimeout) && scanTimeout == old(scanTimeout)
    {
      baseTimeout := t;
    }

    method SetScanTimeout(t: int32)
      modifies this
      ensures scanTimeout == t
      ensures connectTimeout == old(connectTimeout) && baseTimeout == old(baseTimeout)
    {
      scanTimeout := t;
    }

    /** checkConnection: PING, then the reply must be PONG. The test is the corrected
        one, without the NUL that PONG_REPLY keeps and the reply never has. */
    method CheckConnection(chan: Channel) returns (o: Outcome, ghost rs: seq<ReadResult>)
      modifies chan
      ensures o.Pass? <==> (chan.sent == old(chan.sent) + PingCmd
                            && Assemble(rs).Some? && PongAccepted(Assemble(rs).value))
      ensures o.Fail? && o.error.UnexpectedReply? ==>
                Assemble(rs).Some? && o.error == UnexpectedReply("PONG", AsString(Assemble(rs).value))
      ensures chan.sent == old(chan.sent) + PingCmd && Assemble(rs).Some? && !PongAccepted(Assemble(rs).value) ==>
                o == Fail(UnexpectedReply("PONG", AsString(Assemble(rs).value)))
      ensures ReplyRead(old(chan.inbound), chan.inbound, rs)
      ensures rs != [] <==> chan.sent == old(chan.sent) + PingCmd
      ensures o == Fail(WriteTimeout) <==> rs == []
      ensures o == Fail(ReadTimeout) <==> rs != [] && Assemble(rs) == None
      ensures UsesTimeout(old(chan.checks), chan.checks, baseTimeout as int64)
    {
      var r;
      r, rs := Exchange(chan, PingCmd, baseTimeout as int64);
      if r.Failure? {
        return Fail(r.error), rs;
      }
      if !PongAccepted(r.value) {
        return Fail(UnexpectedReply("PONG", AsString(r.value))), rs;
      }
      o := Pass;
    }

    /** reload: RELOAD, then the reply must be RELOADING. The test is the corrected
        one, without the NUL that RELOADING_REPLY keeps and the reply never has. */
    method Reload(chan: Channel) returns (o: Outcome, ghost rs: seq<ReadResult>)
      modifies chan
      ensures o.Pass? <==> (chan.sent == old(chan.sent) + ReloadCmd
                            && Assemble(rs).Some? && ReloadingAccepted(Assemble(rs).value))
      ensures o.Fail? && o.error.UnexpectedReply? ==>
                Assemble(rs).Some? && o.error == UnexpectedReply("RELOADING", AsString(Assemble(rs).value))
      ensures chan.sent == old(chan.sent) + ReloadCmd && Assemble(rs).Some? && !ReloadingAccepted(Assemble(rs).value) ==>
                o == Fail(UnexpectedReply("RELOADING", AsString(Assemble(rs).value)))
      ensures ReplyRead(old(chan.inbound), chan.inbound, rs)
      ensures rs != [] <==> chan.sent == old(chan.sent) + ReloadCmd
      ensures o == Fail(WriteTimeout) <==> rs == []
      ensures o == Fail(ReadTimeout) <==> rs != [] && Assemble(rs) == None
      ensures UsesTimeout(old(chan.checks), chan.checks, baseTimeout as int64)
    {
      var r;
      r, rs := Exchange(chan, ReloadCmd, baseTimeout as int64);
      if r.Failure? {
        return Fail(r.error), rs;
      }
      if !ReloadingAccepted(r.value) {
        return Fail(UnexpectedReply("RELOADING", AsString(r.value))), rs;
      }
      o := Pass;
    }

    /** shutdown: SHUTDOWN, and no reply is read. */
    method Shutdown(chan: Channel) returns (o: Outcome)
      modifies chan
      ensures o.Pass? <==> chan.sent == old(chan.sent) + ShutdownCmd
      ensures o.Fail? ==> o.error == WriteTimeout
      ensures chan.inbound == old(chan.inbound)
      ensures UsesTimeout(old(chan.checks), chan.checks, baseTimeout as int64)
    {
      ghost var start;
      o, start := SendCommand(chan, ShutdownCmd, baseTimeout as int64);
      WatchedUses(old(chan.checks), chan.checks, start, baseTimeout as int64, o.Fail?);
    }

    /** getVersion: VERSION, and the reply as text. */
    method GetVersion(chan: Channel) returns (r: Result<string>, ghost rs: seq<ReadResult>)
      modifies chan
      ensures r.Success? <==> chan.sent == old(chan.sent) + VersionCmd && Assemble(rs).Some?
      ensures r.Success? ==> r.value == AsString(Assemble(rs).value)
      ensures ReplyRead(old(chan.inbound), chan.inbound, rs)
      ensures rs != [] <==> chan.sent == old(chan.sent) + VersionCmd
      ensures r == Failure(WriteTimeout) <==> rs == []
      ensures r == Failure(ReadTimeout) <==> rs != [] && Assemble(rs) == None
      ensures UsesTimeout(old(chan.checks), chan.checks, baseTimeout as int64)
    {
      var reply;
      reply, rs := Exchange(chan, VersionCmd, baseTimeout as int64);
      if reply.Failure? {
        return Failure(reply.error), rs;
      }
      r := Success(AsString(reply.value));
    }

    /** getVersionsCommands: VERSIONCOMMANDS, and the reply split into the version and
        the command names. */
    method GetVersionsCommands(chan: Channel) returns (r: Result<VersionCommands>, ghost rs: seq<ReadResult>)
      modifies chan
      ensures r.Success? ==> chan.sent == old(chan.sent) + VersionCommandsCmd && Assemble(rs).Some?
      ensures chan.sent == old(chan.sent) + VersionCommandsCmd && Assemble(rs).Some? ==>
                r == ParseVersionsCommands(AsString(Assemble(rs).value))
      ensures ReplyRead(old(chan.inbound), chan.inbound, rs)
      ensures rs != [] <==> chan.sent == old(chan.sent) + VersionCommandsCmd
      ensures r == Failure(WriteTimeout) <==> rs == []
      ensures r == Failure(ReadTimeout) <==> rs != [] && Assemble(rs) == None
      ensures UsesTimeout(old(chan.checks), chan.checks, baseTimeout as int64)
    {
      var reply;
      reply, rs := Exchange(chan, VersionCommandsCmd, baseTimeout as int64);
      if reply.Failure? {
        return Failure(reply.error), rs;
      }
      r := ParseVersionsCommands(AsString(reply.value));
    }

    /** scanStream(InputStream): INSTREAM, the upload (whose failures are swallowed),
        then the verdict read under the scan timeout. When the upload went out in
        full, the daemon decodes exactly the stream's pieces from it, and otherwise it
        received a prefix of the frames. `upload` is the log of deadline checks as the
        upload ended; every later check is one of the verdict's reads, measured from
        `readStart` under the scan timeout. */
    method ScanStream(chan: Channel, src: InputSource)
        returns (r: Result<ScanResult>, ghost uploaded: bool, ghost rs: seq<ReadResult>,
                 ghost upload: seq<DeadlineCheck>, ghost readStart: int64)
      requires ValidReads(src.script)
      modifies chan, src
      ensures r == Failure(WriteTimeout) ==> !uploaded
      ensures r.Failure? ==> r.error == WriteTimeout || (r.error == ReadTimeout && Assemble(rs) == None)
      ensures r.Success? ==> Assemble(rs).Some? && r.value == ParseResultLine(AsString(Assemble(rs).value))
      ensures uploaded <==> chan.sent == old(chan.sent) + InstreamCmd + Frames(Pieces(old(src.script))) + Terminator
      ensures uploaded ==> EndsCleanly(old(src.script))
      ensures uploaded ==> Deframe(chan.sent[|old(chan.sent)| + |InstreamCmd|..]) == Some(Pieces(old(src.script)))
      ensures old(chan.sent) + InstreamCmd <= chan.sent ==>
                chan.sent[|old(chan.sent)| + |InstreamCmd|..] <= Frames(Pieces(old(src.script))) + Terminator
      ensures old(chan.sent) + InstreamCmd <= chan.sent ==> r.Success? || r.error == ReadTimeout
      ensures ReplyRead(old(chan.inbound), chan.inbound, rs)
      ensures rs != [] <==> old(chan.sent) + InstreamCmd <= chan.sent
      ensures r == Failure(WriteTimeout) <==> rs == []
      ensures r == Failure(ReadTimeout) <==> rs != [] && Assemble(rs) == None
      ensures UsesTimeout(old(chan.checks), upload, baseTimeout as int64)
      ensures UsesTimeout(upload, chan.checks, scanTimeout as int64)
      ensures rs == [] ==> upload == chan.checks
      ensures rs != [] ==> Watched(upload, chan.checks, readStart, scanTimeout as int64, r == Failure(ReadTimeout))
      ensures rs != [] ==> |chan.checks| - |upload| == if r.Success? then |rs| - 1 else |rs|
    {
      uploaded := false;
      rs := [];
      ghost var sent0 := chan.sent;
      ghost var script := src.script;
      var o;
      ghost var start;
      o, start := SendCommand(chan, InstreamCmd, baseTimeout as int64);
      WatchedUses(old(chan.checks), chan.checks, start, baseTimeout as int64, o.Fail?);
      if o.Fail? {
        assert |chan.sent| < |sent0 + InstreamCmd + Frames(Pieces(script)) + Terminator|;
        assert |chan.sent| < |sent0 + InstreamCmd|;
        return Failure(o.error), false, rs, chan.checks, start;
      }
      ghost var head := chan.sent;
      ghost var checked := chan.checks;
      uploaded := UploadStream(chan, src, baseTimeout as int64);
      UsesTimeoutTrans(old(chan.checks), checked, chan.checks, baseTimeout as int64);
      if uploaded {
        UploadDecodes(head, Pieces(script));
      }
      upload := chan.checks;
      assert head <= chan.sent;
      assert sent0 + InstreamCmd <= chan.sent by {
        assert chan.sent[..|head|] == head;
      }
      assert chan.sent[|sent0| + |InstreamCmd|..] == chan.sent[|head|..];
      var reply;
      reply, rs, readStart := ReadFromChannel(chan, scanTimeout as int64);
      WatchedUses(upload, chan.checks, readStart, scanTimeout as int64, reply.Failure?);
      if reply.Failure? {
        return Failure(reply.error), uploaded, rs, upload, readStart;
      }
      r := Success(ParseResultLine(AsString(reply.value)));
    }

    /** scanStream(byte[]): the array uploaded through a ByteArrayInputStream. When
        the upload went out in full, the daemon receives exactly the array, and
        otherwise a prefix of its frames. */
    method ScanBytes(chan: Channel, input: seq<byte>)
        returns (r: Result<ScanResult>, ghost uploaded: bool, ghost rs: seq<ReadResult>,
                 ghost upload: seq<DeadlineCheck>, ghost readStart: int64)
      modifies chan
      ensures r == Failure(WriteTimeout) ==> !uploaded
      ensures r.Failure? ==> r.error == WriteTimeout || (r.error == ReadTimeout && Assemble(rs) == None)
      ensures r.Success? ==> Assemble(rs).Some? && r.value == ParseResultLine(AsString(Assemble(rs).value))
      ensures uploaded <==> chan.sent == old(chan.sent) + InstreamCmd + Frames(ByteArrayChunks(input)) + Terminator
      ensures uploaded ==> Deframe(chan.sent[|old(chan.sent)| + |InstreamCmd|..]).Some?
      ensures uploaded ==> Concat(Deframe(chan.sent[|old(chan.sent)| + |InstreamCmd|..]).value) == input
      ensures old(chan.sent) + InstreamCmd <= chan.sent ==>
                chan.sent[|old(chan.sent)| + |InstreamCmd|..] <= Frames(ByteArrayChunks(input)) + Terminator
      ensures old(chan.sent) + InstreamCmd <= chan.sent ==> r.Success? || r.error == ReadTimeout
      ensures ReplyRead(old(chan.inbound), chan.inbound, rs)
      ensures rs != [] <==> old(chan.sent) + InstreamCmd <= chan.sent
      ensures r == Failure(WriteTimeout) <==> rs == []
      ensures r == Failure(ReadTimeout) <==> rs != [] && Assemble(rs) == None
      ensures UsesTimeout(old(chan.checks), upload, baseTimeout as int64)
      ensures UsesTimeout(upload, chan.checks, scanTimeout as int64)
      ensures rs == [] ==> upload == chan.checks
      ensures rs != [] ==> Watched(upload, chan.checks, readStart, scanTimeout as int64, r == Failure(ReadTimeout))
      ensures rs != [] ==> |chan.checks| - |upload| == if r.Success? then |rs| - 1 else |rs|
    {
      ByteArrayReadsSound(input);
      ByteArrayChunksSound(input);
      var src := new InputSource(ByteArrayReads(input));
      r, uploaded, rs, upload, readStart := ScanStream(chan, src);
    }
  }
}
